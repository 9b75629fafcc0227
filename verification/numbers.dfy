/**
 * Integer arithmetic and the two number/text conversions the size column
 * uses: JavaScript's `parseInt(x, 10)` and the decimal rendering of an
 * integer.
 */
module Numbers {
  import opened Wrappers

  function Pow(b: nat, e: nat): (r: nat)
    ensures b > 0 ==> r > 0
  {
    if e == 0 then 1 else b * Pow(b, e - 1)
  }

  /** Powers of a base above one grow strictly. */
  lemma {:induction false} PowStrictlyIncreasing(b: nat, e1: nat, e2: nat)
    requires b > 1 && e1 < e2
    ensures Pow(b, e1) < Pow(b, e2)
  {
    var p := Pow(b, e2 - 1);
    assert Pow(b, e2) == b * p;
    MulAtLeast(p, b - 1);
    assert b * p == p * (b - 1) + p;
    if e1 + 1 < e2 {
      PowStrictlyIncreasing(b, e1, e2 - 1);
    }
  }

  /** Euclidean division is determined by quotient and remainder. */
  lemma DivUnique(x: int, d: nat, q: int, r: int)
    requires d > 0 && x == d * q + r && 0 <= r < d
    ensures x / d == q
  {
    var q', r' := x / d, x % d;
    assert d * q + r == d * q' + r';
    if q > q' {
      assert d * (q - q') == r' - r;
      MulAtLeast(d, q - q');
    } else if q < q' {
      assert d * (q' - q) == r - r';
      MulAtLeast(d, q' - q);
    }
  }

  lemma MulAtLeast(d: nat, k: int)
    requires k >= 1
    ensures d * k >= d
  {
    assert d * k == d * (k - 1) + d;
    assert d * (k - 1) >= 0;
  }

  lemma MulRemainderBound(a: nat, b: nat, r2: nat, r: nat)
    requires r2 < b && r < a
    ensures a * r2 + r < a * b
  {
    assert a * r2 <= a * (b - 1);
  }

  /** Dividing twice is dividing by the product (Euclidean division, positive divisors). */
  lemma DivDiv(x: int, a: nat, b: nat)
    requires a > 0 && b > 0
    ensures x / a / b == x / (a * b)
  {
    var q, r := x / a, x % a;
    var q2, r2 := q / b, q % b;
    assert x == a * q + r;
    assert q == b * q2 + r2;
    assert a * q == (a * b) * q2 + a * r2 by {
      assert a * q == a * (b * q2 + r2);
    }
    MulRemainderBound(a, b, r2, r);
    DivUnique(x, a * b, q2, a * r2 + r);
  }

  // ---------------------------------------------------------------- decimal digits

  predicate IsDigit(c: char) {
    '0' <= c <= '9'
  }

  function DigitChar(d: nat): (c: char)
    requires d < 10
    ensures IsDigit(c)
  {
    ('0' as int + d) as char
  }

  function DigitValue(c: char): (d: nat)
    requires IsDigit(c)
    ensures d < 10 && DigitChar(d) == c
  {
    c as int - '0' as int
  }

  ghost predicate AllDigits(s: string) {
    forall i :: 0 <= i < |s| ==> IsDigit(s[i])
  }

  /** The shortest decimal numeral of `n`. */
  function NatText(n: nat): (s: string)
    ensures |s| >= 1 && AllDigits(s)
  {
    if n < 10 then [DigitChar(n)] else NatText(n / 10) + [DigitChar(n % 10)]
  }

  /** An integer as `Number.prototype.toString` writes it (below 10^21 in magnitude). */
  function IntText(n: int): (s: string)
  {
    if n < 0 then ['-'] + NatText(-n) else NatText(n)
  }

  /** The value of a numeral, read from the left as `parseInt` accumulates it. */
  function DigitsValue(s: string): nat
    requires AllDigits(s)
  {
    if s == [] then 0 else 10 * DigitsValue(s[..|s| - 1]) + DigitValue(s[|s| - 1])
  }

  lemma {:induction false} NatTextValue(n: nat)
    ensures DigitsValue(NatText(n)) == n
  {
    if n >= 10 {
      NatTextValue(n / 10);
      var s := NatText(n);
      assert s[..|s| - 1] == NatText(n / 10);
    }
  }

  // ---------------------------------------------------------------- parseInt

  /**
   * The characters `parseInt` skips before the number: ECMAScript's
   * WhiteSpace (including every Zs space separator) and LineTerminator.
   */
  predicate IsJsWhiteSpace(c: char) {
    var u := c as int;
    // TAB, LF, VT, FF, CR, SPACE
    u == 0x09 || u == 0x0A || u == 0x0B || u == 0x0C || u == 0x0D || u == 0x20
    // NO-BREAK SPACE, OGHAM SPACE MARK, EN QUAD .. HAIR SPACE
    || u == 0xA0 || u == 0x1680 || 0x2000 <= u <= 0x200A
    // LINE SEPARATOR, PARAGRAPH SEPARATOR, NARROW NBSP, MEDIUM MATHEMATICAL SPACE
    || u == 0x2028 || u == 0x2029 || u == 0x202F || u == 0x205F
    // IDEOGRAPHIC SPACE, ZERO WIDTH NO-BREAK SPACE
    || u == 0x3000 || u == 0xFEFF
  }

  /** `s` without its leading white space: what is removed is all white space, and what is left does not start with any. */
  function TrimStart(s: string): (t: string)
    ensures |t| <= |s| && t == s[|s| - |t|..]
    ensures forall i :: 0 <= i < |s| - |t| ==> IsJsWhiteSpace(s[i])
    ensures t == [] || !IsJsWhiteSpace(t[0])
  {
    if s != [] && IsJsWhiteSpace(s[0]) then
      var t := TrimStart(s[1..]);
      assert forall i :: 1 <= i < |s| - |t| ==> s[i] == s[1..][i - 1];
      t
    else s
  }

  /** The longest prefix of `s` made of decimal digits. */
  function DigitPrefix(s: string): (z: string)
    ensures |z| <= |s| && z == s[..|z|] && AllDigits(z)
    ensures |z| == |s| || !IsDigit(s[|z|])
  {
    if s != [] && IsDigit(s[0]) then
      assert s == [s[0]] + s[1..];
      [s[0]] + DigitPrefix(s[1..])
    else []
  }

  /** The run of digits at the start of `u` as a number, `None` (NaN) when there is none. */
  function ParseDigits(u: string): (r: Option<int>)
    ensures r.Some? <==> u != [] && IsDigit(u[0])
    ensures r.Some? ==> r.value >= 0
  {
    var z := DigitPrefix(u);
    if z == [] then None else Some(DigitsValue(z))
  }

  /**
   * `parseInt(s, 10)`: skip leading white space, take an optional sign,
   * then the longest run of decimal digits; no digit at all gives NaN
   * (`None`). A negative zero is the integer 0.
   */
  function ParseInt(s: string): Option<int>
  {
    var t := TrimStart(s);
    var signed := t != [] && (t[0] == '-' || t[0] == '+');
    var r := ParseDigits(if signed then t[1..] else t);
    if signed && t[0] == '-' && r.Some? then Some(-r.value) else r
  }

  lemma {:induction false} DigitPrefixOfNumeral(d: string, rest: string)
    requires AllDigits(d)
    requires rest == [] || !IsDigit(rest[0])
    ensures DigitPrefix(d + rest) == d
  {
    if d == [] {
      assert d + rest == rest;
    } else {
      DigitPrefixOfNumeral(d[1..], rest);
      assert (d + rest)[1..] == d[1..] + rest;
      assert d == [d[0]] + d[1..];
    }
  }

  /**
   * `parseInt` reads back every integer's decimal text, whatever non-digit
   * text follows it (`parseInt("1024 bytes", 10)` is 1024).
   */
  lemma ParseIntText(n: int, rest: string)
    requires rest == [] || !IsDigit(rest[0])
    ensures ParseInt(IntText(n) + rest) == Some(n)
  {
    var m: nat := if n < 0 then -n else n;
    NatTextValue(m);
    if n < 0 {
      ParseIntNegative(NatText(m), rest);
    } else {
      ParseIntUnsigned(NatText(m), rest);
    }
  }

  /** A numeral followed by a non-digit reads as the numeral's value. */
  lemma ParseDigitsNumeral(d: string, rest: string)
    requires d != [] && AllDigits(d)
    requires rest == [] || !IsDigit(rest[0])
    ensures ParseDigits(d + rest) == Some(DigitsValue(d))
  {
    DigitPrefixOfNumeral(d, rest);
  }

  lemma ParseIntUnsigned(d: string, rest: string)
    requires d != [] && AllDigits(d)
    requires rest == [] || !IsDigit(rest[0])
    ensures ParseInt(d + rest) == Some(DigitsValue(d))
  {
    var s := d + rest;
    assert s[0] == d[0];
    DigitNotWhiteSpace(s[0]);
    var t := TrimStart(s);
    assert t == s && t[0] != '-' && t[0] != '+';
    ParseDigitsNumeral(d, rest);
    assert ParseDigits(t) == Some(DigitsValue(d));
  }

  /** A minus sign before such a numeral negates its value. */
  lemma ParseIntNegative(d: string, rest: string)
    requires d != [] && AllDigits(d)
    requires rest == [] || !IsDigit(rest[0])
    ensures var r := ParseInt(['-'] + d + rest); r.Some? && r.value == -(DigitsValue(d) as int)
  {
    var s := ['-'] + d + rest;
    assert s[0] == '-' && s[1..] == d + rest;
    DigitNotWhiteSpace('-');
    var t := TrimStart(s);
    assert t == s;
    ParseDigitsNumeral(d, rest);
    assert ParseDigits(t[1..]) == Some(DigitsValue(d));
  }

  lemma DigitNotWhiteSpace(c: char)
    requires IsDigit(c) || c == '-'
    ensures !IsJsWhiteSpace(c)
  {
  }
}

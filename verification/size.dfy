/**
 * The size column: a byte count scaled by powers of 1024 and rendered
 * with its unit, one decimal place for a small scaled value above bytes.
 */
module SizeFormat {
  import opened Wrappers
  import opened Numbers

  const Units: seq<string> := ["b", "kb", "mb", "gb", "tb", "pb", "eb", "zb", "yb"]

  /**
   * The unit table entry; past the table's end the lookup is `undefined`,
   * which string concatenation writes as "undefined".
   */
  function UnitLabel(l: nat): string {
    if l < |Units| then Units[l] else "undefined"
  }

  /** `parseInt(x, 10) || 0`: NaN (and zero) become 0. */
  function SizeValue(raw: string): int {
    ParseInt(raw).GetOr(0)
  }

  /**
   * `l` is the number of times the loop divides `x` by 1024: 0 below 1024,
   * otherwise the largest `l` with 1024^l <= x.
   */
  ghost predicate IsUnitIndex(x: int, l: nat) {
    if x < 1024 then l == 0 else Pow(1024, l) <= x < Pow(1024, l + 1)
  }

  lemma UnitIndexUnique(x: int, l1: nat, l2: nat)
    requires IsUnitIndex(x, l1) && IsUnitIndex(x, l2)
    ensures l1 == l2
  {
    if x >= 1024 && l1 != l2 {
      var lo, hi := if l1 < l2 then l1 else l2, if l1 < l2 then l2 else l1;
      assert Pow(1024, hi) <= x < Pow(1024, lo + 1);
      if lo + 1 < hi {
        PowStrictlyIncreasing(1024, lo + 1, hi);
      }
    }
  }

  /** The unit is past the table exactly when `x` reaches 1024^9. */
  lemma UnitPastTable(x: int, l: nat)
    requires IsUnitIndex(x, l)
    ensures UnitLabel(l) == "undefined" <==> x >= Pow(1024, |Units|)
  {
    if x >= 1024 {
      if l < |Units| {
        if l + 1 < |Units| {
          PowStrictlyIncreasing(1024, l + 1, |Units|);
        }
      } else if l > |Units| {
        PowStrictlyIncreasing(1024, |Units|, l);
      }
    } else {
      PowStrictlyIncreasing(1024, 1, |Units|);
    }
  }

  lemma DivBelow(x: int, s: nat, k: int)
    requires s > 0
    ensures x / s < k <==> x < k * s
  {
    var q, r := x / s, x % s;
    assert x == s * q + r && 0 <= r < s;
    if q < k {
      MulAtLeast(s, k - q);
      assert s * (k - q) == k * s - s * q;
    } else {
      assert s * (q - k) >= 0 by {
        assert q - k >= 0;
      }
      assert s * (q - k) == s * q - k * s;
    }
  }

  /**
   * The nearest integer to `a / p`, the larger one on a tie, as
   * `Number.prototype.toFixed` chooses.
   */
  function RoundHalfUp(a: int, p: nat): (q: int)
    requires p > 0
    ensures 2 * p * q - p <= 2 * a < 2 * p * q + p
    ensures a >= 0 ==> q >= 0
  {
    var t, d := 2 * a + p, 2 * p;
    assert t == d * (t / d) + t % d;
    t / d
  }

  function Zeros(k: nat): (z: string)
    ensures |z| == k && forall i :: 0 <= i < k ==> z[i] == '0'
  {
    if k == 0 then [] else Zeros(k - 1) + ['0']
  }

  /** `(a / p).toFixed(d)` for a non-negative `a`, as ECMAScript spells out its steps. */
  function FixedNat(a: nat, p: nat, d: nat): string
    requires p > 0
  {
    var n := RoundHalfUp(a * Pow(10, d), p);
    var m := NatText(n);
    if d == 0 then m
    else
      var m' := if |m| <= d then Zeros(d + 1 - |m|) + m else m;
      m'[..|m'| - d] + "." + m'[|m'| - d..]
  }

  /** `(x / p).toFixed(d)`: a negative value is rendered as "-" and its magnitude. */
  function FixedText(x: int, p: nat, d: nat): string
    requires p > 0
  {
    if x < 0 then "-" + FixedNat(-x, p, d) else FixedNat(x, p, d)
  }

  /** What `size` returns for the value `x` at unit index `l`. */
  function SizeText(x: int, l: nat): string {
    var decimals := if l > 0 && x < 10 * Pow(1024, l) then 1 else 0;
    FixedText(x, Pow(1024, l), decimals) + " " + UnitLabel(l)
  }

  /**
   * `size(x)`. The source's `n` is a float; dividing it by 1024 is exact,
   * so its integer part is `x / 1024^l` and the loop guard `n >= 1024`
   * reads the same on that integer part; `scale` keeps the divisor, from
   * which the rendering recovers the fraction.
   */
  method Size(raw: string) returns (text: string)
    ensures exists l: nat :: IsUnitIndex(SizeValue(raw), l) && text == SizeText(SizeValue(raw), l)
  {
    var x := SizeValue(raw);
    var l: nat, n := 0, x;
    var scale: nat := 1;
    while n >= 1024
      invariant scale == Pow(1024, l)
      invariant n == x / scale
      invariant l > 0 ==> scale <= x
      decreases n
    {
      DivBelow(x, scale, 1024);
      DivDiv(x, scale, 1024);
      l := l + 1;
      n := n / 1024;
      scale := scale * 1024;
    }
    DivBelow(x, scale, 1024);
    DivBelow(x, scale, 10);
    if l > 1 {
      PowStrictlyIncreasing(1024, 1, l);
    }
    assert IsUnitIndex(x, l);
    var decimals := if n < 10 && l > 0 then 1 else 0;
    text := FixedText(x, scale, decimals) + " " + UnitLabel(l);
  }

  /** `toFixed(d)` writes a decimal point exactly when `d` is positive. */
  lemma FixedNatPoint(a: nat, p: nat, d: nat)
    requires p > 0
    ensures '.' in FixedNat(a, p, d) <==> d > 0
  {
    var m := NatText(RoundHalfUp(a * Pow(10, d), p));
    if d == 0 {
      forall i | 0 <= i < |m|
        ensures m[i] != '.'
      {
        assert IsDigit(m[i]);
      }
    } else {
      var m' := if |m| <= d then Zeros(d + 1 - |m|) + m else m;
      assert FixedNat(a, p, d)[|m'| - d] == '.';
    }
  }

  /** A negative value's sign adds no decimal point. */
  lemma FixedTextPoint(x: int, p: nat, d: nat)
    requires p > 0
    ensures '.' in FixedText(x, p, d) <==> d > 0
  {
    var a: nat := if x < 0 then -x else x;
    FixedNatPoint(a, p, d);
    if x < 0 {
      assert FixedText(x, p, d) == "-" + FixedNat(a, p, d);
    }
  }

  lemma UnitLabelHasNoPoint(l: nat)
    ensures '.' !in UnitLabel(l)
  {
  }

  /**
   * The text shows a decimal point exactly when the unit is above bytes
   * and the scaled value is below 10.
   */
  lemma OneDecimalExactly(x: int, l: nat)
    ensures '.' in SizeText(x, l) <==> l > 0 && x < 10 * Pow(1024, l)
  {
    var p := Pow(1024, l);
    var d := if l > 0 && x < 10 * p then 1 else 0;
    FixedTextPoint(x, p, d);
    UnitLabelHasNoPoint(l);
    assert SizeText(x, l) == FixedText(x, p, d) + " " + UnitLabel(l);
  }

  /** Below 1024 the count is shown in bytes, without decimals. */
  lemma SizeTextBytes()
    ensures IsUnitIndex(0, 0) && SizeText(0, 0) == "0 b"
    ensures IsUnitIndex(1023, 0) && SizeText(1023, 0) == "1023 b"
  {
    assert Pow(1024, 0) == 1 && Pow(10, 0) == 1;
    assert RoundHalfUp(1023, 1) == 1023;
    assert NatText(1023) == "1023";
    assert FixedText(1023, 1, 0) == "1023";
  }

  /** From 1024 on, one decimal place while the scaled value is below 10. */
  lemma SizeTextKilobytes()
    ensures IsUnitIndex(1024, 1) && SizeText(1024, 1) == "1.0 kb"
    ensures IsUnitIndex(1536, 1) && SizeText(1536, 1) == "1.5 kb"
  {
    assert Pow(1024, 1) == 1024 && Pow(10, 1) == 10;
    assert UnitLabel(1) == "kb";
    assert RoundHalfUp(1024 * 10, 1024) == 10;
    assert NatText(10) == "10";
    assert FixedText(1024, 1024, 1) == "1.0";
    assert RoundHalfUp(1536 * 10, 1024) == 15;
    assert NatText(15) == "15";
    assert FixedText(1536, 1024, 1) == "1.5";
  }

  /** At ten units the decimal place is dropped. */
  lemma SizeTextTenKilobytes()
    ensures IsUnitIndex(10240, 1) && SizeText(10240, 1) == "10 kb"
  {
    assert Pow(1024, 1) == 1024 && Pow(10, 0) == 1;
    assert UnitLabel(1) == "kb";
    assert RoundHalfUp(10240, 1024) == 10;
    assert NatText(10) == "10";
    assert FixedText(10240, 1024, 0) == "10";
  }

  /** The manifest's size text is read back as the integer it spells. */
  lemma SizeValueOfText(n: int)
    ensures SizeValue(IntText(n)) == n
  {
    ParseIntText(n, "");
    assert IntText(n) + "" == IntText(n);
  }

  /** Text without digits after the optional sign counts as 0. */
  lemma NonNumericSizeIsZero(raw: string)
    requires var t := TrimStart(raw);
      t == [] || (!IsDigit(t[0]) && (t[0] in "+-" ==> t[1..] == [] || !IsDigit(t[1])))
    ensures SizeValue(raw) == 0
  {
  }

  lemma SizeValueOfEmpty()
    ensures SizeValue("") == 0
  {
  }

  lemma SizeValueOfPlaceholder()
    ensures SizeValue("n/a") == 0
  {
    assert !IsJsWhiteSpace('n') && !IsDigit('n');
    assert TrimStart("n/a") == "n/a";
    NonNumericSizeIsZero("n/a");
  }

  /** A lone sign is not a number either. */
  lemma SizeValueOfSign()
    ensures SizeValue("-") == 0
  {
    assert !IsJsWhiteSpace('-');
    assert TrimStart("-") == "-" && "-"[1..] == [];
    NonNumericSizeIsZero("-");
  }

  /** What the loop method returns on one of those cases. */
  method SizeExample()
  {
    var raw := IntText(1536);
    SizeValueOfText(1536);
    var t := Size(raw);
    ghost var l: nat :| IsUnitIndex(1536, l) && t == SizeText(1536, l);
    SizeTextKilobytes();
    UnitIndexUnique(1536, l, 1);
    assert t == "1.5 kb";
  }
}

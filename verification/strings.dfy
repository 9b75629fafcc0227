/**
 * The JavaScript string operations the record derivation and the release
 * sort rely on: `split` on one character, `indexOf`, `replace` of the first
 * occurrence by the empty string, and the relational operators `<` and `>`
 * on strings.
 */
module Strings {
  import opened Wrappers
  import opened Seqs

  // ---------------------------------------------------------------- split

  /** `parts.join(sep)`. */
  function Join(parts: seq<string>, sep: char): string
  {
    if parts == [] then []
    else if |parts| == 1 then parts[0]
    else parts[0] + [sep] + Join(parts[1..], sep)
  }

  /**
   * `s.split(sep)` for a one-character separator: the maximal pieces of `s`
   * between separators, so that joining them again gives back `s`.
   */
  function Split(s: string, sep: char): (parts: seq<string>)
    ensures |parts| >= 1
    ensures forall i :: 0 <= i < |parts| ==> sep !in parts[i]
    ensures Join(parts, sep) == s
  {
    if s == [] then [[]]
    else
      var rest := Split(s[1..], sep);
      assert s == [s[0]] + s[1..];
      if s[0] == sep then [[]] + rest
      else
        assert |rest| > 1 ==> Join(rest, sep) == rest[0] + [sep] + Join(rest[1..], sep);
        [[s[0]] + rest[0]] + rest[1..]
  }

  /** The first part of a join is the prefix up to the first separator, or all of it. */
  lemma JoinFirst(parts: seq<string>, sep: char)
    requires |parts| >= 1 && sep !in parts[0]
    ensures |parts[0]| <= |Join(parts, sep)|
    ensures Join(parts, sep)[..|parts[0]|] == parts[0]
    ensures |parts| == 1 <==> |parts[0]| == |Join(parts, sep)|
    ensures |parts| > 1 ==> Join(parts, sep)[|parts[0]|] == sep
    ensures |parts| > 1 ==> Join(parts, sep)[|parts[0]| + 1..] == Join(parts[1..], sep)
  {
  }

  /** Splitting `a + sep + w`, for `a` without `sep`, yields `a` and then the parts of `w`. */
  lemma {:induction false} SplitAfterSeparator(a: string, sep: char, w: string)
    requires sep !in a
    ensures Split(a + [sep] + w, sep) == [a] + Split(w, sep)
  {
    var s := a + [sep] + w;
    if a == [] {
      assert s[0] == sep && s[1..] == w;
      assert Split(s, sep) == [[]] + Split(w, sep);
    } else {
      assert s[0] == a[0] && s[1..] == a[1..] + [sep] + w;
      SplitAfterSeparator(a[1..], sep, w);
      var r := Split(s[1..], sep);
      assert r[0] == a[1..] && r[1..] == Split(w, sep);
      assert Split(s, sep) == [[s[0]] + r[0]] + r[1..];
      assert [a[0]] + a[1..] == a;
    }
  }

  /** The last part of a join is the suffix after the last separator, or all of it. */
  lemma {:induction false} JoinLast(parts: seq<string>, sep: char)
    requires |parts| >= 1
    requires forall i :: 0 <= i < |parts| ==> sep !in parts[i]
    ensures var s, f := Join(parts, sep), Last(parts);
      |f| <= |s| && s[|s| - |f|..] == f
      && (|parts| == 1 <==> |f| == |s|)
      && (|parts| > 1 ==> s[|s| - |f| - 1] == sep)
  {
    if |parts| > 1 {
      JoinLast(parts[1..], sep);
      var s, t := Join(parts, sep), Join(parts[1..], sep);
      assert s == (parts[0] + [sep]) + t;
      assert s[|parts[0]| + 1..] == t;
    }
  }

  /** Joining sequences of separator-free parts is injective. */
  lemma {:induction false} JoinInjective(ps: seq<string>, qs: seq<string>, sep: char)
    requires |ps| >= 1 && |qs| >= 1
    requires forall i :: 0 <= i < |ps| ==> sep !in ps[i]
    requires forall i :: 0 <= i < |qs| ==> sep !in qs[i]
    requires Join(ps, sep) == Join(qs, sep)
    ensures ps == qs
  {
    var s := Join(ps, sep);
    JoinFirst(ps, sep);
    JoinFirst(qs, sep);
    assert ps[0] == qs[0];
    if |ps| > 1 && |qs| > 1 {
      JoinInjective(ps[1..], qs[1..], sep);
      assert ps == [ps[0]] + ps[1..];
      assert qs == [qs[0]] + qs[1..];
    }
  }

  /** `split` undoes `join` when no part holds the separator. */
  lemma SplitJoin(parts: seq<string>, sep: char)
    requires |parts| >= 1
    requires forall i :: 0 <= i < |parts| ==> sep !in parts[i]
    ensures Split(Join(parts, sep), sep) == parts
  {
    JoinInjective(Split(Join(parts, sep), sep), parts, sep);
  }

  /** A string splits into exactly one part when it holds no separator. */
  lemma SplitSingle(s: string, sep: char)
    ensures |Split(s, sep)| == 1 <==> sep !in s
  {
    var parts := Split(s, sep);
    JoinFirst(parts, sep);
    if |parts| > 1 {
      assert s[|parts[0]|] == sep;
    }
  }

  // ---------------------------------------------------------------- indexOf and replace

  ghost predicate OccursAt(s: string, pat: string, j: int) {
    0 <= j && j + |pat| <= |s| && s[j..j + |pat|] == pat
  }

  /** `s.indexOf(pat)`: the least position at which `pat` occurs, or none. */
  function IndexOf(s: string, pat: string): (r: Option<nat>)
    ensures r.Some? ==> OccursAt(s, pat, r.value)
    ensures r.Some? ==> forall j :: 0 <= j < r.value ==> !OccursAt(s, pat, j)
    ensures r.None? ==> forall j :: !OccursAt(s, pat, j)
  {
    if |s| < |pat| then None
    else if s[..|pat|] == pat then Some(0)
    else
      var r := IndexOf(s[1..], pat);
      assert !OccursAt(s, pat, 0) by {
        assert s[0..|pat|] == s[..|pat|];
      }
      assert forall j :: 0 < j ==> (OccursAt(s, pat, j) <==> OccursAt(s[1..], pat, j - 1)) by {
        forall j | 0 < j ensures OccursAt(s, pat, j) <==> OccursAt(s[1..], pat, j - 1) {
          if j + |pat| <= |s| {
            assert s[1..][j - 1..j - 1 + |pat|] == s[j..j + |pat|];
          }
        }
      }
      match r
      case None => None
      case Some(i) => Some(i + 1)
  }

  /**
   * `s.replace(pat, '')`: a string pattern replaces only its first
   * occurrence, wherever it is; with no occurrence the string is unchanged.
   */
  function RemoveFirst(s: string, pat: string): (r: string)
    ensures (forall j :: !OccursAt(s, pat, j)) ==> r == s
    ensures forall i ::
      (OccursAt(s, pat, i) && (forall j :: 0 <= j < i ==> !OccursAt(s, pat, j)))
      ==> r == s[..i] + s[i + |pat|..]
  {
    match IndexOf(s, pat)
    case None => s
    case Some(i) => s[..i] + s[i + |pat|..]
  }

  // ---------------------------------------------------------------- comparison

  /**
   * `a < b` on strings: code unit by code unit; a proper prefix is smaller.
   */
  predicate LexLess(a: string, b: string) {
    if b == [] then false
    else if a == [] then true
    else if a[0] != b[0] then a[0] < b[0]
    else LexLess(a[1..], b[1..])
  }

  ghost predicate IsProperPrefix(a: string, b: string) {
    |a| < |b| && a == b[..|a|]
  }

  ghost predicate FirstDifferenceLess(a: string, b: string, k: int) {
    0 <= k < |a| && k < |b| && a[..k] == b[..k] && a[k] < b[k]
  }

  /** The usual definition of lexicographic order agrees with `LexLess`. */
  lemma {:induction false} LexLessIff(a: string, b: string)
    ensures LexLess(a, b) <==> IsProperPrefix(a, b) || exists k :: FirstDifferenceLess(a, b, k)
  {
    if b == [] {
    } else if a == [] {
      assert IsProperPrefix(a, b);
    } else if a[0] != b[0] {
      if a[0] < b[0] {
        assert FirstDifferenceLess(a, b, 0);
      } else {
        forall k | FirstDifferenceLess(a, b, k) ensures false {
        }
      }
    } else {
      LexLessIff(a[1..], b[1..]);
      if IsProperPrefix(a[1..], b[1..]) {
        assert a == [a[0]] + a[1..];
        assert b[..|a|] == [b[0]] + b[1..][..|a| - 1];
      }
      forall k | FirstDifferenceLess(a[1..], b[1..], k) ensures FirstDifferenceLess(a, b, k + 1) {
        assert a[..k + 1] == [a[0]] + a[1..][..k];
        assert b[..k + 1] == [b[0]] + b[1..][..k];
      }
      if IsProperPrefix(a, b) {
        assert IsProperPrefix(a[1..], b[1..]);
      }
      forall k | FirstDifferenceLess(a, b, k) ensures FirstDifferenceLess(a[1..], b[1..], k - 1) {
        assert k > 0;
        assert a[1..][..k - 1] == a[..k][1..];
        assert b[1..][..k - 1] == b[..k][1..];
      }
    }
  }

  lemma {:induction false} LexLessIrreflexive(a: string)
    ensures !LexLess(a, a)
  {
    if a != [] {
      LexLessIrreflexive(a[1..]);
    }
  }

  lemma {:induction false} LexLessTransitive(a: string, b: string, c: string)
    requires LexLess(a, b) && LexLess(b, c)
    ensures LexLess(a, c)
  {
    if a != [] && a[0] == b[0] && b[0] == c[0] {
      LexLessTransitive(a[1..], b[1..], c[1..]);
    }
  }

  lemma {:induction false} LexLessTotal(a: string, b: string)
    ensures a == b || LexLess(a, b) || LexLess(b, a)
  {
    if a != [] && b != [] && a[0] == b[0] {
      LexLessTotal(a[1..], b[1..]);
      assert a == [a[0]] + a[1..];
      assert b == [b[0]] + b[1..];
    }
  }

  lemma LexLessAsymmetric(a: string, b: string)
    requires LexLess(a, b)
    ensures !LexLess(b, a)
  {
    if LexLess(b, a) {
      LexLessTransitive(a, b, a);
      LexLessIrreflexive(a);
    }
  }

  /** "Not greater" is transitive: the order is total. */
  lemma NotLessTransitive(a: string, b: string, c: string)
    requires !LexLess(b, a) && !LexLess(c, b)
    ensures !LexLess(c, a)
  {
    LexLessTotal(a, b);
    if LexLess(c, a) && LexLess(a, b) {
      LexLessTransitive(c, a, b);
    }
  }

  /** The comparator `(a, b) => a > b ? 1 : a < b ? -1 : 0` the release list is sorted with. */
  function Compare(a: string, b: string): int
  {
    if LexLess(b, a) then 1 else if LexLess(a, b) then -1 else 0
  }

  /**
   * The comparator is consistent: zero exactly on equal strings, and
   * swapping the arguments negates it.
   */
  lemma CompareConsistent(a: string, b: string)
    ensures Compare(a, b) == 0 <==> a == b
    ensures Compare(a, b) == -Compare(b, a)
  {
    LexLessTotal(a, b);
    LexLessIrreflexive(a);
    if LexLess(a, b) {
      LexLessAsymmetric(a, b);
    }
  }

  /** Lexicographic, not semantic: "1.9.0" sorts above "1.10.0". */
  lemma LexNotSemantic()
    ensures LexLess("1.10.0", "1.9.0")
    ensures Compare("1.9.0", "1.10.0") == 1
  {
  }
}

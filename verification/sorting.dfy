/**
 * `Array.prototype.sort` with a consistent comparator on a string key.
 * ECMAScript requires the sort to be stable, and a stable sort under a
 * consistent comparator has exactly one possible result, so insertion sort
 * computes what any conforming engine computes (see `SortedUnique`).
 */
module Sorting {
  import opened Seqs
  import opened Strings

  /** No element is followed by one with a smaller key. */
  ghost predicate Ascending<T>(s: seq<T>, key: T -> string) {
    forall i, j :: 0 <= i < j < |s| ==> !LexLess(key(s[j]), key(s[i]))
  }

  /** No element is followed by one with a greater key. */
  ghost predicate Descending<T>(s: seq<T>, key: T -> string) {
    forall i, j :: 0 <= i < j < |s| ==> !LexLess(key(s[i]), key(s[j]))
  }

  /**
   * Inserts `x` into `r` before the first element it does not compare
   * greater than, so `x` lands in front of every element with its key.
   */
  function Insert<T>(x: T, r: seq<T>, key: T -> string): (r': seq<T>)
    ensures multiset(r') == multiset{x} + multiset(r)
  {
    if r == [] || Compare(key(x), key(r[0])) <= 0 then [x] + r
    else
      assert r == [r[0]] + r[1..];
      [r[0]] + Insert(x, r[1..], key)
  }

  /** Sorts `s` by `key` with the comparator of `Compare`, keeping equal keys in input order. */
  function SortBy<T>(s: seq<T>, key: T -> string): (r: seq<T>)
    ensures multiset(r) == multiset(s)
  {
    if s == [] then []
    else
      assert s == [s[0]] + s[1..];
      Insert(s[0], SortBy(s[1..], key), key)
  }

  lemma {:induction false} InsertAscending<T>(x: T, r: seq<T>, key: T -> string)
    requires Ascending(r, key)
    ensures Ascending(Insert(x, r, key), key)
  {
    if r == [] {
    } else if Compare(key(x), key(r[0])) <= 0 {
      assert !LexLess(key(r[0]), key(x));
      forall j | 0 <= j < |r| ensures !LexLess(key(r[j]), key(x)) {
        if j > 0 {
          NotLessTransitive(key(x), key(r[0]), key(r[j]));
        }
      }
    } else {
      assert LexLess(key(r[0]), key(x));
      LexLessAsymmetric(key(r[0]), key(x));
      InsertAscending(x, r[1..], key);
      var t := Insert(x, r[1..], key);
      forall j | 0 <= j < |t| ensures !LexLess(key(t[j]), key(r[0])) {
        assert t[j] in multiset(t);
        assert t[j] == x || t[j] in r[1..];
      }
    }
  }

  /** The result is sorted. */
  lemma {:induction false} SortAscending<T>(s: seq<T>, key: T -> string)
    ensures Ascending(SortBy(s, key), key)
  {
    if s != [] {
      SortAscending(s[1..], key);
      InsertAscending(s[0], SortBy(s[1..], key), key);
    }
  }

  lemma {:induction false} InsertKeepsKeyOrder<T>(x: T, r: seq<T>, key: T -> string, v: string)
    ensures FilterKey(Insert(x, r, key), key, v)
      == (if key(x) == v then [x] else []) + FilterKey(r, key, v)
  {
    if r != [] && Compare(key(x), key(r[0])) > 0 {
      LexLessIrreflexive(key(x));
      assert key(x) != key(r[0]);
      InsertKeepsKeyOrder(x, r[1..], key, v);
      assert ([r[0]] + Insert(x, r[1..], key))[1..] == Insert(x, r[1..], key);
    } else {
      assert ([x] + r)[1..] == r;
    }
  }

  /** The sort is stable: the elements with any one key keep their input order. */
  lemma {:induction false} SortStable<T>(s: seq<T>, key: T -> string, v: string)
    ensures FilterKey(SortBy(s, key), key, v) == FilterKey(s, key, v)
  {
    if s != [] {
      SortStable(s[1..], key, v);
      InsertKeepsKeyOrder(s[0], SortBy(s[1..], key), key, v);
    }
  }

  /** Reversing an ascending sequence gives a descending one. */
  lemma ReverseAscending<T>(s: seq<T>, key: T -> string)
    requires Ascending(s, key)
    ensures Descending(Reverse(s), key)
  {
    var r := Reverse(s);
    forall i, j | 0 <= i < j < |r| ensures !LexLess(key(r[i]), key(r[j])) {
      assert r[i] == s[|s| - 1 - i] && r[j] == s[|s| - 1 - j];
    }
  }

  /**
   * A stable sorted order is unique: any ascending sequence that keeps,
   * for every key, the input's elements with that key in input order, is
   * the result of `SortBy`.
   */
  lemma {:induction false} SortedUnique<T>(s: seq<T>, r: seq<T>, key: T -> string)
    requires Ascending(r, key)
    requires forall v :: FilterKey(r, key, v) == FilterKey(s, key, v)
    ensures r == SortBy(s, key)
  {
    SortAscending(s, key);
    forall v ensures FilterKey(SortBy(s, key), key, v) == FilterKey(r, key, v) {
      SortStable(s, key, v);
    }
    SameKeyOrderEqual(r, SortBy(s, key), key);
  }

  lemma HeadKeyPresent<T>(s: seq<T>, key: T -> string)
    ensures s != [] ==> FilterKey(s, key, key(s[0])) != []
  {
  }

  /** Two ascending sequences with the same elements per key, in the same order, are equal. */
  lemma {:induction false} SameKeyOrderEqual<T>(a: seq<T>, b: seq<T>, key: T -> string)
    requires Ascending(a, key) && Ascending(b, key)
    requires forall v :: FilterKey(a, key, v) == FilterKey(b, key, v)
    ensures a == b
  {
    if a == [] || b == [] {
      HeadKeyPresent(a, key);
      HeadKeyPresent(b, key);
    } else {
      HeadsEqual(a, b, key);
      TailsAgree(a, b, key);
      assert Ascending(a[1..], key) && Ascending(b[1..], key);
      SameKeyOrderEqual(a[1..], b[1..], key);
      assert a == [a[0]] + a[1..];
      assert b == [b[0]] + b[1..];
    }
  }

  /** Both heads carry the least key, and are the first element with it. */
  lemma HeadsEqual<T>(a: seq<T>, b: seq<T>, key: T -> string)
    requires a != [] && b != []
    requires Ascending(a, key) && Ascending(b, key)
    requires forall v :: FilterKey(a, key, v) == FilterKey(b, key, v)
    ensures a[0] == b[0]
  {
    var ka, kb := key(a[0]), key(b[0]);
    FilterKeyMembers(a, key, ka);
    FilterKeyMembers(a, key, kb);
    FilterKeyMembers(b, key, ka);
    FilterKeyMembers(b, key, kb);
    assert b[0] in FilterKey(b, key, kb);
    assert b[0] in FilterKey(a, key, kb);
    assert a[0] in FilterKey(a, key, ka);
    assert a[0] in FilterKey(b, key, ka);
    var ia :| 0 <= ia < |a| && a[ia] == b[0];
    var ib :| 0 <= ib < |b| && b[ib] == a[0];
    LexLessIrreflexive(ka);
    assert !LexLess(kb, ka) by {
      if ia > 0 {
        assert !LexLess(key(a[ia]), key(a[0]));
      }
    }
    assert !LexLess(ka, kb) by {
      if ib > 0 {
        assert !LexLess(key(b[ib]), key(b[0]));
      }
    }
    LexLessTotal(ka, kb);
    assert FilterKey(a, key, ka)[0] == a[0];
    assert FilterKey(b, key, kb)[0] == b[0];
  }

  lemma TailsAgree<T>(a: seq<T>, b: seq<T>, key: T -> string)
    requires a != [] && b != [] && a[0] == b[0]
    requires forall v :: FilterKey(a, key, v) == FilterKey(b, key, v)
    ensures forall v :: FilterKey(a[1..], key, v) == FilterKey(b[1..], key, v)
  {
    forall v ensures FilterKey(a[1..], key, v) == FilterKey(b[1..], key, v) {
      var head := if key(a[0]) == v then [a[0]] else [];
      var ta, tb := FilterKey(a[1..], key, v), FilterKey(b[1..], key, v);
      assert FilterKey(a, key, v) == head + ta;
      assert FilterKey(b, key, v) == head + tb;
      assert (head + ta)[|head|..] == ta;
      assert (head + tb)[|head|..] == tb;
    }
  }
}

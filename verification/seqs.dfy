/**
 * Generic sequence operations behind the Array methods the catalog uses:
 * `map`, `filter`, `reverse`, and the insertion order of a `Set`.
 */
module Seqs {

  function Last<T>(s: seq<T>): T
    requires |s| > 0
  {
    s[|s| - 1]
  }

  ghost predicate NoDuplicates<T>(s: seq<T>) {
    forall i, j :: 0 <= i < j < |s| ==> s[i] != s[j]
  }

  /** `Array.prototype.reverse`, on a fresh array. */
  function Reverse<T>(s: seq<T>): (r: seq<T>)
    ensures |r| == |s|
    ensures forall i :: 0 <= i < |s| ==> r[i] == s[|s| - 1 - i]
  {
    if s == [] then [] else Reverse(s[1..]) + [s[0]]
  }

  lemma {:induction false} ReverseMultiset<T>(s: seq<T>)
    ensures multiset(Reverse(s)) == multiset(s)
  {
    if s != [] {
      ReverseMultiset(s[1..]);
      assert s == [s[0]] + s[1..];
    }
  }

  /** `Array.prototype.map`. */
  function MapSeq<T, U>(s: seq<T>, f: T -> U): (r: seq<U>)
    ensures |r| == |s|
    ensures forall i :: 0 <= i < |s| ==> r[i] == f(s[i])
  {
    if s == [] then [] else [f(s[0])] + MapSeq(s[1..], f)
  }

  /** `Array.prototype.filter` with the test `x => key(x) === k`. */
  function FilterKey<T, K(==)>(s: seq<T>, key: T -> K, k: K): (r: seq<T>)
    ensures |r| <= |s|
  {
    if s == [] then []
    else (if key(s[0]) == k then [s[0]] else []) + FilterKey(s[1..], key, k)
  }

  /** The filtered sequence holds exactly the elements of `s` whose key is `k`. */
  lemma {:induction false} FilterKeyMembers<T, K>(s: seq<T>, key: T -> K, k: K)
    ensures var r := FilterKey(s, key, k);
      && (forall i :: 0 <= i < |r| ==> r[i] in s && key(r[i]) == k)
      && (forall i :: 0 <= i < |s| && key(s[i]) == k ==> s[i] in r)
  {
    if s != [] {
      FilterKeyMembers(s[1..], key, k);
      var r, t := FilterKey(s, key, k), FilterKey(s[1..], key, k);
      var head := if key(s[0]) == k then [s[0]] else [];
      assert r == head + t;
      forall i | 0 <= i < |r|
        ensures r[i] in s && key(r[i]) == k
      {
        if i < |head| {
          assert r[i] == s[0];
        } else {
          assert r[i] == t[i - |head|];
          assert t[i - |head|] in s[1..] && key(t[i - |head|]) == k;
          assert s == [s[0]] + s[1..];
        }
      }
      forall i | 0 <= i < |s| && key(s[i]) == k
        ensures s[i] in r
      {
        if i == 0 {
          assert r[0] == s[0];
        } else {
          assert s[i] == s[1..][i - 1];
          assert s[i] in t;
        }
      }
    }
  }

  lemma {:induction false} FilterKeyConcat<T, K>(a: seq<T>, b: seq<T>, key: T -> K, k: K)
    ensures FilterKey(a + b, key, k) == FilterKey(a, key, k) + FilterKey(b, key, k)
  {
    if a == [] {
      assert a + b == b;
    } else {
      var head := if key(a[0]) == k then [a[0]] else [];
      assert (a + b)[0] == a[0];
      assert (a + b)[1..] == a[1..] + b;
      assert FilterKey(a + b, key, k) == head + FilterKey(a[1..] + b, key, k);
      assert FilterKey(a, key, k) == head + FilterKey(a[1..], key, k);
      FilterKeyConcat(a[1..], b, key, k);
    }
  }

  /**
   * An element with key `k` at position `q` of `s` sits, in the filtered
   * sequence, right after the filtered prefix `s[..q]`.
   */
  lemma FilterKeyPosition<T, K>(s: seq<T>, key: T -> K, k: K, q: nat)
    requires q < |s| && key(s[q]) == k
    ensures var f, before := FilterKey(s, key, k), FilterKey(s[..q], key, k);
      |before| < |f| && f[|before|] == s[q] && f[..|before|] == before
  {
    FilterKeyConcat(s[..q], s[q..], key, k);
    assert s == s[..q] + s[q..];
    assert s[q..] == [s[q]] + s[q + 1..];
  }

  /** Filtering a reversed array gives the reversed filtered array. */
  lemma {:induction false} FilterKeyReverse<T, K>(s: seq<T>, key: T -> K, k: K)
    ensures FilterKey(Reverse(s), key, k) == Reverse(FilterKey(s, key, k))
  {
    if s != [] {
      FilterKeyReverse(s[1..], key, k);
      FilterKeyConcat(Reverse(s[1..]), [s[0]], key, k);
      assert FilterKey([s[0]], key, k) == if key(s[0]) == k then [s[0]] else [];
      var t := FilterKey(s[1..], key, k);
      if key(s[0]) == k {
        assert FilterKey(s, key, k) == [s[0]] + t;
        assert Reverse([s[0]] + t) == Reverse(t) + [s[0]] by {
          assert ([s[0]] + t)[1..] == t;
        }
      } else {
        assert FilterKey(s, key, k) == t;
      }
    }
  }

  /** The least index at which `x` occurs in `s`. */
  function FirstIndex<T(==)>(s: seq<T>, x: T): (i: nat)
    requires x in s
    ensures i < |s| && s[i] == x && x !in s[..i]
  {
    if s[0] == x then 0
    else
      assert s == [s[0]] + s[1..];
      1 + FirstIndex(s[1..], x)
  }

  /**
   * `[...new Set(s)]`: a `Set` keeps its elements in insertion order, and
   * inserting an element already present changes nothing.
   */
  function Distinct<T(==)>(s: seq<T>): (d: seq<T>)
    ensures forall i :: 0 <= i < |d| ==> d[i] in s
    ensures forall i :: 0 <= i < |s| ==> s[i] in d
    ensures NoDuplicates(d)
  {
    if s == [] then []
    else
      var d := Distinct(s[..|s| - 1]);
      assert s == s[..|s| - 1] + [Last(s)];
      if Last(s) in d then d else d + [Last(s)]
  }

  /**
   * `Distinct` lists elements in order of first appearance: every
   * occurrence of a later element is preceded by an occurrence of each
   * earlier one.
   */
  lemma {:induction false} DistinctFirstAppearance<T>(s: seq<T>)
    ensures forall i, j :: 0 <= i < j < |Distinct(s)| ==>
      FirstIndex(s, Distinct(s)[i]) < FirstIndex(s, Distinct(s)[j])
  {
    if s != [] {
      var s' := s[..|s| - 1];
      var d' := Distinct(s');
      DistinctFirstAppearance(s');
      assert s == s' + [Last(s)];
      forall x | x in s'
        ensures FirstIndex(s, x) == FirstIndex(s', x)
      {
        FirstIndexPrefix(s, |s| - 1, x);
      }
      if Last(s) !in d' {
        assert FirstIndex(s, Last(s)) == |s| - 1;
      }
    }
  }

  /** The first index is the one position holding `x` with no `x` before it. */
  lemma FirstIndexUnique<T>(s: seq<T>, x: T, i: nat)
    requires i < |s| && s[i] == x && x !in s[..i]
    ensures FirstIndex(s, x) == i
  {
  }

  lemma FirstIndexPrefix<T>(s: seq<T>, n: nat, x: T)
    requires n <= |s| && x in s[..n]
    ensures FirstIndex(s, x) == FirstIndex(s[..n], x)
  {
    var j := FirstIndex(s[..n], x);
    assert s[..n][..j] == s[..j];
    FirstIndexUnique(s, x, j);
  }

  /** Every occurrence of a later element of `Distinct(s)` comes after an occurrence of each earlier one. */
  lemma DistinctPrecedence<T>(s: seq<T>, i: nat, j: nat, q: nat)
    requires i < j < |Distinct(s)| && q < |s| && s[q] == Distinct(s)[j]
    ensures exists p :: 0 <= p < q && s[p] == Distinct(s)[i]
  {
    DistinctFirstAppearance(s);
    var d := Distinct(s);
    var p := FirstIndex(s, d[i]);
    assert FirstIndex(s, d[j]) <= q;
  }

  /** The multiset union, over the keys `ks`, of the elements of `s` having each key. */
  ghost function UnionOver<T, K>(ks: seq<K>, s: seq<T>, key: T -> K): multiset<T>
  {
    if ks == [] then multiset{} else multiset(FilterKey(s, key, ks[0])) + UnionOver(ks[1..], s, key)
  }

  lemma {:induction false} UnionOverEmpty<T, K>(ks: seq<K>, key: T -> K)
    ensures UnionOver(ks, [], key) == multiset{}
  {
    if ks != [] {
      UnionOverEmpty(ks[1..], key);
    }
  }

  lemma {:induction false} UnionOverCons<T, K>(ks: seq<K>, x: T, s: seq<T>, key: T -> K)
    requires NoDuplicates(ks)
    ensures UnionOver(ks, [x] + s, key)
      == UnionOver(ks, s, key) + (if key(x) in ks then multiset{x} else multiset{})
  {
    if ks != [] {
      assert NoDuplicates(ks[1..]);
      UnionOverCons(ks[1..], x, s, key);
      assert ([x] + s)[1..] == s;
      assert key(x) == ks[0] ==> key(x) !in ks[1..];
      assert key(x) in ks <==> key(x) == ks[0] || key(x) in ks[1..];
    }
  }

  /**
   * Splitting `s` by a list of distinct keys that covers every element's key
   * loses nothing and duplicates nothing.
   */
  lemma {:induction false} PartitionByKey<T, K>(ks: seq<K>, s: seq<T>, key: T -> K)
    requires NoDuplicates(ks)
    requires forall x :: x in s ==> key(x) in ks
    ensures UnionOver(ks, s, key) == multiset(s)
  {
    if s == [] {
      UnionOverEmpty(ks, key);
    } else {
      assert s == [s[0]] + s[1..];
      PartitionByKey(ks, s[1..], key);
      UnionOverCons(ks, s[0], s[1..], key);
    }
  }
}

/** Sequence operations shared by the backend and the client: JavaScript's
    `Array.prototype.filter` and a stable sort by a numeric key, descending. */
module Seqs {

  /** `s.filter(p)`: the elements of `s` that satisfy `p`, in their original order. */
  function Filter<T>(s: seq<T>, p: T -> bool): (r: seq<T>)
    ensures |r| <= |s|
    ensures forall i :: 0 <= i < |r| ==> r[i] in s && p(r[i])
    ensures forall i :: 0 <= i < |s| && p(s[i]) ==> s[i] in r
  {
    if s == [] then [] else (if p(s[0]) then [s[0]] else []) + Filter(s[1..], p)
  }

  /** Filtering a concatenation filters each part and keeps their order. */
  lemma {:induction false} FilterConcat<T>(a: seq<T>, b: seq<T>, p: T -> bool)
    ensures Filter(a + b, p) == Filter(a, p) + Filter(b, p)
  {
    if a == [] {
      assert a + b == b;
    } else {
      assert (a + b)[0] == a[0] && (a + b)[1..] == a[1..] + b;
      FilterConcat(a[1..], b, p);
      var h := if p(a[0]) then [a[0]] else [];
      calc {
        Filter(a + b, p);
        h + Filter(a[1..] + b, p);
        h + (Filter(a[1..], p) + Filter(b, p));
        (h + Filter(a[1..], p)) + Filter(b, p);
        { assert Filter(a, p) == h + Filter(a[1..], p); }
        Filter(a, p) + Filter(b, p);
      }
    }
  }

  /** Filtering keeps every element that satisfies `p` as often as it occurs, and no other. */
  lemma {:induction false} FilterMultiplicity<T>(s: seq<T>, p: T -> bool, x: T)
    ensures multiset(Filter(s, p))[x] == if p(x) then multiset(s)[x] else 0
  {
    if s != [] {
      FilterMultiplicity(s[1..], p, x);
      assert s == [s[0]] + s[1..];
    }
  }

  /** Filtering two orderings of the same elements gives two orderings of the same elements. */
  lemma FilterPermutation<T>(a: seq<T>, b: seq<T>, p: T -> bool)
    requires multiset(a) == multiset(b)
    ensures multiset(Filter(a, p)) == multiset(Filter(b, p))
  {
    forall x ensures multiset(Filter(a, p))[x] == multiset(Filter(b, p))[x] {
      FilterMultiplicity(a, p, x);
      FilterMultiplicity(b, p, x);
    }
  }

  /** When every element satisfies `p`, filtering changes nothing. */
  lemma {:induction false} FilterAll<T>(s: seq<T>, p: T -> bool)
    requires forall x :: x in s ==> p(x)
    ensures Filter(s, p) == s
  {
    if s != [] {
      FilterAll(s[1..], p);
    }
  }

  ghost predicate SortedDescBy<T>(s: seq<T>, key: T -> int) {
    forall i, j :: 0 <= i < j < |s| ==> key(s[i]) >= key(s[j])
  }

  /** Inserts `x` before the first element whose key is smaller than or equal to its own. */
  function InsertDescBy<T>(x: T, s: seq<T>, key: T -> int): (r: seq<T>)
    requires SortedDescBy(s, key)
    ensures SortedDescBy(r, key)
    ensures multiset(r) == multiset(s) + multiset{x}
    ensures |r| == |s| + 1
    ensures r[0] == x || (s != [] && r[0] == s[0])
  {
    if s == [] || key(x) >= key(s[0]) then [x] + s
    else
      var rest := InsertDescBy(x, s[1..], key);
      assert s == [s[0]] + s[1..];
      assert key(s[0]) >= key(rest[0]);
      [s[0]] + rest
  }

  /** `s.sort((a, b) => key(b) - key(a))`: a stable sort, largest key first. */
  function SortDescBy<T>(s: seq<T>, key: T -> int): (r: seq<T>)
    ensures SortedDescBy(r, key)
    ensures multiset(r) == multiset(s)
    ensures |r| == |s|
  {
    if s == [] then []
    else
      assert s == [s[0]] + s[1..];
      InsertDescBy(s[0], SortDescBy(s[1..], key), key)
  }

  /** The first element of a descending ordering carries the largest key. */
  lemma HeadIsLargest<T>(s: seq<T>, key: T -> int, x: T)
    requires SortedDescBy(s, key) && x in s
    ensures key(s[0]) >= key(x)
  {
    var i :| 0 <= i < |s| && s[i] == x;
    assert i == 0 || key(s[0]) >= key(s[i]);
  }

  /** Removing the first element keeps an ordering descending and keeps the keys of
      its remaining elements distinct. */
  lemma TailKeepsOrder<T>(a: seq<T>, key: T -> int)
    requires a != [] && SortedDescBy(a, key)
    requires forall x, y :: x in a && y in a && key(x) == key(y) ==> x == y
    ensures SortedDescBy(a[1..], key)
    ensures forall x, y :: x in a[1..] && y in a[1..] && key(x) == key(y) ==> x == y
    ensures multiset(a[1..]) == multiset(a) - multiset{a[0]}
  {
    assert a == [a[0]] + a[1..];
    forall x, y | x in a[1..] && y in a[1..] && key(x) == key(y) ensures x == y {
      assert x in a && y in a;
    }
  }

  /** Two descending orderings of the same elements are equal when no two distinct
      elements share a key. */
  lemma {:induction false} SortedUnique<T>(a: seq<T>, b: seq<T>, key: T -> int)
    requires SortedDescBy(a, key) && SortedDescBy(b, key)
    requires multiset(a) == multiset(b)
    requires forall x, y :: x in a && y in a && key(x) == key(y) ==> x == y
    ensures a == b
  {
    if a == [] {
      assert |b| == |multiset(b)| == 0;
    } else {
      assert |b| == |multiset(b)| == |multiset(a)| == |a|;
      assert b[0] in multiset(a) && a[0] in multiset(b);
      HeadIsLargest(a, key, b[0]);
      HeadIsLargest(b, key, a[0]);
      assert a[0] == b[0];
      TailKeepsOrder(a, key);
      forall x, y | x in b && y in b && key(x) == key(y) ensures x == y {
        assert x in multiset(a) && y in multiset(a);
      }
      TailKeepsOrder(b, key);
      SortedUnique(a[1..], b[1..], key);
    }
  }
}

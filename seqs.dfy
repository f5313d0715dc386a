/** Order-preserving filtering of table rows, as `findMany({ where })` and `deleteMany` use it. */
module Seqs {

  /** The elements of `s` satisfying `f`, in their order in `s`. */
  function Filter<T(!new)>(s: seq<T>, f: T -> bool): (r: seq<T>)
    ensures |r| <= |s|
    ensures forall x :: x in r <==> x in s && f(x)
    decreases |s|
  {
    if s == [] then []
    else
      assert s == [s[0]] + s[1..];
      (if f(s[0]) then [s[0]] else []) + Filter(s[1..], f)
  }

  /** Filtering keeps every selected element as often as it occurs and drops the others. */
  lemma {:induction false} FilterMultiset<T(!new)>(s: seq<T>, f: T -> bool, x: T)
    ensures multiset(Filter(s, f))[x] == if f(x) then multiset(s)[x] else 0
    decreases |s|
  {
    if s != [] {
      FilterMultiset(s[1..], f, x);
      assert s == [s[0]] + s[1..];
      assert multiset(s) == multiset([s[0]]) + multiset(s[1..]);
    }
  }

  /** The last element a filter keeps is the last element of `s` that passes. */
  lemma {:induction false} FilterLast<T(!new)>(s: seq<T>, f: T -> bool) returns (i: nat)
    requires Filter(s, f) != []
    ensures i < |s| && f(s[i]) && Filter(s, f)[|Filter(s, f)| - 1] == s[i]
    ensures forall j :: i < j < |s| ==> !f(s[j])
    decreases |s|
  {
    var rest := Filter(s[1..], f);
    if rest == [] {
      assert f(s[0]) && Filter(s, f) == [s[0]];
      forall j | 0 < j < |s| ensures !f(s[j]) {
        assert s[j] == s[1..][j - 1];
        assert s[j] in s[1..];
      }
      i := 0;
    } else {
      var k := FilterLast(s[1..], f);
      i := k + 1;
      assert Filter(s, f)[|Filter(s, f)| - 1] == rest[|rest| - 1];
      forall j | i < j < |s| ensures !f(s[j]) {
        assert s[j] == s[1..][j - 1];
      }
    }
  }

  /** No two elements of `s` share a key. */
  ghost predicate DistinctKeys<T, K>(s: seq<T>, key: T -> K) {
    forall i, j :: 0 <= i < j < |s| ==> key(s[i]) != key(s[j])
  }

  /** Keys are distinct in `[x] + t` when they are in `t` and `x`'s key is new. */
  lemma ConsDistinct<T, K>(x: T, t: seq<T>, key: T -> K)
    requires DistinctKeys(t, key)
    requires forall y :: y in t ==> key(y) != key(x)
    ensures DistinctKeys([x] + t, key)
  {
    var r := [x] + t;
    forall i, j | 0 <= i < j < |r| ensures key(r[i]) != key(r[j]) {
      assert r[j] == t[j - 1];
      if i > 0 {
        assert r[i] == t[i - 1];
      }
    }
  }

  /** Filtering keeps a key column duplicate-free. */
  lemma {:induction false} FilterKeepsDistinctKeys<T(!new), K>(s: seq<T>, f: T -> bool, key: T -> K)
    requires DistinctKeys(s, key)
    ensures DistinctKeys(Filter(s, f), key)
    decreases |s|
  {
    if s != [] {
      var tail := s[1..];
      TailDistinct(s, key);
      FilterKeepsDistinctKeys(tail, f, key);
      var rest := Filter(tail, f);
      if f(s[0]) {
        forall y | y in rest ensures key(y) != key(s[0]) {
          var k :| 0 <= k < |tail| && tail[k] == y;
          assert s[k + 1] == y;
        }
        ConsDistinct(s[0], rest, key);
      }
    }
  }

  /** Dropping the first element keeps keys distinct. */
  lemma TailDistinct<T, K>(s: seq<T>, key: T -> K)
    requires s != [] && DistinctKeys(s, key)
    ensures DistinctKeys(s[1..], key)
  {
    var t := s[1..];
    forall i, j | 0 <= i < j < |t| ensures key(t[i]) != key(t[j]) {
      assert t[i] == s[i + 1] && t[j] == s[j + 1];
    }
  }

  /** Appending an element with a fresh key keeps keys distinct. */
  lemma SnocDistinct<T, K>(s: seq<T>, x: T, key: T -> K)
    requires DistinctKeys(s, key)
    requires forall i :: 0 <= i < |s| ==> key(s[i]) != key(x)
    ensures DistinctKeys(s + [x], key)
  {
    var r := s + [x];
    forall i, j | 0 <= i < j < |r| ensures key(r[i]) != key(r[j]) {
      assert r[i] == s[i];
      if j < |s| {
        assert r[j] == s[j];
      }
    }
  }

  // ------------------------------------------------------------- ordering

  /** `orderBy: { key: 'desc' }`: no element is followed by one with a larger key. */
  predicate SortedDesc<T>(s: seq<T>, key: T -> int) {
    forall i, j :: 0 <= i < j < |s| ==> key(s[i]) >= key(s[j])
  }

  /** A head no smaller than anything after it keeps a sorted sequence sorted. */
  lemma ConsSorted<T>(h: T, rest: seq<T>, key: T -> int)
    requires SortedDesc(rest, key)
    requires forall j :: 0 <= j < |rest| ==> key(h) >= key(rest[j])
    ensures SortedDesc([h] + rest, key)
  {
    assert forall j :: 0 < j <= |rest| ==> ([h] + rest)[j] == rest[j - 1];
  }

  /** `x` placed in front of the first element whose key is not larger. */
  function InsertDesc<T>(x: T, s: seq<T>, key: T -> int): seq<T>
    decreases |s|
  {
    if s == [] || key(x) >= key(s[0]) then [x] + s
    else [s[0]] + InsertDesc(x, s[1..], key)
  }

  /** Inserting adds exactly one `x`. */
  lemma {:induction false} InsertDescMultiset<T>(x: T, s: seq<T>, key: T -> int)
    ensures multiset(InsertDesc(x, s, key)) == multiset(s) + multiset{x}
    decreases |s|
  {
    if s != [] && key(x) < key(s[0]) {
      assert s == [s[0]] + s[1..];
      InsertDescMultiset(x, s[1..], key);
    }
  }

  /** Every key after the insertion is `x`'s or one already in `s`. */
  lemma {:induction false} InsertDescKeys<T>(x: T, s: seq<T>, key: T -> int, bound: int)
    requires key(x) <= bound && forall j :: 0 <= j < |s| ==> key(s[j]) <= bound
    ensures forall j :: 0 <= j < |InsertDesc(x, s, key)| ==> key(InsertDesc(x, s, key)[j]) <= bound
    decreases |s|
  {
    if s != [] && key(x) < key(s[0]) {
      InsertDescKeys(x, s[1..], key, bound);
      var rest := InsertDesc(x, s[1..], key);
      assert forall j :: 0 < j <= |rest| ==> ([s[0]] + rest)[j] == rest[j - 1];
    } else {
      assert forall j :: 0 < j <= |s| ==> ([x] + s)[j] == s[j - 1];
    }
  }

  /** Inserting into a sorted sequence keeps it sorted. */
  lemma {:induction false} InsertDescSorted<T>(x: T, s: seq<T>, key: T -> int)
    requires SortedDesc(s, key)
    ensures SortedDesc(InsertDesc(x, s, key), key)
    decreases |s|
  {
    if s == [] || key(x) >= key(s[0]) {
      ConsSorted(x, s, key);
    } else {
      assert forall i :: 0 <= i < |s| - 1 ==> s[1..][i] == s[i + 1];
      InsertDescSorted(x, s[1..], key);
      InsertDescKeys(x, s[1..], key, key(s[0]));
      ConsSorted(s[0], InsertDesc(x, s[1..], key), key);
    }
  }

  /** The elements of `s` rearranged by non-increasing key (an insertion sort). */
  function SortDesc<T>(s: seq<T>, key: T -> int): seq<T>
    decreases |s|
  {
    if s == [] then [] else InsertDesc(s[0], SortDesc(s[1..], key), key)
  }

  /** The sort's result is sorted and a permutation of its input. */
  lemma {:induction false} SortDescSorted<T>(s: seq<T>, key: T -> int)
    ensures SortedDesc(SortDesc(s, key), key)
    ensures multiset(SortDesc(s, key)) == multiset(s)
    decreases |s|
  {
    if s != [] {
      assert s == [s[0]] + s[1..];
      SortDescSorted(s[1..], key);
      InsertDescSorted(s[0], SortDesc(s[1..], key), key);
      InsertDescMultiset(s[0], SortDesc(s[1..], key), key);
    }
  }

  /** Prisma's `take`: the first `count` elements, or the last `-count` when negative. */
  function Take<T>(s: seq<T>, count: int): seq<T> {
    if count >= 0 then s[..if count < |s| then count else |s|]
    else s[|s| - (if -count < |s| then -count else |s|)..]
  }

  /** A sorted sequence cut after `k` elements keeps the `k` largest keys in front. */
  lemma PrefixOfSortedHoldsLargest<T>(s: seq<T>, key: T -> int, k: nat, x: T, y: T)
    requires SortedDesc(s, key) && k <= |s|
    requires x in s[..k] && y in s && y !in s[..k]
    ensures key(y) <= key(x)
  {
    var i :| 0 <= i < k && s[i] == x;
    var j :| 0 <= j < |s| && s[j] == y;
    assert forall m :: 0 <= m < k ==> s[..k][m] == s[m];
  }

  /** A sorted sequence cut before `k` keeps the smallest keys behind. */
  lemma SuffixOfSortedHoldsSmallest<T>(s: seq<T>, key: T -> int, k: nat, x: T, y: T)
    requires SortedDesc(s, key) && k <= |s|
    requires x in s[k..] && y in s && y !in s[k..]
    ensures key(x) <= key(y)
  {
    var i :| k <= i < |s| && s[i] == x;
    var j :| 0 <= j < |s| && s[j] == y;
    assert forall m :: k <= m < |s| ==> s[k..][m - k] == s[m];
  }

  /** A slice of a sorted sequence is sorted. */
  lemma SliceOfSorted<T>(s: seq<T>, key: T -> int, lo: nat, hi: nat)
    requires SortedDesc(s, key) && lo <= hi <= |s|
    ensures SortedDesc(s[lo..hi], key)
  {
    assert forall i :: 0 <= i < hi - lo ==> s[lo..hi][i] == s[lo + i];
  }

  /** A slice keeps a sub-multiset of the elements. */
  lemma SliceMultiset<T>(s: seq<T>, lo: nat, hi: nat)
    requires lo <= hi <= |s|
    ensures multiset(s[lo..hi]) <= multiset(s)
  {
    assert s == s[..lo] + s[lo..hi] + s[hi..];
    assert multiset(s) == multiset(s[..lo]) + multiset(s[lo..hi]) + multiset(s[hi..]);
  }

  /** What `take` keeps is one slice of the input, a prefix when `count >= 0`. */
  lemma TakeIsSlice<T>(s: seq<T>, count: int) returns (lo: nat, hi: nat)
    ensures lo <= hi <= |s| && Take(s, count) == s[lo..hi]
    ensures count >= 0 ==> lo == 0
    ensures count < 0 ==> hi == |s|
  {
    if count >= 0 {
      lo, hi := 0, if count < |s| then count else |s|;
    } else {
      lo, hi := |s| - (if -count < |s| then -count else |s|), |s|;
    }
  }

  /** What `take` keeps of a sorted sequence: sorted, drawn from it, and for `count >= 0` its largest keys. */
  lemma TakeOfSorted<T>(s: seq<T>, key: T -> int, count: int)
    requires SortedDesc(s, key)
    ensures SortedDesc(Take(s, count), key)
    ensures multiset(Take(s, count)) <= multiset(s)
    ensures count >= 0 ==> forall x, y :: x in Take(s, count) && y in s && y !in Take(s, count) ==> key(y) <= key(x)
    ensures count < 0 ==> forall x, y :: x in Take(s, count) && y in s && y !in Take(s, count) ==> key(x) <= key(y)
  {
    var lo, hi := TakeIsSlice(s, count);
    SliceOfSorted(s, key, lo, hi);
    SliceMultiset(s, lo, hi);
    if count >= 0 {
      forall x, y | x in s[..hi] && y in s && y !in s[..hi] ensures key(y) <= key(x) {
        PrefixOfSortedHoldsLargest(s, key, hi, x, y);
      }
    } else {
      assert s[lo..hi] == s[lo..];
      forall x, y | x in s[lo..] && y in s && y !in s[lo..] ensures key(x) <= key(y) {
        SuffixOfSortedHoldsSmallest(s, key, lo, x, y);
      }
    }
  }
}

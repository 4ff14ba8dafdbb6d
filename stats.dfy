/**
 * Python's `statistics.median` on a non-empty list of channel values, followed by the
 * `int(...)` truncation that tools/strip_bg_glove.py applies to it. The median is the
 * middle element of the sorted list when its length is odd, and the mean of the two
 * middle elements when it is even.
 */
module Stats {
  import opened Pixels

  ghost predicate Sorted(s: seq<int>)
  {
    forall i, j :: 0 <= i < j < |s| ==> s[i] <= s[j]
  }

  /** Inserts x into a sorted list, before the first element not smaller than it. */
  function Insert(x: int, s: seq<int>): (r: seq<int>)
    ensures |r| == |s| + 1
    ensures multiset(r) == multiset(s) + multiset{x}
  {
    if |s| == 0 then [x]
    else if x <= s[0] then [x] + s
    else
      assert s == [s[0]] + s[1..];
      [s[0]] + Insert(x, s[1..])
  }

  lemma {:induction false} InsertSorted(x: int, s: seq<int>)
    requires Sorted(s)
    ensures Sorted(Insert(x, s))
  {
    if |s| > 0 && x > s[0] {
      InsertSorted(x, s[1..]);
      var t := Insert(x, s[1..]);
      forall j | 0 <= j < |t|
        ensures s[0] <= t[j]
      {
        assert t[j] in multiset(t);
        if t[j] != x {
          assert t[j] in multiset(s[1..]);
        }
      }
    }
  }

  /** `sorted(data)`: the sorted permutation of `data`. */
  function Sort(s: seq<int>): (r: seq<int>)
    ensures |r| == |s|
    ensures multiset(r) == multiset(s)
    ensures Sorted(r)
  {
    if |s| == 0 then []
    else
      assert s == [s[0]] + s[1..];
      InsertSorted(s[0], Sort(s[1..]));
      Insert(s[0], Sort(s[1..]))
  }

  /** How many elements of s satisfy p. */
  function CountWhere(s: seq<int>, p: int -> bool): nat
  {
    if |s| == 0 then 0 else (if p(s[0]) then 1 else 0) + CountWhere(s[1..], p)
  }

  lemma {:induction false} CountInsert(x: int, s: seq<int>, p: int -> bool)
    ensures CountWhere(Insert(x, s), p) == (if p(x) then 1 else 0) + CountWhere(s, p)
  {
    if |s| > 0 && x > s[0] {
      CountInsert(x, s[1..], p);
      assert ([s[0]] + Insert(x, s[1..]))[1..] == Insert(x, s[1..]);
    } else if |s| > 0 {
      assert ([x] + s)[1..] == s;
    }
  }

  /** Counting does not depend on the order, so it is the same before and after sorting. */
  lemma {:induction false} CountSort(s: seq<int>, p: int -> bool)
    ensures CountWhere(Sort(s), p) == CountWhere(s, p)
  {
    if |s| > 0 {
      CountSort(s[1..], p);
      CountInsert(s[0], Sort(s[1..]), p);
    }
  }

  /** If no element from index k on satisfies p, at most k elements do. */
  lemma {:induction false} CountBeforeIndex(s: seq<int>, p: int -> bool, k: nat)
    requires forall i :: k <= i < |s| ==> !p(s[i])
    ensures CountWhere(s, p) <= k
  {
    if |s| > 0 {
      CountBeforeIndex(s[1..], p, if k == 0 then 0 else k - 1);
    }
  }

  /** If no element before index k satisfies p, at most |s| - k elements do. */
  lemma {:induction false} CountFromIndex(s: seq<int>, p: int -> bool, k: nat)
    requires k <= |s|
    requires forall i :: 0 <= i < k ==> !p(s[i])
    ensures CountWhere(s, p) <= |s| - k
  {
    if |s| > 0 {
      CountFromIndex(s[1..], p, if k == 0 then 0 else k - 1);
    }
  }

  /** Every element of the sorted copy is one of the input's bytes. */
  lemma SortKeepsBytes(xs: seq<byte>)
    ensures forall i :: 0 <= i < |Sort(xs)| ==> 0 <= Sort(xs)[i] < 256
  {
    var s := Sort(xs);
    forall i | 0 <= i < |s|
      ensures 0 <= s[i] < 256
    {
      assert s[i] in multiset(s);
      assert s[i] in multiset(xs);
    }
  }

  /** The truncated median of an already sorted, non-empty list. */
  function MiddleOf(s: seq<int>): int
    requires |s| > 0
  {
    var n := |s|;
    if n % 2 == 1 then s[n / 2] else (s[n / 2 - 1] + s[n / 2]) / 2
  }

  /** `int(statistics.median(xs))` for a non-empty list of bytes. */
  function MedianTrunc(xs: seq<byte>): byte
    requires |xs| > 0
  {
    SortKeepsBytes(xs);
    MiddleOf(Sort(xs))
  }

  /** In a sorted list, at most half the elements lie below the middle and at most half above. */
  lemma MiddleSplits(s: seq<int>)
    requires |s| > 0 && Sorted(s)
    ensures CountWhere(s, x => x < MiddleOf(s)) <= |s| / 2
    ensures CountWhere(s, x => x > MiddleOf(s)) <= |s| / 2
  {
    var n, m := |s|, MiddleOf(s);
    var hi := n / 2;
    var lo := if n % 2 == 1 then n / 2 + 1 else n / 2;
    assert s[lo - 1] <= m <= s[hi];
    CountBeforeIndex(s, x => x < m, hi);
    CountFromIndex(s, x => x > m, lo);
  }

  lemma {:induction false} CountAll(s: seq<int>, p: int -> bool)
    requires forall i :: 0 <= i < |s| ==> p(s[i])
    ensures CountWhere(s, p) == |s|
  {
    if |s| > 0 {
      CountAll(s[1..], p);
    }
  }

  /**
   * The truncated median splits the samples: at most half of them lie strictly below it and
   * at most half strictly above it.
   */
  lemma MedianIsCentral(xs: seq<byte>)
    requires |xs| > 0
    ensures CountWhere(xs, x => x < MedianTrunc(xs)) <= |xs| / 2
    ensures CountWhere(xs, x => x > MedianTrunc(xs)) <= |xs| / 2
  {
    var s := Sort(xs);
    assert MedianTrunc(xs) == MiddleOf(s);
    MiddleSplits(s);
    CountSort(xs, x => x < MiddleOf(s));
    CountSort(xs, x => x > MiddleOf(s));
  }

  /** Hence the truncated median lies between the smallest and the largest sample. */
  lemma MedianWithinSamples(xs: seq<byte>)
    requires |xs| > 0
    ensures exists i :: 0 <= i < |xs| && xs[i] <= MedianTrunc(xs)
    ensures exists j :: 0 <= j < |xs| && xs[j] >= MedianTrunc(xs)
  {
    var m := MedianTrunc(xs);
    MedianIsCentral(xs);
    if forall i :: 0 <= i < |xs| ==> xs[i] > m {
      CountAll(xs, x => x > m);
    }
    if forall i :: 0 <= i < |xs| ==> xs[i] < m {
      CountAll(xs, x => x < m);
    }
  }
}

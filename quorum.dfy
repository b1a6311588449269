/** The leader's majority test `has_consensus` (nidus/raft.py:293-304): sort the
    `match_index` values and compare the one at position `(n - 1) // 2` with the index in
    question. */
module Quorum {

  predicate Sorted(s: seq<int>)
  {
    forall i, j :: 0 <= i <= j < |s| ==> s[i] <= s[j]
  }

  /** How many of the values are at least `i`. */
  function CountAtLeast(s: seq<int>, i: int): (c: nat)
    ensures c <= |s|
  {
    if s == [] then 0 else (if s[0] >= i then 1 else 0) + CountAtLeast(s[1..], i)
  }

  /** `x` inserted in front of the first value that is not smaller. */
  function Insert(x: int, s: seq<int>): (r: seq<int>)
    ensures |r| == |s| + 1
    ensures r[0] == if s == [] || x <= s[0] then x else s[0]
  {
    if s == [] || x <= s[0] then [x] + s else [s[0]] + Insert(x, s[1..])
  }

  /** Inserting into a sorted sequence keeps it sorted. */
  lemma {:induction false} InsertSorted(x: int, s: seq<int>)
    requires Sorted(s)
    ensures Sorted(Insert(x, s))
  {
    if s != [] && x > s[0] {
      var t := Insert(x, s[1..]);
      InsertSorted(x, s[1..]);
      var r := [s[0]] + t;
      assert forall k :: 1 <= k < |r| ==> r[k] == t[k - 1];
      assert s[0] <= t[0];
    }
  }

  /** Inserting adds exactly `x` to the values. */
  lemma {:induction false} InsertPermutes(x: int, s: seq<int>)
    ensures multiset(Insert(x, s)) == multiset(s) + multiset{x}
  {
    if s != [] && x > s[0] {
      InsertPermutes(x, s[1..]);
      assert s == [s[0]] + s[1..];
    }
  }

  /** `sorted(values)`: the values in ascending order. */
  function Sort(values: seq<int>): (r: seq<int>)
    ensures |r| == |values|
  {
    if values == [] then [] else Insert(values[0], Sort(values[1..]))
  }

  /** The sorted values are in ascending order and are a permutation of the input. */
  lemma {:induction false} SortSortsAndPermutes(values: seq<int>)
    ensures Sorted(Sort(values))
    ensures multiset(Sort(values)) == multiset(values)
  {
    if values != [] {
      SortSortsAndPermutes(values[1..]);
      InsertSorted(values[0], Sort(values[1..]));
      InsertPermutes(values[0], Sort(values[1..]));
      assert values == [values[0]] + values[1..];
    }
  }

  /** Inserting `x` adds one to the count of every bound `x` reaches and leaves the others. */
  lemma {:induction false} InsertCount(x: int, s: seq<int>, i: int)
    ensures CountAtLeast(Insert(x, s), i) == CountAtLeast(s, i) + (if x >= i then 1 else 0)
  {
    if s != [] && x > s[0] {
      InsertCount(x, s[1..], i);
      assert ([s[0]] + Insert(x, s[1..]))[1..] == Insert(x, s[1..]);
    } else {
      assert ([x] + s)[1..] == s;
    }
  }

  /** Sorting keeps every count. */
  lemma {:induction false} SortCount(values: seq<int>, i: int)
    ensures CountAtLeast(Sort(values), i) == CountAtLeast(values, i)
  {
    if values != [] {
      SortCount(values[1..], i);
      InsertCount(values[0], Sort(values[1..]), i);
    }
  }

  /** `has_consensus(indx)` on the values of `match_index`. An empty list has no middle
      element, so the values must not be empty. */
  function HasConsensus(values: seq<int>, indx: int): bool
    requires |values| > 0
  {
    Sort(values)[(|values| - 1) / 2] >= indx
  }

  /** Counting splits over a concatenation. */
  lemma {:induction false} CountAppend(a: seq<int>, b: seq<int>, i: int)
    ensures CountAtLeast(a + b, i) == CountAtLeast(a, i) + CountAtLeast(b, i)
  {
    if a == [] {
      assert a + b == b;
    } else {
      assert (a + b)[1..] == a[1..] + b;
      CountAppend(a[1..], b, i);
    }
  }

  /** When every value is at least `i`, all of them count; when none is, none does. */
  lemma {:induction false} CountAllOrNone(s: seq<int>, i: int)
    ensures (forall k :: 0 <= k < |s| ==> s[k] >= i) ==> CountAtLeast(s, i) == |s|
    ensures (forall k :: 0 <= k < |s| ==> s[k] < i) ==> CountAtLeast(s, i) == 0
  {
    if s != [] {
      CountAllOrNone(s[1..], i);
      assert forall k :: 1 <= k < |s| ==> s[1..][k - 1] == s[k];
    }
  }

  /** In a sorted sequence, the value at position `k` is at least `i` exactly when at least
      `|s| - k` values are. */
  lemma SortedCount(s: seq<int>, k: int, i: int)
    requires Sorted(s) && 0 <= k < |s|
    ensures s[k] >= i ==> CountAtLeast(s, i) >= |s| - k
    ensures s[k] < i ==> CountAtLeast(s, i) <= |s| - k - 1
  {
    assert s == s[..k + 1] + s[k + 1..];
    CountAppend(s[..k + 1], s[k + 1..], i);
    assert s == s[..k] + s[k..];
    CountAppend(s[..k], s[k..], i);
    if s[k] >= i {
      assert forall j :: 0 <= j < |s[k..]| ==> s[k..][j] == s[k + j];
      CountAllOrNone(s[k..], i);
    } else {
      assert forall j :: 0 <= j < |s[..k + 1]| ==> s[..k + 1][j] == s[j];
      CountAllOrNone(s[..k + 1], i);
    }
  }

  /** The middle value of the sorted values is at least `indx` exactly when strictly more
      than half of the values are: `has_consensus` is a majority test. */
  lemma HasConsensusIsMajority(values: seq<int>, indx: int)
    requires |values| > 0
    ensures HasConsensus(values, indx) <==> 2 * CountAtLeast(values, indx) > |values|
  {
    var n := |values|;
    SortSortsAndPermutes(values);
    SortedCount(Sort(values), (n - 1) / 2, indx);
    SortCount(values, indx);
  }
}

/** Ranges of a sequence: sorted, rearranged, split; the facts behind the in-place sorts. */
module Sorting {

  ghost predicate SortedRange(s: seq<int>, lo: nat, end: nat)
    requires end <= |s|
  {
    forall k, m {:trigger InOrder(s, k, m)} | lo <= k < m < end :: InOrder(s, k, m)
  }

  ghost predicate InOrder(s: seq<int>, k: nat, m: nat)
    requires k < |s| && m < |s|
  {
    s[k] <= s[m]
  }

  ghost predicate Sorted(s: seq<int>) {
    SortedRange(s, 0, |s|)
  }

  /** The elements of lo..end-1 have changed places with each other; nothing else has changed. */
  ghost predicate Rearranged(after: seq<int>, before: seq<int>, lo: nat, end: nat) {
    && |after| == |before| && lo <= end <= |before|
    && (forall k {:trigger after[k]} | 0 <= k < |after| && (k < lo || end <= k) :: after[k] == before[k])
    && multiset(after[lo..end]) == multiset(before[lo..end])
  }

  lemma RearrangedTwice(s0: seq<int>, s1: seq<int>, s2: seq<int>, lo: nat, end: nat)
    requires Rearranged(s1, s0, lo, end) && Rearranged(s2, s1, lo, end)
    ensures Rearranged(s2, s0, lo, end)
  {
  }

  /** A rearrangement of a part is one of the whole. */
  lemma Widen(after: seq<int>, before: seq<int>, lo: nat, end: nat, lo': nat, end': nat)
    requires Rearranged(after, before, lo, end) && lo' <= lo && end <= end' <= |before|
    ensures Rearranged(after, before, lo', end')
  {
    Pieces(after, lo', lo, end, end');
    Pieces(before, lo', lo, end, end');
    assert after[lo'..lo] == before[lo'..lo];
    assert after[end..end'] == before[end..end'];
  }

  lemma Pieces(s: seq<int>, a: nat, b: nat, c: nat, d: nat)
    requires a <= b <= c <= d <= |s|
    ensures multiset(s[a..d]) == multiset(s[a..b]) + multiset(s[b..c]) + multiset(s[c..d])
  {
    assert s[a..d] == s[a..b] + s[b..c] + s[c..d];
  }

  lemma Swapped(start: seq<int>, before: seq<int>, after: seq<int>, lo: nat, end: nat, i: nat, j: nat)
    requires Rearranged(before, start, lo, end)
    requires lo <= i < end <= |before| && lo <= j < end
    requires after == before[i := before[j]][j := before[i]]
    ensures Rearranged(after, start, lo, end)
  {
    var part := before[lo..end];
    assert after[lo..end] == part[i - lo := part[j - lo]][j - lo := part[i - lo]];
  }

  /** Every element of the rearranged range was somewhere in the range before. */
  lemma CameFrom(after: seq<int>, before: seq<int>, lo: nat, end: nat, k: nat) returns (m: nat)
    requires Rearranged(after, before, lo, end) && lo <= k < end
    ensures lo <= m < end && before[m] == after[k]
  {
    var x := after[k];
    assert after[lo..end][k - lo] == x;
    assert x in multiset(before[lo..end]);
    assert x in before[lo..end];
    var offset :| 0 <= offset < end - lo && before[lo..end][offset] == x;
    m := lo + offset;
  }

  lemma Unchanged(after: seq<int>, before: seq<int>, lo: nat, end: nat, k: nat)
    requires Rearranged(after, before, lo, end) && k < |before| && (k < lo || end <= k)
    ensures after[k] == before[k]
  {
  }

  /** Nothing before lo is larger than anything in lo..end-1. */
  ghost predicate Split(s: seq<int>, lo: nat, end: nat)
    requires end <= |s|
  {
    forall k, m {:trigger InOrder(s, k, m)} | 0 <= k < lo <= m < end :: InOrder(s, k, m)
  }

  ghost predicate AtMost(s: seq<int>, lo: nat, end: nat, v: int)
    requires end <= |s|
  {
    forall k | lo <= k < end :: s[k] <= v
  }

  ghost predicate AtLeast(s: seq<int>, lo: nat, end: nat, v: int)
    requires end <= |s|
  {
    forall k | lo <= k < end :: v <= s[k]
  }

  lemma BoundsKept(after: seq<int>, before: seq<int>, lo: nat, end: nat, v: int)
    requires Rearranged(after, before, lo, end)
    ensures AtMost(before, lo, end, v) ==> AtMost(after, lo, end, v)
    ensures AtLeast(before, lo, end, v) ==> AtLeast(after, lo, end, v)
  {
    forall k | lo <= k < end
      ensures AtMost(before, lo, end, v) ==> after[k] <= v
      ensures AtLeast(before, lo, end, v) ==> v <= after[k]
    {
      var m := CameFrom(after, before, lo, end, k);
    }
  }

  lemma SplitKept(after: seq<int>, before: seq<int>, lo: nat, end: nat)
    requires Rearranged(after, before, lo, end) && Split(before, lo, end)
    ensures Split(after, lo, end)
  {
    forall k, m | 0 <= k < lo <= m < end ensures InOrder(after, k, m) {
      Unchanged(after, before, lo, end, k);
      var from := CameFrom(after, before, lo, end, m);
      assert InOrder(before, k, from);
    }
  }

  // ----- insertion -----

  /** The element at i has moved down to j, and those between have moved up by one. */
  ghost predicate Inserted(after: seq<int>, before: seq<int>, j: nat, i: nat) {
    j <= i < |before| && after == before[..j] + [before[i]] + before[j..i] + before[i + 1..]
  }

  /** On the way there: the elements from j to i-1 have moved up, and place j is to be written next. */
  ghost predicate MovedUp(s: seq<int>, before: seq<int>, j: nat, i: nat) {
    && j <= i < |before| == |s|
    && forall k {:trigger s[k]} | 0 <= k < |s| && k != j :: s[k] == if j < k <= i then before[k - 1] else before[k]
  }

  lemma MoveUpOne(s: seq<int>, after: seq<int>, before: seq<int>, j: nat, i: nat)
    requires 0 < j && MovedUp(s, before, j, i) && after == s[j := s[j - 1]]
    ensures MovedUp(after, before, j - 1, i) && s[j - 1] == before[j - 1]
  {
  }

  lemma InsertionDone(s: seq<int>, after: seq<int>, before: seq<int>, j: nat, i: nat)
    requires MovedUp(s, before, j, i) && after == s[j := before[i]]
    ensures Inserted(after, before, j, i)
  {
    assert after[..j] == before[..j];
    assert after[j + 1..i + 1] == before[j..i];
    assert after[i + 1..] == before[i + 1..];
    assert after == after[..j] + [after[j]] + after[j + 1..i + 1] + after[i + 1..];
  }

  lemma InsertedIsRearranged(after: seq<int>, before: seq<int>, lo: nat, j: nat, i: nat)
    requires Inserted(after, before, j, i) && lo <= j
    ensures Rearranged(after, before, lo, i + 1)
  {
    assert after[lo..i + 1] == before[lo..j] + [before[i]] + before[j..i];
    assert before[lo..i + 1] == before[lo..j] + before[j..i] + [before[i]];
  }

  /** Inserted where it belongs, the element leaves the range sorted. */
  lemma InsertedIsSorted(after: seq<int>, before: seq<int>, lo: nat, j: nat, i: nat)
    requires Inserted(after, before, j, i) && lo <= j && SortedRange(before, lo, i)
    requires j == lo || before[j - 1] <= before[i]
    requires forall k | j <= k < i :: before[i] < before[k]
    ensures SortedRange(after, lo, i + 1)
  {
    forall k, m | lo <= k < m < i + 1 ensures InOrder(after, k, m) {
      var k', m' := InsertedFrom(before, j, i, k), InsertedFrom(before, j, i, m);
      assert after[k] == before[k'] && after[m] == before[m'];
      assert k' < m' < i ==> InOrder(before, k', m');
      assert lo < j && k' < j - 1 ==> InOrder(before, k', j - 1);
    }
  }

  /** Where the element at k was before the insertion. */
  ghost function InsertedFrom(before: seq<int>, j: nat, i: nat, k: nat): (from: nat)
    requires j <= i < |before| && k <= i
    ensures from <= i
  {
    if k < j then k else if k == j then i else k - 1
  }

  /** The state of an insertion sort that has come to position i. */
  ghost predicate PartlySorted(s: seq<int>, start: seq<int>, lo: nat, i: nat, end: nat) {
    && Rearranged(s, start, lo, end) && i <= end
    && Split(s, lo, end)
    && SortedRange(s, lo, i)
  }

  lemma NothingSorted(s: seq<int>, lo: nat, end: nat)
    requires lo <= end <= |s| && Split(s, lo, end)
    ensures PartlySorted(s, s, lo, lo, end)
  {
  }

  lemma ShortIsSorted(s: seq<int>, lo: nat, end: nat)
    requires lo <= end <= |s| && end <= lo + 1
    ensures Rearranged(s, s, lo, end) && SortedRange(s, lo, end)
  {
  }

  lemma OneMoreSorted(start: seq<int>, before: seq<int>, after: seq<int>, lo: nat, i: nat, end: nat)
    requires PartlySorted(before, start, lo, i, end) && lo <= i < end
    requires Rearranged(after, before, lo, i + 1) && SortedRange(after, lo, i + 1)
    ensures PartlySorted(after, start, lo, i + 1, end)
  {
    Widen(after, before, lo, i + 1, lo, end);
    SplitKept(after, before, lo, end);
    RearrangedTwice(start, before, after, lo, end);
  }

  // ----- partition -----

  /** Scans from both ends have come to i and j: small to the left, large to the right. */
  ghost predicate Scanned(s: seq<int>, lo: nat, i: nat, j: nat, end: nat, pivot: int) {
    && lo <= i < j < end - 1 && end <= |s| && s[end - 2] == pivot
    && AtMost(s, lo, i + 1, pivot) && AtLeast(s, j, end, pivot)
  }

  /** Two elements on the wrong sides, swapped. */
  lemma ScannedOn(before: seq<int>, after: seq<int>, lo: nat, i: nat, j: nat, end: nat, pivot: int,
                  up: nat, down: nat)
    requires Scanned(before, lo, i, j, end, pivot) && i < up < down < j
    requires forall k | i < k < up :: before[k] < pivot
    requires forall k | down < k < j :: before[k] > pivot
    requires before[up] >= pivot && before[down] <= pivot
    requires |after| == |before| && after[up] == before[down] && after[down] == before[up]
    requires forall k | 0 <= k < |after| && k != up && k != down :: after[k] == before[k]
    ensures Scanned(after, lo, up, down, end, pivot)
  {
  }

  /** The scans have met: where the upward one stopped the range falls into two. */
  lemma ScansMet(s: seq<int>, lo: nat, i: nat, j: nat, end: nat, pivot: int, up: nat, down: nat)
    requires Scanned(s, lo, i, j, end, pivot) && i < up < end - 1 && i <= down < j && down <= up
    requires forall k | i < k < up :: s[k] < pivot
    requires forall k | down < k < j :: s[k] > pivot
    requires s[up] >= pivot
    ensures AtMost(s, lo, up, pivot) && AtLeast(s, up, end, pivot)
  {
  }

  /** The pivot stands at i, with nothing larger to its left and nothing smaller to its right. */
  ghost predicate Partitioned(s: seq<int>, lo: nat, i: nat, end: nat)
    requires i < |s| && end <= |s|
  {
    lo <= i < end && AtMost(s, lo, i, s[i]) && AtLeast(s, i + 1, end, s[i])
  }

  /** The last swap, of the place where the scans met and the pivot behind it. */
  lemma PivotPlaced(before: seq<int>, after: seq<int>, lo: nat, i: nat, end: nat, pivot: int)
    requires lo <= i && i + 2 <= end <= |before| && before[i] >= pivot && before[end - 2] == pivot
    requires AtMost(before, lo, i, pivot) && AtLeast(before, i, end, pivot)
    requires |after| == |before| && after[i] == before[end - 2] && after[end - 2] == before[i]
    requires forall k | 0 <= k < |after| && k != i && k != end - 2 :: after[k] == before[k]
    ensures Partitioned(after, lo, i, end)
  {
  }

  lemma PartitionSplits(s: seq<int>, lo: nat, i: nat, end: nat)
    requires i < |s| && end <= |s| && Partitioned(s, lo, i, end) && Split(s, lo, end)
    ensures Split(s, lo, i) && Split(s, i + 1, end)
  {
    forall k, m | 0 <= k < i + 1 <= m < end ensures InOrder(s, k, m) {
      assert k < lo ==> InOrder(s, k, m);
    }
    forall k, m | 0 <= k < lo <= m < i ensures InOrder(s, k, m) {
    }
  }

  /** Sorting the left part keeps the partition. */
  lemma LeftSorted(start: seq<int>, before: seq<int>, after: seq<int>, lo: nat, i: nat, end: nat)
    requires Rearranged(before, start, lo, end) && Rearranged(after, before, lo, i)
    requires i < |before| && Partitioned(before, lo, i, end) && Split(before, lo, end)
    ensures Rearranged(after, start, lo, end)
    ensures Partitioned(after, lo, i, end) && Split(after, lo, end) && Split(after, i + 1, end)
  {
    Unchanged(after, before, lo, i, i);
    BoundsKept(after, before, lo, i, before[i]);
    forall k | i + 1 <= k < end ensures after[i] <= after[k] {
      Unchanged(after, before, lo, i, k);
    }
    Widen(after, before, lo, i, lo, end);
    SplitKept(after, before, lo, end);
    PartitionSplits(after, lo, i, end);
    RearrangedTwice(start, before, after, lo, end);
  }

  /** Sorting the right part completes the range. */
  lemma RightSorted(start: seq<int>, before: seq<int>, after: seq<int>, lo: nat, i: nat, end: nat)
    requires Rearranged(before, start, lo, end) && Rearranged(after, before, i + 1, end)
    requires i < |before| && Partitioned(before, lo, i, end)
    requires SortedRange(before, lo, i) && SortedRange(after, i + 1, end)
    ensures Rearranged(after, start, lo, end) && SortedRange(after, lo, end)
  {
    BoundsKept(after, before, i + 1, end, before[i]);
    forall k | lo <= k < i + 1 ensures after[k] == before[k] && before[k] <= before[i] {
      Unchanged(after, before, i + 1, end, k);
    }
    forall k, m | lo <= k < m < end ensures InOrder(after, k, m) {
      assert m < i ==> InOrder(before, k, m);
    }
    Widen(after, before, i + 1, end, lo, end);
    RearrangedTwice(start, before, after, lo, end);
  }

  lemma PrefixSorted(s: seq<int>, n: nat)
    requires n <= |s| && SortedRange(s, 0, n)
    ensures Sorted(s[..n])
  {
    forall k, m | 0 <= k < m < n ensures InOrder(s[..n], k, m) {
      assert InOrder(s, k, m);
    }
  }

  /** Elements of the first n positions only: what the list shows. */
  lemma PrefixRearranged(after: seq<int>, before: seq<int>, n: nat)
    requires Rearranged(after, before, 0, n)
    ensures multiset(after[..n]) == multiset(before[..n])
  {
    assert after[0..n] == after[..n] && before[0..n] == before[..n];
  }
}

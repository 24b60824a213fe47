/** ArrayList of src/include/List.h, as the kernel's queues use it. Elements stand for pointers. */
module ArrayList {
  import opened PowersOfTwo
  import opened ArenaSizes
  import opened Sorting
  import opened Sequences

  const FIRST_CAPACITY: nat := 20

  /** The capacity after k doublings. */
  ghost function CapacityAfter(k: nat): nat {
    20 * Pow2(k)
  }

  const POINTER_SIZE: nat := 8

  /** The pointers that fit the heap slot behind an array of this capacity, 20 times a power of two. */
  function StoreLength(capacity: nat): (n: nat) {
    capacity / 5 * 8
  }

  lemma StoreLengthOf(k: nat)
    ensures StoreLength(CapacityAfter(k)) == 32 * Pow2(k)
    ensures CapacityAfter(k + 1) == 2 * CapacityAfter(k)
  {
    Quotient(Pow2(k));
  }

  lemma Quotient(p: nat)
    ensures 20 * p / 5 * 8 == 32 * p
  {
    assert 20 * p == 5 * (4 * p);
  }

  /** Any slot the heap grants for the array is that long. */
  lemma StoreIsSlot(order: nat, k: nat, depth: nat)
    requires FitsDepth(order, POINTER_SIZE * CapacityAfter(k), depth)
    ensures DepthSize(order, depth) == POINTER_SIZE * StoreLength(CapacityAfter(k))
  {
    StoreLengthOf(k);
    var d := order - depth;
    SixtyFour(d);
    SixtyFour(k);
    Between(d + 6, k + 6);
  }

  /** Between 5/2 and 5 times a power of two lies one power of two only. */
  lemma Between(a: nat, b: nat)
    requires 5 * Pow2(b) <= 2 * Pow2(a) < 10 * Pow2(b)
    ensures a == b + 2 && Pow2(a) == 4 * Pow2(b)
  {
    assert Pow2(b + 1) == 2 * Pow2(b);
    assert Pow2(b + 2) == 2 * Pow2(b + 1);
    assert Pow2(b + 3) == 2 * Pow2(b + 2);
    if a <= b + 1 {
      Pow2Monotone(a, b + 1);
    } else if a >= b + 3 {
      Pow2Monotone(b + 3, a);
    }
  }

  // ----- binary search over sorted elements -----

  /** How many elements are smaller. */
  ghost function Rank(s: seq<int>, x: int): (r: nat)
    ensures r <= |s|
  {
    if s == [] then 0 else Rank(s[..|s| - 1], x) + (if s[|s| - 1] < x then 1 else 0)
  }

  /**
   Whether the search in a range of n elements, r of them smaller than the one sought, reports an
   absent element as absent: it must end on an empty range, because it accepts a single element
   without looking at it.
   */
  predicate RejectsAbsent(n: nat, r: nat)
    requires r <= n
    decreases n
  {
    if n == 0 then true
    else if n == 1 then false
    else
      var middle := (n - 1) / 2;
      if r <= middle then RejectsAbsent(middle, r) else RejectsAbsent(n - 1 - middle, r - 1 - middle)
  }

  /** A list of 2^k - 1 elements never reports an absent element as absent. */
  lemma {:induction false} NeverRejects(k: nat, r: nat)
    requires k >= 1 && r <= Pow2(k) - 1
    ensures !RejectsAbsent(Pow2(k) - 1, r)
    decreases k
  {
    var half := Pow2(k - 1);
    assert Pow2(k) == 2 * half;
    if k > 1 {
      assert Pow2(k - 1) == 2 * Pow2(k - 2);
      assert (2 * half - 1 - 1) / 2 == half - 1;
      if r <= half - 1 {
        NeverRejects(k - 1, r);
      } else {
        NeverRejects(k - 1, r - half);
      }
    }
  }

  /** Sizes of the form 2^k - 1: every range the search halves to has one element in the end. */
  ghost predicate Full(n: nat) {
    exists k: nat :: k >= 1 && n == Pow2(k) - 1
  }

  lemma OddSize(k: nat)
    requires k >= 1
    ensures (Pow2(k) - 1) % 2 == 1
  {
    var half := Pow2(k - 1);
    assert Pow2(k) == 2 * half;
  }

  lemma FullJoins(n: nat)
    requires n >= 2 && Full((n - 1) / 2) && Full(n - 1 - (n - 1) / 2)
    ensures Full(n)
  {
    var left, right := (n - 1) / 2, n - 1 - (n - 1) / 2;
    var a: nat :| a >= 1 && left == Pow2(a) - 1;
    var b: nat :| b >= 1 && right == Pow2(b) - 1;
    OddSize(a);
    OddSize(b);
    OddHalves(n, left, right);
    var half := Pow2(a);
    assert Pow2(a + 1) == 2 * half;
  }

  lemma OddHalves(n: nat, left: nat, right: nat)
    requires n >= 2 && left == (n - 1) / 2 && right == n - 1 - left && left % 2 == 1 == right % 2
    ensures n == 2 * left + 1
  {
  }

  /** In a list of any other size some absent element is reported as absent. */
  lemma {:induction false} SomeRejected(n: nat) returns (r: nat)
    requires !Full(n)
    ensures r <= n && RejectsAbsent(n, r)
    decreases n
  {
    r := 0;
    if n >= 1 {
      assert n != 1 by { assert Pow2(1) == 2; }
      var middle := (n - 1) / 2;
      assert Full(middle) && Full(n - 1 - middle) ==> Full(n) by {
        if n >= 2 && Full(middle) && Full(n - 1 - middle) {
          FullJoins(n);
        }
      }
      if !Full(middle) {
        r := SomeRejected(middle);
      } else {
        r := SomeRejected(n - 1 - middle);
        r := r + 1 + middle;
      }
    }
  }

  /** An absent element larger than r of n is taken for another one. */
  predicate Mistaken(n: nat, r: nat)
    requires r <= n
  {
    !RejectsAbsent(n, r)
  }

  /** The sizes of the lists in which every absent element is taken for another one are exactly these. */
  lemma AlwaysMistaken(n: nat)
    ensures Full(n) <==> forall r: nat | r <= n :: Mistaken(n, r)
  {
    if Full(n) {
      var k: nat :| k >= 1 && n == Pow2(k) - 1;
      forall r: nat | r <= n ensures Mistaken(n, r) {
        NeverRejects(k, r);
      }
    } else {
      var r := SomeRejected(n);
      assert !Mistaken(n, r);
    }
  }

  class ArrayList {
    var store: array<int>
    var size: nat
    var capacity: nat
    var sorted: bool
    ghost var doublings: nat

    ghost predicate Valid()
      reads this, store
    {
      && capacity == CapacityAfter(doublings)
      && store.Length == StoreLength(capacity)
      && size <= capacity + 1
      && (sorted ==> Sorted(Contents()))
    }

    ghost function Contents(): (s: seq<int>)
      reads this, store
    {
      if size <= store.Length then store[..size] else []
    }

    /** The store has room for two elements more than the capacity says. */
    lemma Roomy()
      requires Valid()
      ensures capacity + 2 <= store.Length && Contents() == store[..size]
    {
      StoreLengthOf(doublings);
    }

    /** The constructor leaves the flag as it finds it in memory. */
    constructor (uninitialised: bool)
      ensures Valid() && Contents() == [] && fresh(store) && sorted == uninitialised
    {
      store := new int[StoreLength(FIRST_CAPACITY)];
      capacity := FIRST_CAPACITY;
      size := 0;
      sorted := uninitialised;
      doublings := 0;
    }

    method Reallocate()
      requires Valid()
      modifies this
      ensures Valid() && fresh(store)
      ensures Contents() == old(Contents()) && size == old(size) && sorted == old(sorted)
      ensures capacity == 2 * old(capacity)
    {
      Roomy();
      StoreLengthOf(doublings);
      StoreLengthOf(doublings + 1);
      ghost var before := Contents();
      capacity := capacity * 2;
      doublings := doublings + 1;
      var temp := new int[StoreLength(capacity)];
      for i := 0 to size
        invariant size == old(size) && sorted == old(sorted)
        invariant capacity == 2 * old(capacity) && doublings == old(doublings) + 1
        invariant store == old(store) && store[..] == old(store[..])
        invariant temp[..i] == store[..i]
      {
        temp[i] := store[i];
        assert temp[..i + 1] == temp[..i] + [temp[i]];
        assert store[..i + 1] == store[..i] + [store[i]];
      }
      store := temp;
      assert store[..size] == before;
    }

    /** The store grows one element late: only when the size is already one above the capacity. */
    method Add(element: int)
      requires Valid()
      modifies this, store
      ensures Valid() && !sorted
      ensures Contents() == old(Contents()) + [element]
      ensures if old(size) == old(capacity) + 1 then capacity == 2 * old(capacity) && fresh(store)
              else capacity == old(capacity) && store == old(store)
    {
      if size - 1 == capacity {
        Reallocate();
      }
      Roomy();
      ghost var before := store[..size];
      store[size] := element;
      size := size + 1;
      sorted := false;
      assert store[..size] == before + [element];
    }

    /**
     Elements behind the index move down by one; the last move reads one past the end. The pointer
     that is returned shows the place `at`, and so the element that has moved there.
     */
    method Remove(index: int) returns (removed: bool, at: nat)
      requires Valid()
      modifies this`size, store
      ensures Valid()
      ensures removed ==> at == index < old(store.Length) - 1 && store[at] == old(store[index + 1])
      ensures removed <==> 0 <= index < old(size)
      ensures Contents() == if removed then Without(old(Contents()), index) else old(Contents())
    {
      Roomy();
      removed, at := index < size && index >= 0, 0;
      if removed {
        at := index;
        ghost var before := store[..];
        CloseGap(index);
        RemovedAt(store[..], before, index, size);
        size := size - 1;
      }
    }

    /** binarySearch between two indices, both included. */
    function SearchBetween(element: int, index1: int, index2: int): (index: int)
      requires 0 <= index1 && index2 < size <= store.Length
      reads this, store
      decreases index2 - index1
    {
      if index1 < index2 then
        var pivot := (index1 + index2) / 2;
        if element < store[pivot] then SearchBetween(element, index1, pivot - 1)
        else if element > store[pivot] then SearchBetween(element, pivot + 1, index2)
        else pivot
      else if index1 == index2 then index1
      else -1
    }

    function BinarySearch(element: int): (index: int)
      requires size <= store.Length
      reads this, store
    {
      if sorted then SearchBetween(element, 0, size - 1) else -1
    }

    /** An element of a sorted list is found, wherever in the list it stands. */
    lemma {:induction false} SearchFinds(element: int, index1: int, index2: int, k: int)
      requires 0 <= index1 <= k <= index2 < size <= store.Length
      requires Sorted(store[..size]) && store[k] == element
      ensures index1 <= SearchBetween(element, index1, index2) <= index2
      ensures store[SearchBetween(element, index1, index2)] == element
      decreases index2 - index1
    {
      if index1 < index2 {
        var pivot := (index1 + index2) / 2;
        assert store[..size][pivot] == store[pivot] && store[..size][k] == store[k];
        assert k < pivot ==> InOrder(store[..size], k, pivot);
        assert pivot < k ==> InOrder(store[..size], pivot, k);
        if element < store[pivot] {
          SearchFinds(element, index1, pivot - 1, k);
        } else if element > store[pivot] {
          SearchFinds(element, pivot + 1, index2, k);
        }
      }
    }

    /** r is how many of the elements between the indices are smaller; the others are larger. */
    ghost predicate AbsentWithRank(element: int, index1: int, index2: int, r: nat)
      requires 0 <= index1 && index2 < size <= store.Length
      reads this, store
    {
      && index1 + r <= index2 + 1
      && forall k {:trigger store[k]} | index1 <= k <= index2 ::
           store[k] != element && (store[k] < element <==> k < index1 + r)
    }

    /** Whether the search reports an absent element depends on size and rank alone. */
    lemma {:induction false} SearchRejects(element: int, index1: int, index2: int, r: nat)
      requires 0 <= index1 <= index2 + 1 <= size <= store.Length
      requires AbsentWithRank(element, index1, index2, r)
      ensures SearchBetween(element, index1, index2) == -1 <==> RejectsAbsent(index2 - index1 + 1, r)
      ensures SearchBetween(element, index1, index2) != -1 ==>
                index1 <= SearchBetween(element, index1, index2) <= index2
      decreases index2 - index1
    {
      if index1 < index2 {
        var pivot := (index1 + index2) / 2;
        MiddleOffset(index1, index2);
        RankHalves(element, index1, index2, pivot, r);
        if r <= pivot - index1 {
          SearchRejects(element, index1, pivot - 1, r);
        } else {
          SearchRejects(element, pivot + 1, index2, r - 1 - (pivot - index1));
        }
      }
    }

    lemma RankHalves(element: int, index1: int, index2: int, pivot: int, r: nat)
      requires 0 <= index1 <= pivot <= index2 < size <= store.Length
      requires AbsentWithRank(element, index1, index2, r)
      ensures if r <= pivot - index1
              then element < store[pivot] && AbsentWithRank(element, index1, pivot - 1, r)
              else element > store[pivot] && AbsentWithRank(element, pivot + 1, index2, r - 1 - (pivot - index1))
    {
      assert store[pivot] != element && (store[pivot] < element <==> pivot < index1 + r);
    }

    /** In a sorted list the smaller elements come first, so an absent element has its rank. */
    lemma RankSplits(element: int)
      requires size <= store.Length && Sorted(store[..size]) && element !in store[..size]
      ensures AbsentWithRank(element, 0, size - 1, Rank(store[..size], element))
    {
      RankOfSorted(store[..size], element);
      forall k {:trigger store[k]} | 0 <= k <= size - 1
        ensures store[k] != element && (store[k] < element <==> k < Rank(store[..size], element))
      {
        assert store[..size][k] == store[k];
      }
    }

    /** The smallest input for which an absent element is reported as found. */
    lemma SingleAccepted(element: int)
      requires Valid() && sorted && Contents() == [5] && element == 7
      ensures element !in Contents() && BinarySearch(element) == 0
    {
      Roomy();
      assert Contents() == store[..1];
    }

    /**
     removeElement. A present element of a sorted list is removed, once. An absent one is reported
     as absent exactly when the search ends on an empty range; otherwise another element goes.
     */
    method RemoveElement(element: int) returns (found: bool, ghost index: int)
      requires Valid()
      modifies this`size, store
      ensures Valid()
      ensures found <==> 0 <= index < old(size)
      ensures Contents() == if found then Without(old(Contents()), index) else old(Contents())
      ensures !sorted ==> !found
      ensures sorted && element in old(Contents()) ==> found && old(Contents())[index] == element
      ensures sorted && element !in old(Contents()) ==>
                (found <==> !RejectsAbsent(old(size), Rank(old(Contents()), element)))
    {
      Roomy();
      SearchOutcome(element);
      var at := BinarySearch(element);
      index := at;
      found := false;
      if at >= 0 && at < size {
        var place;
        found, place := Remove(at);
      }
    }

    /** What the search answers for a present and for an absent element. */
    lemma SearchOutcome(element: int)
      requires Valid()
      ensures size <= store.Length
      ensures var at := BinarySearch(element);
              && -1 <= at < size
              && (!sorted ==> at == -1)
              && (sorted && element in Contents() ==> at >= 0 && Contents()[at] == element)
              && (sorted && element !in Contents() ==>
                  (at == -1 <==> RejectsAbsent(size, Rank(Contents(), element))))
    {
      Roomy();
      if sorted {
        if element in Contents() {
          SearchPresent(element);
        } else {
          SearchAbsent(element);
        }
      }
    }

    lemma SearchPresent(element: int)
      requires size <= store.Length && sorted && Sorted(store[..size]) && element in store[..size]
      ensures 0 <= BinarySearch(element) < size && store[BinarySearch(element)] == element
    {
      var k :| 0 <= k < size && store[..size][k] == element;
      SearchFinds(element, 0, size - 1, k);
    }

    lemma SearchAbsent(element: int)
      requires size <= store.Length && sorted && Sorted(store[..size]) && element !in store[..size]
      ensures -1 <= BinarySearch(element) < size
      ensures BinarySearch(element) == -1 <==> RejectsAbsent(size, Rank(store[..size], element))
    {
      RankSplits(element);
      SearchRejects(element, 0, size - 1, Rank(store[..size], element));
    }

    method CloseGap(index: nat)
      requires index < size < store.Length
      modifies store
      ensures Closed(store[..], old(store[..]), index, size)
    {
      ghost var before := store[..];
      for i := index to size
        invariant Closed(store[..], before, index, i)
      {
        ghost var here := store[..];
        store[i] := store[i + 1];
        CloseOne(store[..], here, before, index, i);
      }
    }

    // ----- sorting in place -----

    method Move(index1: int, index2: int) returns (moved: bool)
      requires size <= store.Length
      modifies this`sorted, store
      ensures moved <==> 0 <= index1 < size && 0 <= index2 < size
      ensures moved ==> store[..] == old(store[..])[index1 := old(store[index2])][index2 := old(store[index1])]
      ensures !moved ==> store[..] == old(store[..]) && sorted == old(sorted)
    {
      moved := index1 >= 0 && index2 >= 0 && index1 < size && index2 < size;
      if moved {
        store[index1], store[index2] := store[index2], store[index1];
        sorted := false;
      }
    }

    /** A swap within the range lo..end-1, which some rearrangement led to from `start`. */
    method Swap(i: nat, j: nat, ghost lo: nat, ghost end: nat, ghost start: seq<int>)
      requires lo <= i < end && lo <= j < end && end <= size <= store.Length
      requires Rearranged(store[..], start, lo, end)
      modifies this`sorted, store
      ensures Rearranged(store[..], start, lo, end)
      ensures store[i] == old(store[j]) && store[j] == old(store[i])
      ensures forall k | 0 <= k < store.Length && k != i && k != j :: store[k] == old(store[k])
    {
      var moved := Move(i, j);
      Swapped(start, old(store[..]), store[..], lo, end, i, j);
    }

    /** A swap that leaves a third element where it is. */
    method SwapBeside(i: nat, j: nat, ghost other: nat, ghost lo: nat, ghost end: nat, ghost start: seq<int>)
      requires lo <= i < end && lo <= j < end && end <= size <= store.Length
      requires other < store.Length && other != i && other != j
      requires Rearranged(store[..], start, lo, end)
      modifies this`sorted, store
      ensures Rearranged(store[..], start, lo, end)
      ensures store[i] == old(store[j]) && store[j] == old(store[i]) && store[other] == old(store[other])
    {
      Swap(i, j, lo, end, start);
    }

    /** A swap when the element at i is the larger one. */
    method SwapLarger(i: nat, j: nat, ghost other: nat, ghost lo: nat, ghost end: nat, ghost start: seq<int>)
      requires lo <= i < end && lo <= j < end && end <= size <= store.Length && i != j
      requires other < store.Length && other != i && other != j
      requires Rearranged(store[..], start, lo, end)
      modifies this`sorted, store
      ensures Rearranged(store[..], start, lo, end)
      ensures store[i] <= store[j] && store[i] <= old(store[i]) && store[other] == old(store[other])
      ensures store[i] == old(store[i]) || store[i] == old(store[j])
      ensures store[j] == old(store[j]) || store[j] == old(store[i])
    {
      if store[i] > store[j] {
        SwapBeside(i, j, other, lo, end, start);
      }
    }

    /** The three comparisons: smallest, median and largest come to the left, centre and right. */
    method OrderThree(index1: nat, center: nat, index2: nat, ghost start: seq<int>)
      requires index1 < center < index2 < size <= store.Length
      requires Rearranged(store[..], start, index1, index2 + 1)
      modifies this`sorted, store
      ensures Rearranged(store[..], start, index1, index2 + 1)
      ensures store[index1] <= store[center] <= store[index2]
    {
      SwapLarger(index1, center, index2, index1, index2 + 1, start);
      SwapLarger(index1, index2, center, index1, index2 + 1, start);
      SwapLarger(center, index2, index1, index1, index2 + 1, start);
    }

    /** The median of three goes to the last place but one; the outer two bound it. */
    method ChoosePivot(index1: nat, index2: nat, ghost start: seq<int>) returns (pivot: int)
      requires index1 + 10 <= index2 < size <= store.Length
      requires Rearranged(store[..], start, index1, index2 + 1)
      modifies this`sorted, store
      ensures Rearranged(store[..], start, index1, index2 + 1)
      ensures store[index1] <= pivot <= store[index2] && store[index2 - 1] == pivot
    {
      var center := (index1 + index2) / 2;
      assert index1 < center < index2 - 1;
      OrderThree(index1, center, index2, start);
      MovePivot(index1, center, index2, start);
      pivot := store[index2 - 1];
    }

    method MovePivot(index1: nat, center: nat, index2: nat, ghost start: seq<int>)
      requires index1 < center < index2 - 1 < index2 < size <= store.Length
      requires Rearranged(store[..], start, index1, index2 + 1)
      modifies this`sorted, store
      ensures Rearranged(store[..], start, index1, index2 + 1)
      ensures store[index2 - 1] == old(store[center])
      ensures store[index1] == old(store[index1]) && store[index2] == old(store[index2])
    {
      Swap(center, index2 - 1, index1, index2 + 1, start);
    }

    /** The upward scan stops at the latest on the pivot. */
    method ScanUp(start: nat, pivot: int, ghost last: nat) returns (i: nat)
      requires start < last < store.Length && store[last] == pivot
      ensures start < i <= last && store[i] >= pivot
      ensures forall k | start < k < i :: store[k] < pivot
    {
      i := start + 1;
      while store[i] < pivot
        invariant start < i <= last
        invariant forall k | start < k < i :: store[k] < pivot
        decreases last - i
      {
        i := i + 1;
      }
    }

    /** The downward scan stops at the latest on an element no larger than the pivot. */
    method ScanDown(start: nat, pivot: int, ghost first: nat) returns (j: nat)
      requires first < start <= store.Length && store[first] <= pivot
      ensures first <= j < start && store[j] <= pivot
      ensures forall k | j < k < start :: store[k] > pivot
    {
      j := start - 1;
      while store[j] > pivot
        invariant first <= j < start
        invariant forall k | j < k < start :: store[k] > pivot
        decreases j
      {
        j := j - 1;
      }
    }

    /** The loop of quickSort: scan from both ends and swap, until the scans meet. */
    method Partition(index1: nat, index2: nat, pivot: int, ghost start: seq<int>) returns (i: nat)
      requires index1 + 10 <= index2 < size <= store.Length
      requires store[index1] <= pivot <= store[index2] && store[index2 - 1] == pivot
      requires Rearranged(store[..], start, index1, index2 + 1)
      modifies this`sorted, store
      ensures Rearranged(store[..], start, index1, index2 + 1)
      ensures index1 < i < index2 && store[i] >= pivot && store[index2 - 1] == pivot
      ensures AtMost(store[..], index1, i, pivot) && AtLeast(store[..], i, index2 + 1, pivot)
    {
      var j: nat := index2 - 1;
      i := index1;
      while true
        invariant Scanned(store[..], index1, i, j, index2 + 1, pivot)
        invariant Rearranged(store[..], start, index1, index2 + 1)
        decreases j - i
      {
        var up := ScanUp(i, pivot, index2 - 1);
        var down := ScanDown(j, pivot, i);
        if up < down {
          SwapScanned(i, j, up, down, index1, index2 + 1, pivot, start);
          i, j := up, down;
        } else {
          ScansMet(store[..], index1, i, j, index2 + 1, pivot, up, down);
          i := up;
          return;
        }
      }
    }

    method SwapScanned(ghost i: nat, ghost j: nat, up: nat, down: nat, ghost lo: nat, ghost end: nat,
                       ghost pivot: int, ghost start: seq<int>)
      requires end <= size <= store.Length && i < up < down < j
      requires Scanned(store[..], lo, i, j, end, pivot) && Rearranged(store[..], start, lo, end)
      requires forall k | i < k < up :: store[k] < pivot
      requires forall k | down < k < j :: store[k] > pivot
      requires store[up] >= pivot && store[down] <= pivot
      modifies this`sorted, store
      ensures Scanned(store[..], lo, up, down, end, pivot) && Rearranged(store[..], start, lo, end)
    {
      ghost var before := store[..];
      Swap(up, down, lo, end, start);
      ScannedOn(before, store[..], lo, i, j, end, pivot, up, down);
    }

    method InsertionSort(index1: int, index2: int)
      requires 0 <= index1 <= index2 + 1 <= size <= store.Length
      requires Split(store[..], index1, index2 + 1)
      modifies store
      ensures Rearranged(store[..], old(store[..]), index1, index2 + 1)
      ensures SortedRange(store[..], index1, index2 + 1)
    {
      if index1 < index2 && index1 >= 0 && index1 < size && index2 >= 0 && index2 < size {
        ghost var start, end := store[..], index2 + 1;
        ghost var now := start;
        NothingSorted(start, index1, end);
        for i := index1 to index2 + 1
          invariant now == store[..] && PartlySorted(now, start, index1, i, end)
        {
          ghost var before := now;
          InsertDown(i, index1);
          now := store[..];
          OneMoreSorted(start, before, now, index1, i, end);
        }
      } else {
        ShortIsSorted(store[..], index1, index2 + 1);
      }
    }

    /**
     The inner loop of insertionSort. It may run down to position 0, but stops at `first` because
     nothing before it is larger than the element.
     */
    method InsertDown(i: nat, ghost first: nat)
      requires first <= i < size <= store.Length
      requires Split(store[..], first, i + 1) && SortedRange(store[..], first, i)
      modifies store
      ensures Rearranged(store[..], old(store[..]), first, i + 1)
      ensures SortedRange(store[..], first, i + 1)
    {
      ghost var before := store[..];
      ghost var j := ShiftUp(i, first);
      InsertedIsRearranged(store[..], before, first, j, i);
      InsertedIsSorted(store[..], before, first, j, i);
    }

    method ShiftUp(i: nat, ghost first: nat) returns (ghost place: nat)
      requires first <= i < size <= store.Length
      requires Split(store[..], first, i + 1)
      modifies store
      ensures first <= place && Inserted(store[..], old(store[..]), place, i)
      ensures place == first || old(store[..])[place - 1] <= old(store[..])[i]
      ensures forall k | place <= k < i :: old(store[..])[i] < old(store[..])[k]
    {
      ghost var before := store[..];
      var element := store[i];
      var j := i;
      while j >= 0
        invariant first <= j <= i
        invariant forall k | j <= k < i :: element < before[k]
        invariant MovedUp(store[..], before, j, i)
        decreases j
      {
        ghost var here := store[..];
        if j == 0 || store[j - 1] <= element {
          store[j] := element;
          InsertionDone(here, store[..], before, j, i);
          break;
        } else {
          assert j == first ==> InOrder(before, j - 1, i);
          store[j] := store[j - 1];
          MoveUpOne(here, store[..], before, j, i);
          j := j - 1;
        }
      }
      place := j;
    }

    /** quickSort between two indices, when nothing before the first is larger than what follows. */
    method QuickSortBetween(index1: int, index2: int)
      requires 0 <= index1 <= index2 + 1 <= size <= store.Length
      requires Split(store[..], index1, index2 + 1)
      modifies this`sorted, store
      ensures Rearranged(store[..], old(store[..]), index1, index2 + 1)
      ensures SortedRange(store[..], index1, index2 + 1)
      decreases index2 + 1 - index1
    {
      if index2 - index1 >= 10 {
        ghost var start, end := store[..], index2 + 1;
        var i := PlacePivot(index1, index2);
        ghost var placed := store[..];
        PartitionSplits(placed, index1, i, end);
        QuickSortBetween(index1, i - 1);
        ghost var left := store[..];
        LeftSorted(start, placed, left, index1, i, end);
        QuickSortBetween(i + 1, index2);
        RightSorted(start, left, store[..], index1, i, end);
      } else {
        InsertionSort(index1, index2);
      }
    }

    /** Pivot, partition, and the swap that puts the pivot between the two parts. */
    method PlacePivot(index1: nat, index2: nat) returns (i: nat)
      requires index1 + 10 <= index2 < size <= store.Length
      requires Split(store[..], index1, index2 + 1)
      modifies this`sorted, store
      ensures Rearranged(store[..], old(store[..]), index1, index2 + 1)
      ensures index1 < i < index2 && Partitioned(store[..], index1, i, index2 + 1)
      ensures Split(store[..], index1, index2 + 1)
    {
      ghost var start, end := store[..], index2 + 1;
      i := SplitRange(index1, index2, start);
      SplitKept(store[..], start, index1, end);
    }

    method SplitRange(index1: nat, index2: nat, ghost start: seq<int>) returns (i: nat)
      requires index1 + 10 <= index2 < size <= store.Length
      requires Rearranged(store[..], start, index1, index2 + 1)
      modifies this`sorted, store
      ensures Rearranged(store[..], start, index1, index2 + 1)
      ensures index1 < i < index2 && Partitioned(store[..], index1, i, index2 + 1)
    {
      var pivot := ChoosePivot(index1, index2, start);
      i := Partition(index1, index2, pivot, start);
      ghost var met := store[..];
      Swap(i, index2 - 1, index1, index2 + 1, start);
      PivotPlaced(met, store[..], index1, i, index2 + 1, pivot);
    }

    /** The list is sorted afterwards and holds the same elements. */
    method QuickSort()
      requires Valid()
      modifies this`sorted, store
      ensures Valid() && sorted && size == old(size)
      ensures Sorted(Contents()) && multiset(Contents()) == multiset(old(Contents()))
    {
      Roomy();
      QuickSortBetween(0, size - 1);
      PrefixRearranged(store[..], old(store[..]), size);
      PrefixSorted(store[..], size);
      assert store[..][..size] == store[..size];
      assert old(store[..])[..size] == old(store[..size]);
      sorted := true;
    }
  }

  lemma MiddleOffset(index1: int, index2: int)
    requires 0 <= index1 <= index2
    ensures (index1 + index2) / 2 - index1 == (index2 - index1 + 1 - 1) / 2
    ensures index2 - (index1 + index2) / 2 == index2 - index1 - (index2 - index1 + 1 - 1) / 2
  {
  }

  lemma {:induction false} RankOfSorted(s: seq<int>, x: int)
    requires Sorted(s) && x !in s
    ensures forall k | 0 <= k < |s| :: s[k] < x <==> k < Rank(s, x)
  {
    if s != [] {
      var rest := s[..|s| - 1];
      PrefixSorted(s, |rest|);
      RankOfSorted(rest, x);
      assert forall k | 0 <= k < |rest| :: s[k] == rest[k];
      assert s[|s| - 1] != x;
      assert |rest| > 0 ==> InOrder(s, |rest| - 1, |s| - 1);
      forall k | 0 <= k < |s| ensures s[k] < x <==> k < Rank(s, x) {
        assert k < |s| - 1 ==> InOrder(s, k, |s| - 1);
      }
    }
  }

  /** The elements behind index, up to position n, have moved down by one. */
  ghost predicate Closed(after: seq<int>, before: seq<int>, index: nat, n: nat) {
    && |after| == |before| && n < |before|
    && forall k {:trigger after[k]} | 0 <= k < |after| ::
         after[k] == if index <= k < n then before[k + 1] else before[k]
  }

  lemma CloseOne(after: seq<int>, here: seq<int>, before: seq<int>, index: nat, n: nat)
    requires index <= n && n + 1 < |before| && Closed(here, before, index, n)
    requires after == here[n := here[n + 1]]
    ensures Closed(after, before, index, n + 1)
  {
    assert here[n + 1] == before[n + 1];
  }

  lemma RemovedAt(after: seq<int>, before: seq<int>, index: nat, n: nat)
    requires index < n && Closed(after, before, index, n)
    ensures after[..n - 1] == Without(before[..n], index)
    ensures Sorted(before[..n]) ==> Sorted(after[..n - 1])
  {
    WithoutSorted(before[..n], index);
    var rest := before[..n][index + 1..];
    assert after[..index] == before[..index];
    assert after[index..n - 1] == rest by {
      forall k | 0 <= k < |rest| ensures after[index + k] == rest[k] {
        assert rest[k] == before[index + k + 1];
      }
    }
    assert after[..n - 1] == after[..index] + after[index..n - 1];
  }

  lemma WithoutSorted(s: seq<int>, index: nat)
    requires index < |s|
    ensures Sorted(s) ==> Sorted(Without(s, index))
    ensures multiset(Without(s, index)) == multiset(s) - multiset{s[index]}
  {
    assert s == s[..index] + [s[index]] + s[index + 1..];
    var rest := Without(s, index);
    if Sorted(s) {
      forall k, m | 0 <= k < m < |rest| ensures InOrder(rest, k, m) {
        WithoutAt(s, index, k);
        WithoutAt(s, index, m);
        assert InOrder(s, if k < index then k else k + 1, if m < index then m else m + 1);
      }
    }
  }
}

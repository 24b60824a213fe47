/**
 The second half of buddy_realloc on values: a node has been released, another is searched and marked,
 and the bytes are moved. What that amounts to depends on what the released node was.
 */
module Reallocation {
  import opened TreeShape
  import opened TreeStatus
  import opened TreeMisuse
  import opened Slots
  import opened ArenaSizes
  import opened Bytes

  /** The search at the depth that fits the request; when it finds nothing, the released node n is the one marked. */
  ghost predicate LandsOn(order: nat, leftBias: bool, st: map<nat, nat>, n: nat, requested: nat, found: bool, slot: nat)
    requires Domain(order, st)
  {
    exists d {:trigger FitsDepth(order, requested, d)} ::
      FitsDepth(order, requested, d) && SearchedAt(order, leftBias, st, n, d, found, slot)
  }

  ghost predicate SearchedAt(order: nat, leftBias: bool, st: map<nat, nat>, n: nat, d: nat, found: bool, slot: nat)
    requires Domain(order, st) && 1 <= d <= order
  {
    RootOfTree(order);
    var q := Descend(order, st, leftBias, 1, d - 1);
    (found <==> q != 0) && slot == if q == 0 then n else q
  }

  /** With nothing found it is the released node. */
  lemma OrElse(order: nat, leftBias: bool, st: map<nat, nat>, n: nat, requested: nat, q: nat)
    requires Domain(order, st) && LandsOn(order, leftBias, st, 0, requested, q != 0, q)
    ensures LandsOn(order, leftBias, st, n, requested, q != 0, if q == 0 then n else q)
  {
    var d: nat :| FitsDepth(order, requested, d) && SearchedAt(order, leftBias, st, 0, d, q != 0, q);
    assert SearchedAt(order, leftBias, st, n, d, q != 0, if q == 0 then n else q);
  }

  /** The move between two slots would touch bytes behind the end of the arena. */
  ghost predicate LeavesArena(order: nat, memorySize: nat, from: nat, dest: nat)
    requires InTree(order, from) && InTree(order, dest)
  {
    var n := SmallerSize(order, from, dest);
    SlotOffset(order, from) + n > memorySize || SlotOffset(order, dest) + n > memorySize
  }

  /** The move itself; one that leaves the arena is said to be wild, and its effect is not described. */
  ghost predicate MovedSlot(order: nat, memorySize: nat, from: nat, dest: nat, wild: bool,
                            after: seq<bv8>, before: seq<bv8>)
    requires InTree(order, from) && InTree(order, dest) && memorySize <= |before|
  {
    && |after| == |before|
    && (wild <==> LeavesArena(order, memorySize, from, dest))
    && (!wild ==>
        Moved(after, before, SlotOffset(order, dest), SlotOffset(order, from), SmallerSize(order, from, dest)))
  }

  /** Search, move and mark, whatever the statuses say about the released node n. */
  ghost predicate Relocated(order: nat, leftBias: bool, main: nat, memorySize: nat, st: map<nat, nat>, n: nat,
                            address: nat, requested: nat, slot: nat, r: nat, wild: bool, st': map<nat, nat>,
                            after: seq<bv8>, before: seq<bv8>)
    requires Domain(order, st) && InTree(order, n) && memorySize <= |before|
  {
    && LandsOn(order, leftBias, st, n, requested, r != 0, slot)
    && InTree(order, slot) && st' == Marked(order, st, slot)
    && (r != 0 ==> r == if slot == n then address else main + SlotOffset(order, slot))
    && if slot == n then !wild && after == before
       else MovedSlot(order, memorySize, n, slot, wild, after, before)
  }

  /** A free slot that would be handed out lies in the arena. */
  lemma FreeSlotFits(order: nat, live: set<nat>, virt: set<nat>, memorySize: nat, q: nat)
    requires Arena(order, live, virt, memorySize) && WhollyFree(order, live, q)
    ensures SlotOffset(order, q) + SlotSize(order, q) <= memorySize
  {
    AddedIsApart(order, live, q);
    SlotInArena(order, live + {q}, virt, memorySize, q);
  }

  lemma MarkFree(order: nat, live: set<nat>, st: map<nat, nat>, q: nat)
    requires Antichain(order, live) && Consistent(order, live, st) && WhollyFree(order, live, q)
    ensures Antichain(order, live + {q}) && Consistent(order, live + {q}, Marked(order, st, q))
  {
    MarkOne(order, live, st, q);
    ChainRepairs(order, live + {q}, st[q := Height(order, q)], q);
  }

  /** The search over statuses that are right. */
  lemma LandsFree(order: nat, leftBias: bool, live: set<nat>, st: map<nat, nat>, n: nat, requested: nat,
                  found: bool, slot: nat)
    requires Antichain(order, live) && Consistent(order, live, st)
    requires LandsOn(order, leftBias, st, n, requested, found, slot)
    ensures found <==> !NoRoom(order, live, requested)
    ensures !found ==> slot == n
    ensures found ==> Granted(order, live, requested, leftBias, slot) && WhollyFree(order, live, slot)
  {
    var d :| FitsDepth(order, requested, d) && SearchedAt(order, leftBias, st, n, d, found, slot);
    SearchGrants(order, live, st, requested, leftBias, d);
  }

  /** The released node was marked, and not virtual: the granted slot replaces it. */
  lemma RelocatedLive(order: nat, leftBias: bool, main: nat, memorySize: nat, live: set<nat>, virt: set<nat>,
                      st: map<nat, nat>, n: nat, address: nat, requested: nat, slot: nat, r: nat, wild: bool,
                      st': map<nat, nat>, after: seq<bv8>, before: seq<bv8>)
    requires Arena(order, live, virt, memorySize) && Consistent(order, live, st) && WhollyFree(order, live, n)
    requires main != 0 && address != 0 && memorySize <= |before|
    requires Relocated(order, leftBias, main, memorySize, st, n, address, requested, slot, r, wild, st', after, before)
    ensures !wild && Antichain(order, live + {slot}) && Consistent(order, live + {slot}, st')
    ensures Reallocated(order, leftBias, main, live, live - virt, n, address, requested, slot, r,
                        live + {slot}, after, before)
  {
    LandsFree(order, leftBias, live, st, n, requested, r != 0, slot);
    MarkFree(order, live, st, slot);
    FreeSlotFits(order, live, virt, memorySize, n);
    FreeSlotFits(order, live, virt, memorySize, slot);
    if slot == n {
      UnchangedKeepsAll(order, live, virt, memorySize, before);
    } else {
      CopyEffect(order, live, virt, memorySize, n, slot, SlotOffset(order, n), SmallerSize(order, n, slot),
                 after, before);
    }
  }

  /** The released node was virtual: the statuses stay right, but the tail is covered only if it is marked again. */
  lemma RelocatedVirtual(order: nat, leftBias: bool, live: set<nat>, virt: set<nat>, st: map<nat, nat>, v: nat,
                         requested: nat, found: bool, slot: nat)
    requires Antichain(order, live) && virt <= live && v in virt && Consistent(order, live - {v}, st)
    requires LandsOn(order, leftBias, st, v, requested, found, slot)
    ensures InTree(order, slot) && Antichain(order, live - {v} + {slot})
    ensures Consistent(order, live - {v} + {slot}, Marked(order, st, slot))
    ensures virt <= live - {v} + {slot} <==> slot == v
  {
    RemovedIsFree(order, live, v);
    LandsFree(order, leftBias, live - {v}, st, v, requested, found, slot);
    MarkFree(order, live - {v}, st, slot);
  }

  /** The search over the statuses that the release of a partly taken node has left. */
  lemma LandsPartly(order: nat, leftBias: bool, live: set<nat>, st: map<nat, nat>, n: nat, requested: nat,
                    found: bool, slot: nat)
    requires PartlyTaken(order, live, st, n)
    requires InTree(order, 2 * n) && InTree(order, 2 * n + 1) && (st[2 * n] == 0 || st[2 * n + 1] == 0)
    requires LandsOn(order, leftBias, Released(order, st, n), n, requested, found, slot)
    ensures InTree(order, slot)
    ensures var after := Marked(order, Released(order, st, n), slot);
            if Mends(order, live, n, slot)
            then
              && found && slot != n && WhollyFree(order, live, slot) && FitsDepth(order, requested, Depth(slot))
              && Antichain(order, live + {slot}) && Consistent(order, live + {slot}, after)
            else Inexplicable(order, after)
  {
    var before := Released(order, st, n);
    var d: nat :| FitsDepth(order, requested, d) && SearchedAt(order, leftBias, before, n, d, found, slot);
    RootOfTree(order);
    var q := Descend(order, before, leftBias, 1, d - 1);
    MarkedAfterRelease(order, live, st, leftBias, n, 1, d - 1, q, slot);
    NotBelowItself(order, live, n, n);
    if q != 0 {
      DescendBounds(order, before, leftBias, 1, d - 1, q, 1);
    }
  }

  /** The node was only partly taken: the statuses are beyond repair, or a slot below it is handed out. */
  lemma RelocatedPartly(order: nat, leftBias: bool, main: nat, memorySize: nat, live: set<nat>, virt: set<nat>,
                        st: map<nat, nat>, n: nat, address: nat, requested: nat, slot: nat, r: nat, wild: bool,
                        st': map<nat, nat>, after: seq<bv8>, before: seq<bv8>)
    requires Arena(order, live, virt, memorySize) && PartlyTaken(order, live, st, n) && memorySize <= |before|
    requires InTree(order, 2 * n) && InTree(order, 2 * n + 1) && (st[2 * n] == 0 || st[2 * n + 1] == 0)
    requires Relocated(order, leftBias, main, memorySize, Released(order, st, n), n, address, requested, slot, r,
                       wild, st', after, before)
    ensures !Mends(order, live, n, slot) ==> Inexplicable(order, st')
    ensures Mends(order, live, n, slot) ==>
              && Antichain(order, live + {slot}) && Consistent(order, live + {slot}, st')
              && HandsOutPart(order, main, live, virt, n, requested, slot, r, wild, after, before)
  {
    LandsPartly(order, leftBias, live, st, n, requested, r != 0, slot);
    if Mends(order, live, n, slot) {
      PartMoved(order, memorySize, live, virt, n, slot, wild, after, before);
    }
  }

  /** A slot below node n that was free is handed out, filled from the start of n; no other slot loses a byte. */
  ghost predicate HandsOutPart(order: nat, main: nat, live: set<nat>, virt: set<nat>, n: nat, requested: nat,
                               slot: nat, r: nat, wild: bool, after: seq<bv8>, before: seq<bv8>)
    requires InTree(order, n)
  {
    && !wild && slot !in live && InTree(order, slot) && FitsDepth(order, requested, Depth(slot))
    && r != 0 && r == main + SlotOffset(order, slot)
    && KeepsBytes(order, n, slot, after, before)
    && AllKept(order, live - virt, after, before)
  }

  lemma PartMoved(order: nat, memorySize: nat, live: set<nat>, virt: set<nat>, n: nat, slot: nat, wild: bool,
                  after: seq<bv8>, before: seq<bv8>)
    requires Arena(order, live, virt, memorySize) && memorySize <= |before|
    requires InTree(order, n) && WhollyFree(order, live, slot) && Mends(order, live, n, slot)
    requires MovedSlot(order, memorySize, n, slot, wild, after, before)
    ensures !wild && slot !in live && KeepsBytes(order, n, slot, after, before)
    ensures AllKept(order, live - virt, after, before)
  {
    AncChild(n, slot);
    AddedIsApart(order, live, slot);
    FreeSlotFits(order, live, virt, memorySize, slot);
    AncestorsSpan(order, n, slot);
    SpanBounds(order, n);
    CopyEffect(order, live, virt, memorySize, n, slot, SlotOffset(order, n), SmallerSize(order, n, slot),
               after, before);
  }
}

/** The kernel heap: operator new and delete over the buddy allocator, with its free space. */
module KernelHeap {
  import opened PowersOfTwo
  import opened Bits
  import opened TreeShape
  import opened TreeStatus
  import opened TreeTotals
  import opened Slots
  import opened ArenaSizes
  import opened ArenaTotals
  import opened Buddy
  import opened BuddyRuns

  /** KernelHeapAllocator::alloc takes an unsigned int; operator new passes it a size_t. */
  const UNSIGNED: nat := 0x1_0000_0000

  /** One node more or less among the marked ones changes the sum by its own leaves. */
  lemma SumWithout(order: nat, live: set<nat>, p: nat)
    requires order >= 1 && Antichain(order, live) && p in live
    ensures forall a | a in live :: InTree(order, a)
    ensures SumLeaves(order, live) == SumLeaves(order, live - {p}) + Pow2(Height(order, p) - 1)
  {
    forall a | a in live ensures InTree(order, a) {}
    RootOfTree(order);
    RootAnc(p);
    TakenIsSum(order, live);
    TakenIsSum(order, live - {p});
    TakenRemove(order, live, 1, order, p);
  }

  lemma BytesWithout(order: nat, live: set<nat>, p: nat)
    requires order >= 1 && Antichain(order, live) && p in live
    ensures forall a | a in live :: InTree(order, a)
    ensures ALIGN * SumLeaves(order, live) == ALIGN * SumLeaves(order, live - {p}) + SlotSize(order, p)
  {
    SumWithout(order, live, p);
  }

  /** Cutting a size to 32 bits keeps the promise of operator new for exactly the sizes that fit. */
  lemma TruncatedSize(order: nat, size: nat, slot: nat)
    requires InTree(order, slot) && Depth(slot) >= 1 && FitsDepth(order, size % UNSIGNED, Depth(slot))
    ensures SlotSize(order, slot) >= size <==> size < UNSIGNED
  {
    SlotIsDepthSize(order, slot);
    var k := order - Depth(slot);
    SixtyFour(k);
    SmallPowers();
    assert Pow2(33) == 2 * Pow2(32);
    if k + 6 >= 33 {
      Pow2Monotone(33, k + 6);
    } else {
      Pow2Monotone(k + 6, 32);
    }
    assert size == 0x1_0000_0000 * (size / UNSIGNED) + size % UNSIGNED;
  }

  /**
   A method that panics says so; what a panic leaves behind is not modelled. The lock around the calls
   is a matter of Locks, where the cores interleave.
   */
  class KernelHeapAllocator {
    const buddy: Buddy?

    ghost predicate Valid()
      reads this, buddy, if buddy != null then {buddy.tree, buddy.tree.bits} else {}
    {
      buddy != null ==> buddy.Valid()
    }

    constructor (at: nat, start: nat, end: nat, arena: array<bv8>)
      requires start <= end < start + MAX_MEMORY && end <= WORD && arena.Length >= end - start
      ensures Valid() && (buddy != null ==> fresh(buddy))
      ensures buddy == null <==> Refused(at, start, end - start)
      ensures buddy != null ==> buddy.memorySize == (end - start) - (end - start) % ALIGN && buddy.User() == {}
    {
      var b := Init(at, start, end - start, arena);
      buddy := b;
    }

    method FreeSpace() returns (bytes: nat)
      requires Valid() && buddy != null
      ensures bytes == buddy.memorySize - buddy.HandedOut()
    {
      bytes := buddy.ArenaFreeSize();
    }

    method Alloc(size: nat) returns (out: nat, panicked: bool, ghost slot: nat)
      requires Valid() && size < UNSIGNED
      modifies if buddy != null then {buddy.tree, buddy.tree.bits} else {}
      ensures Valid()
      ensures panicked <==> out == NULL
      ensures buddy == null ==> panicked
      ensures buddy != null ==>
                && (panicked <==> size > buddy.memorySize || NoRoom(buddy.tree.order, old(buddy.tree.live), size))
                && (panicked ==> buddy.tree.live == old(buddy.tree.live))
                && (!panicked ==>
                    && PointsTo(buddy, out, slot)
                    && FitsDepth(buddy.tree.order, size, Depth(slot))
                    && buddy.User() == old(buddy.User()) + {slot}
                    && slot !in old(buddy.User())
                    && buddy.HandedOut() == old(buddy.HandedOut()) + SlotSize(buddy.tree.order, slot))
    {
      out, slot := NULL, 0;
      if buddy != null {
        out, slot := MallocCounted(buddy, size);
      }
      panicked := out == NULL;
    }

    /** operator new: the block is as large as asked for exactly when the size fits 32 bits. */
    method OperatorNew(size: nat) returns (out: nat, panicked: bool, ghost slot: nat)
      requires Valid() && size < WORD
      modifies if buddy != null then {buddy.tree, buddy.tree.bits} else {}
      ensures Valid()
      ensures buddy == null ==> panicked
      ensures !panicked ==>
                && PointsTo(buddy, out, slot)
                && slot !in old(buddy.User())
                && (SlotSize(buddy.tree.order, slot) >= size <==> size < UNSIGNED)
    {
      out, panicked, slot := Alloc(size % UNSIGNED);
      if !panicked {
        TruncatedSize(buddy.tree.order, size, slot);
      }
    }

    method Free(p: nat) returns (panicked: bool, ghost slot: nat)
      requires Valid()
      modifies if buddy != null then {buddy.tree, buddy.tree.bits} else {}
      ensures buddy == null ==> panicked && Valid()
      ensures buddy != null ==>
                && (panicked <==> !buddy.InRange(p) || old(buddy.tree.live) == {})
                && (Valid() <==> panicked || old(buddy.IsLive(p)))
                && (panicked ==> buddy.tree.live == old(buddy.tree.live))
                && (old(buddy.IsLive(p)) ==>
                    && slot in old(buddy.User()) && old(buddy.Holds(slot, p)) && InTree(buddy.tree.order, slot)
                    && buddy.User() == old(buddy.User()) - {slot}
                    && buddy.HandedOut() == old(buddy.HandedOut()) - SlotSize(buddy.tree.order, slot))
    {
      panicked, slot := true, 0;
      if buddy != null {
        panicked, slot := FreeCounted(buddy, p);
      }
    }
  }

  method MallocCounted(b: Buddy, size: nat) returns (r: nat, ghost slot: nat)
    requires b.Valid()
    modifies b.tree`st, b.tree`live, b.tree.bits
    ensures b.Valid()
    ensures r == NULL <==> size > b.memorySize || NoRoom(b.tree.order, old(b.tree.live), size)
    ensures r == NULL ==> b.tree.live == old(b.tree.live)
    ensures r != NULL ==>
              && PointsTo(b, r, slot)
              && FitsDepth(b.tree.order, size, Depth(slot))
              && b.User() == old(b.User()) + {slot}
              && slot !in old(b.User())
              && b.HandedOut() == old(b.HandedOut()) + SlotSize(b.tree.order, slot)
  {
    ghost var before := b.User();
    r, slot := b.Malloc(size);
    if r != NULL {
      assert b.User() == before + {slot};
      Counted(b, slot);
      assert b.User() - {slot} == before;
    }
  }

  lemma Counted(b: Buddy, slot: nat)
    requires b.Valid() && slot in b.User()
    ensures InTree(b.tree.order, slot) && forall a | a in b.User() :: InTree(b.tree.order, a)
    ensures b.HandedOut() == ALIGN * SumLeaves(b.tree.order, b.User() - {slot}) + SlotSize(b.tree.order, slot)
  {
    b.UsersInTree();
    SubAntichain(b.tree.order, b.tree.live, b.User());
    BytesWithout(b.tree.order, b.User(), slot);
  }

  method FreeCounted(b: Buddy, p: nat) returns (panicked: bool, ghost slot: nat)
    requires b.Valid()
    modifies b.tree`st, b.tree`live, b.tree.bits
    ensures panicked <==> !b.InRange(p) || old(b.tree.live) == {}
    ensures b.Valid() <==> panicked || old(b.IsLive(p))
    ensures panicked ==> b.tree.live == old(b.tree.live)
    ensures old(b.IsLive(p)) ==>
              && slot in old(b.User()) && old(b.Holds(slot, p)) && InTree(b.tree.order, slot)
              && b.User() == old(b.User()) - {slot}
              && b.HandedOut() == old(b.HandedOut()) - SlotSize(b.tree.order, slot)
  {
    ghost var before, live := b.User(), b.IsLive(p);
    b.OriginExact(p);
    if live {
      Counted(b, b.Origin(p));
    }
    panicked, slot := b.Free(p);
    if live {
      assert b.User() == before - {slot};
    }
  }
}

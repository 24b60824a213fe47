/** The buddy allocator of src/mem/Buddy.cpp over an arena of bytes. */
module Buddy {
  import opened PowersOfTwo
  import opened Bits
  import opened TreeShape
  import opened TreeStatus
  import opened TreeLayout
  import opened TreeTotals
  import opened TreeWalk
  import opened Slots
  import opened ArenaSizes
  import opened AllocationTree
  import opened ArenaTotals
  import opened Bytes
  import opened TreeMisuse
  import opened Reallocation

  const NULL: nat := 0

  class Buddy {
    const tree: BuddyTree
    const arena: array<bv8>
    var memorySize: nat
    var virtualSlots: nat
    var main: nat
    var leftBias: bool
    ghost var virt: set<nat>

    /** The arena is a tree of 64-byte leaves whose virtual slots are the leaves behind its end. */
    ghost predicate Valid()
      reads this, tree, tree.bits
    {
      && tree.Valid()
      && Shape()
      && virt <= tree.live
      && CoversTail(tree.order, virt, LimitLeaf(tree.order, memorySize))
    }

    ghost predicate Shape()
      reads this, tree
    {
      && ArenaShape(tree.order, memorySize)
      && main != NULL && main + memorySize <= WORD
      && arena.Length >= memorySize && arena != tree.bits
    }

    /** The nodes handed out to callers. */
    ghost function User(): set<nat>
      reads this, tree
    {
      tree.live - virt
    }

    method EffectiveMemorySize() returns (size: nat)
      requires Shape()
      ensures size == DepthSize(tree.order, 1)
    {
      EffectiveSize(tree.order, memorySize);
      size := CeilingPowerOfTwoWord(memorySize);
    }

    /** size_for_depth; depth 0 counts as 1. */
    method SizeForDepth(depth: nat) returns (size: nat)
      requires Shape() && depth <= tree.order
      ensures size == DepthSize(tree.order, if depth == 0 then 1 else depth)
    {
      var shift := if depth == 0 then 0 else depth - 1;
      ShiftOfPower(ALIGN, tree.order - 1, shift);
      var effective := EffectiveMemorySize();
      size := ShiftRight(effective, shift);
    }

    /** The same for the slot of a position. */
    method SizeForPosition(pos: Pos) returns (size: nat)
      requires Shape() && InTree(tree.order, pos.index) && pos == At(pos.index)
      ensures pos.depth >= 1
      ensures size == SlotSize(tree.order, pos.index) == DepthSize(tree.order, pos.depth)
    {
      RowBounds(pos.index);
      SlotIsDepthSize(tree.order, pos.index);
      size := SizeForDepth(pos.depth);
    }

    /** address_for_position: the slot of the position, as bytes. */
    method AddressForPosition(pos: Pos) returns (address: nat)
      requires Shape() && InTree(tree.order, pos.index) && pos == At(pos.index)
      ensures address == main + SlotOffset(tree.order, pos.index)
    {
      OrderLimit(tree.order);
      OffsetFormula(tree.order, pos.index);
      var size := SizeForPosition(pos);
      var offset := size * IndexInRow(pos);
      address := main + offset;
    }

    /** buddy_init behind its argument checks, for a size already trimmed to the alignment. */
    constructor (mainAddress: nat, size: nat, arenaBytes: array<bv8>)
      requires mainAddress != NULL && mainAddress + size <= WORD
      requires size % ALIGN == 0 && ALIGN <= size <= MAX_MEMORY
      requires arenaBytes.Length >= size
      ensures Valid() && fresh(tree) && fresh(tree.bits)
      ensures main == mainAddress && memorySize == size && arena == arenaBytes && !leftBias
      ensures User() == {}
    {
      main, memorySize, arena, leftBias := mainAddress, size, arenaBytes, false;
      virtualSlots := 0;
      virt := {};
      var order := TreeOrderForMemory(size);
      OrderCovers(size);
      OrderLimit(order);
      tree := new BuddyTree(order, BitsetSizeof(SizeForOrder(order, 0)));
      new;
      MaskVirtualSlots();
    }

    /** buddy_toggle_virtual_slots(buddy, 1) on a fresh tree. */
    method MaskVirtualSlots()
      requires tree.Valid() && Shape() && tree.live == {}
      modifies this`virtualSlots, this`virt, tree`st, tree`live, tree.bits
      ensures tree.Valid() && Shape() && tree.live == virt
      ensures CoversTail(tree.order, virt, LimitLeaf(tree.order, memorySize))
      ensures virtualSlots * ALIGN == DepthSize(tree.order, 1) - memorySize
    {
      ghost var order, limit := tree.order, LimitLeaf(tree.order, memorySize);
      virt := {};
      var effective := EffectiveMemorySize();
      if effective == memorySize {
        MaskNone(order, memorySize);
        virtualSlots := 0;
        return;
      }
      MaskStart(order, memorySize);
      var delta: nat := effective - memorySize;
      virtualSlots := delta / ALIGN;
      var pos := RightChild(Pos(1, 1));
      assert At(1) == Pos(1, 1) && pos == At(3) by { RootOfTree(order); ChildDepth(1); }
      while delta != 0
        invariant tree.Valid() && Shape() && tree.live == virt && tree.order == order
        invariant pos == At(pos.index) && Masking(order, virt, pos.index, delta, limit)
        invariant virtualSlots * ALIGN == effective - memorySize
        decreases order - pos.depth
      {
        var done;
        done, pos, delta := MaskTurn(pos, delta, limit);
        if done {
          break;
        }
      }
    }

    /** One turn of the loop: mask the node, or go to the child where the rest is to be masked. */
    method MaskTurn(pos: Pos, delta: nat, ghost limit: nat) returns (done: bool, next: Pos, rest: nat)
      requires tree.Valid() && Shape() && tree.live == virt
      requires pos == At(pos.index) && Masking(tree.order, virt, pos.index, delta, limit)
      modifies this`virt, tree`st, tree`live, tree.bits
      ensures tree.Valid() && Shape() && tree.live == virt
      ensures done ==> CoversTail(tree.order, virt, limit)
      ensures !done ==> next == At(next.index) && pos.depth < next.depth
      ensures !done ==> Masking(tree.order, virt, next.index, rest, limit)
    {
      ghost var order, i := tree.order, pos.index;
      var size := SizeForPosition(pos);
      MaskNext(order, virt, i, size, delta, limit);
      ChildDepth(i);
      if delta == size {
        MaskNode(pos, virt + {i});
        done, next, rest := true, pos, delta;
      } else if delta <= size / 2 {
        done, next, rest := false, RightChild(pos), delta;
      } else {
        MaskNode(RightChild(pos), virt + {2 * i + 1});
        done, next, rest := false, LeftChild(pos), delta - size / 2;
      }
    }

    method MaskNode(pos: Pos, ghost marked: set<nat>)
      requires tree.Valid() && Shape() && tree.live == virt && marked == virt + {pos.index}
      requires pos == At(pos.index) && WhollyFree(tree.order, virt, pos.index)
      modifies this`virt, tree`st, tree`live, tree.bits
      ensures tree.Valid() && Shape() && tree.live == virt == marked
    {
      tree.Mark(pos);
      virt := marked;
    }

    // ----- allocation -----

    method Malloc(requestedSize: nat) returns (r: nat, ghost slot: nat)
      requires Valid()
      modifies tree`st, tree`live, tree.bits
      ensures Valid()
      ensures r == NULL <==>
                (requestedSize > memorySize || NoRoom(tree.order, old(tree.live), requestedSize))
      ensures r == NULL ==> tree.live == old(tree.live)
      ensures r != NULL ==>
                && Granted(tree.order, old(tree.live), requestedSize, leftBias, slot)
                && tree.live == old(tree.live) + {slot}
                && slot !in old(tree.live)
                && r == main + SlotOffset(tree.order, slot)
    {
      slot := 0;
      var requested := if requestedSize == 0 then 1 else requestedSize;
      if requested > memorySize {
        return NULL, slot;
      }
      var pos := FindFor(requested);
      if !tree.ValidPos(pos) {
        return NULL, slot;
      }
      slot := pos.index;
      tree.Mark(pos);
      r := AddressForPosition(pos);
    }

    method SetLeftBias()
      requires Valid()
      modifies this`leftBias
      ensures Valid() && leftBias && User() == old(User())
    {
      leftBias := true;
    }

    method SetOptimalFit()
      requires Valid()
      modifies this`leftBias
      ensures Valid() && !leftBias && User() == old(User())
    {
      leftBias := false;
    }

    /** buddy_calloc: nothing when the product overflows, else an allocation whose bytes are zero. */
    method Calloc(members: nat, memberSize: nat) returns (r: nat, ghost slot: nat)
      requires Valid() && members < WORD && memberSize < WORD
      modifies tree`st, tree`live, tree.bits, arena
      ensures Valid()
      ensures r == NULL <==>
                (TotalSize(members, memberSize) > memorySize
                 || NoRoom(tree.order, old(tree.live), TotalSize(members, memberSize)))
      ensures r == NULL ==> tree.live == old(tree.live) && arena[..] == old(arena[..])
      ensures r != NULL ==>
                && Granted(tree.order, old(tree.live), TotalSize(members, memberSize), leftBias, slot)
                && tree.live == old(tree.live) + {slot} && slot !in old(tree.live)
                && r == main + SlotOffset(tree.order, slot)
                && Zeroed(arena[..], SlotOffset(tree.order, slot), TotalSize(members, memberSize),
                          old(arena[..]))
    {
      var fits, total := CheckedTotal(members, memberSize);
      if !fits {
        return NULL, 0;
      }
      r, slot := MallocZeroed(total);
    }

    method MallocZeroed(total: nat) returns (r: nat, ghost slot: nat)
      requires Valid() && total >= 1
      modifies tree`st, tree`live, tree.bits, arena
      ensures Valid()
      ensures r == NULL <==> total > memorySize || NoRoom(tree.order, old(tree.live), total)
      ensures r == NULL ==> tree.live == old(tree.live) && arena[..] == old(arena[..])
      ensures r != NULL ==>
                && Granted(tree.order, old(tree.live), total, leftBias, slot)
                && tree.live == old(tree.live) + {slot} && slot !in old(tree.live)
                && r == main + SlotOffset(tree.order, slot)
                && Zeroed(arena[..], SlotOffset(tree.order, slot), total, old(arena[..]))
    {
      r, slot := Malloc(total);
      if r != NULL {
        GrantedSize(tree.order, old(tree.live), total, leftBias, slot);
        ZeroSlot(r, total, slot);
      }
    }

    method ZeroSlot(address: nat, n: nat, ghost slot: nat)
      requires Valid() && slot in User() && InTree(tree.order, slot)
      requires address == main + SlotOffset(tree.order, slot) && n <= SlotSize(tree.order, slot)
      modifies arena
      ensures Valid() && Zeroed(arena[..], SlotOffset(tree.order, slot), n, old(arena[..]))
    {
      TakenSlotFits(slot);
      MemSet(arena, address - main, 0, n);
    }

    lemma TakenSlotFits(u: nat)
      requires Valid() && u in User()
      ensures InTree(tree.order, u)
      ensures SlotOffset(tree.order, u) + SlotSize(tree.order, u) <= memorySize <= arena.Length
    {
      SlotInArena(tree.order, tree.live, virt, memorySize, u);
    }

    // ----- from an address back to its slot -----

    predicate InRange(address: nat)
      reads this
    {
      main <= address < main + memorySize
    }

    /** The distance from the arena's start, which wraps around for an address before it. */
    function OffsetOf(address: nat): nat
      requires main <= WORD
      reads this
    {
      if main <= address then address - main else address + WORD - main
    }

    /** Some slot handed out contains the address. */
    ghost predicate IsLive(address: nat)
      requires Valid()
      reads this, tree, tree.bits
    {
      InRange(address) && exists u :: u in User() && Holds(u, address)
    }

    ghost predicate Holds(u: nat, address: nat)
      requires Shape()
      reads this, tree
    {
      InRange(address) && InTree(tree.order, u) && InSlot(tree.order, u, OffsetOf(address))
    }

    /** The node the search for an address ends on. */
    ghost function Origin(address: nat): nat
      requires Valid()
      reads this, tree, tree.bits
    {
      Owner(tree.order, tree.st, OffsetOf(address))
    }

    /** No node for the search to end on: nothing at all is marked, or the address is far behind the arena. */
    ghost predicate NothingThere(address: nat)
      requires Shape()
      reads this, tree
    {
      tree.live == {} || OffsetOf(address) >= DepthSize(tree.order, 1)
    }

    /** For an address inside a marked slot the search ends on exactly that slot. */
    lemma OriginOfLive(address: nat, u: nat)
      requires Valid() && u in tree.live && Holds(u, address)
      ensures Origin(address) == u
    {
      OwnerOfByte(tree.order, tree.live, tree.st, u, OffsetOf(address));
    }

    /** The search ends on a slot handed out exactly when the address lies in one. */
    lemma OriginExact(address: nat)
      requires Valid()
      ensures Origin(address) in User() <==> IsLive(address)
      ensures IsLive(address) ==> Holds(Origin(address), address)
      ensures Origin(address) == 0 <==> NothingThere(address)
      ensures Origin(address) != 0 ==> InTree(tree.order, Origin(address)) && tree.st[Origin(address)] != 0
    {
      var offset := OffsetOf(address);
      OwnerExact(tree.order, tree.live, tree.st, offset);
      if Origin(address) in User() {
        SlotInArena(tree.order, tree.live, virt, memorySize, Origin(address));
        assert Holds(Origin(address), address);
      }
      if u :| InRange(address) && u in User() && Holds(u, address) {
        OriginOfLive(address, u);
      }
    }

    /** For an address between the end of the arena and the end of the tree it ends on a virtual node. */
    lemma OriginBehind(address: nat)
      requires Valid() && memorySize <= OffsetOf(address) < DepthSize(tree.order, 1)
      ensures Origin(address) in virt
    {
      BehindIsVirtual(tree.order, tree.live, virt, memorySize, tree.st, OffsetOf(address));
    }

    /** In an arena that is no power of two the search for an address in the arena always ends on a node. */
    lemma AlwaysSomethingThere(address: nat)
      requires Valid() && memorySize != DepthSize(tree.order, 1) && InRange(address)
      ensures Origin(address) != 0
    {
      TailIsMasked(tree.order, tree.live, virt, memorySize);
      OriginExact(address);
    }

    method DeepestPositionForOffset(offset: nat) returns (pos: Pos)
      requires Shape()
      ensures pos == Pos(LeafOfByte(tree.order, offset), tree.order)
    {
      pos := tree.LeftmostChild();
      pos := Pos(pos.index + offset / ALIGN, pos.depth);
    }

    /** position_for_address: up from the leaf of the address past the nodes with status zero. */
    method PositionForAddress(address: nat) returns (pos: Pos)
      requires Valid()
      ensures tree.ValidPos(pos) <==> Origin(address) != 0
      ensures Origin(address) != 0 ==> pos == At(Origin(address)) && InTree(tree.order, pos.index)
    {
      pos := DeepestPositionForOffset(OffsetOf(address));
      ghost var origin := Origin(address);
      LeafPosition(tree.order, memorySize, OffsetOf(address));
      ValidIsInTree(tree.order, pos.index);
      while tree.ValidPos(pos)
        invariant tree.ValidPos(pos) ==>
                    && InTree(tree.order, pos.index) && pos == At(pos.index)
                    && Climb(tree.order, tree.st, pos.index) == origin
        invariant !tree.ValidPos(pos) ==> origin == 0
        decreases pos.index
      {
        var status := tree.Status(pos);
        if status != 0 {
          return;
        }
        ParentOnTree(tree.order, pos);
        pos := Parent(pos);
        ValidIsInTree(tree.order, pos.index);
      }
    }

    // ----- release -----

    /** The search for any address: nothing, or a node that is not free, live exactly when the address is. */
    method FindSlot(address: nat) returns (pos: Pos)
      requires Valid()
      ensures tree.ValidPos(pos) <==> !NothingThere(address)
      ensures tree.ValidPos(pos) ==>
                && pos == At(pos.index) && pos.index == Origin(address) != 0
                && InTree(tree.order, pos.index) && tree.st[pos.index] != 0
                && (pos.index in User() <==> IsLive(address))
                && (IsLive(address) ==> Holds(pos.index, address))
    {
      pos := PositionForAddress(address);
      OriginExact(address);
    }

    /**
     The release of a node that is not free. The allocator is in order afterwards exactly when the
     node was handed out: otherwise no set of marked nodes explains the statuses, or no marked nodes
     cover the tail of the arena any more.
     */
    method ReleaseSlot(pos: Pos)
      requires Valid() && InTree(tree.order, pos.index) && pos == At(pos.index) && tree.st[pos.index] != 0
      modifies tree`st, tree`live, tree.bits
      ensures Valid() <==> pos.index in old(User())
      ensures tree.Stored() && Shape() && tree.live == old(tree.live) - {pos.index}
      ensures tree.st == Released(tree.order, old(tree.st), pos.index)
      ensures pos.index in old(tree.live) ==> tree.Valid()
      ensures pos.index in old(User()) ==>
                && User() == old(User()) - {pos.index}
                && WhollyFree(tree.order, tree.live, pos.index) && old(tree.live) == tree.live + {pos.index}
      ensures pos.index !in old(tree.live) ==>
                forall marks {:trigger Consistent(tree.order, marks, tree.st)} ::
                  !Consistent(tree.order, marks, tree.st)
      ensures pos.index in virt ==>
                forall others {:trigger CoversTail(tree.order, others, LimitLeaf(tree.order, memorySize))} ::
                  others <= tree.live ==> !CoversTail(tree.order, others, LimitLeaf(tree.order, memorySize))
    {
      ghost var order, live, limit := tree.order, tree.live, LimitLeaf(tree.order, memorySize);
      tree.Release(pos);
      if pos.index in live {
        RemovedIsFree(order, live, pos.index);
      }
      if pos.index in virt {
        forall others | others <= tree.live ensures !CoversTail(order, others, limit) {
          TailUncovered(order, live, virt, limit, pos.index, others);
        }
      }
    }

    /**
     buddy_free. It panics outside the arena, and inside only when nothing at all is marked; the
     allocator is in order afterwards exactly when it panicked or the address lay in a slot handed out.
     */
    method Free(address: nat) returns (panicked: bool, ghost slot: nat)
      requires Valid()
      modifies tree`st, tree`live, tree.bits
      ensures tree.Stored() && Shape()
      ensures panicked <==> !InRange(address) || old(tree.live) == {}
      ensures panicked ==> tree.live == old(tree.live)
      ensures Valid() <==> panicked || old(IsLive(address))
      ensures !panicked ==> slot == old(Origin(address)) && tree.live == old(tree.live) - {slot}
      ensures old(IsLive(address)) ==> !panicked && slot in old(User()) && old(Holds(slot, address))
    {
      slot := 0;
      if address == NULL || address < main || address >= main + memorySize {
        return true, slot;
      }
      var pos := FindSlot(address);
      if !tree.ValidPos(pos) {
        return true, slot;
      }
      slot := pos.index;
      ReleaseSlot(pos);
      panicked := false;
    }

    /** The test of buddy_safe_free. */
    predicate SizeMatches(requestedSize: nat, allocatedSize: nat) {
      var requested := if requestedSize < ALIGN then ALIGN else requestedSize;
      !(requested > allocatedSize) && !(requested <= allocatedSize / 2)
    }

    /** It accepts exactly the sizes for which an allocation would have chosen this depth. */
    lemma SizeMatchesDepth(requestedSize: nat, i: nat)
      requires Shape() && InTree(tree.order, i)
      ensures Depth(i) >= 1
      ensures SizeMatches(requestedSize, SlotSize(tree.order, i))
         <==> FitsDepth(tree.order, requestedSize, Depth(i))
    {
      RowBounds(i);
      SlotIsDepthSize(tree.order, i);
      SizeIsEven(tree.order, Depth(i));
    }

    /** buddy_safe_free: as buddy_free, but for a size that does not fit the node found nothing happens. */
    method SafeFree(address: nat, requestedSize: nat) returns (released: bool, ghost slot: nat)
      requires Valid()
      modifies tree`st, tree`live, tree.bits
      ensures tree.Stored() && Shape()
      ensures slot == if InRange(address) then old(Origin(address)) else 0
      ensures slot != 0 ==> InTree(tree.order, slot)
      ensures released <==> slot != 0 && FitsDepth(tree.order, requestedSize, Depth(slot))
      ensures tree.live == if released then old(tree.live) - {slot} else old(tree.live)
      ensures Valid() <==> !released || old(IsLive(address))
      ensures old(IsLive(address)) ==> slot in old(User()) && old(Holds(slot, address))
    {
      slot := 0;
      if address == NULL || address < main || address >= main + memorySize {
        return false, slot;
      }
      OriginExact(address);
      var pos := FindSlot(address);
      if !tree.ValidPos(pos) {
        return false, slot;
      }
      slot := pos.index;
      SizeMatchesDepth(requestedSize, slot);
      var allocatedSize := SizeForPosition(pos);
      if !SizeMatches(requestedSize, allocatedSize) {
        return false, slot;
      }
      ReleaseSlot(pos);
      released := true;
    }

    // ----- reallocation -----

    /** The depth and the search that buddy_malloc and buddy_realloc have in common, on any statuses. */
    method SearchFor(requestedSize: nat) returns (pos: Pos)
      requires Shape() && tree.Stored() && requestedSize <= memorySize
      ensures LandsOn(tree.order, leftBias, tree.st, 0, requestedSize, pos.index != 0, pos.index)
      ensures tree.ValidPos(pos) <==> pos.index != 0
      ensures pos.index != 0 ==> pos == At(pos.index) && InTree(tree.order, pos.index)
    {
      var targetDepth := DepthForSize(requestedSize, memorySize, tree.order);
      pos := tree.FindFree(targetDepth, leftBias);
      assert SearchedAt(tree.order, leftBias, tree.st, 0, targetDepth, pos.index != 0, pos.index);
      ValidIsInTree(tree.order, pos.index);
    }

    /** The same when the allocator is in order. */
    method FindFor(requestedSize: nat) returns (pos: Pos)
      requires Valid() && requestedSize <= memorySize
      ensures tree.ValidPos(pos) <==> pos.index != 0
      ensures pos.index == 0 <==> NoRoom(tree.order, tree.live, requestedSize)
      ensures pos.index != 0 ==>
                && pos == At(pos.index)
                && Granted(tree.order, tree.live, requestedSize, leftBias, pos.index)
                && WhollyFree(tree.order, tree.live, pos.index)
    {
      pos := SearchFor(requestedSize);
      LandsFree(tree.order, leftBias, tree.live, tree.st, 0, requestedSize, pos.index != 0, pos.index);
    }

    /** The memmove of buddy_realloc. */
    method MoveBytes(origin: Pos, newPos: Pos) returns (wild: bool)
      requires Shape() && InTree(tree.order, origin.index) && InTree(tree.order, newPos.index)
      requires origin == At(origin.index) && newPos == At(newPos.index)
      modifies arena
      ensures MovedSlot(tree.order, memorySize, origin.index, newPos.index, wild, arena[..], old(arena[..]))
    {
      DeeperIsSmaller(tree.order, origin.index, newPos.index);
      var source := AddressForPosition(origin);
      var destination := AddressForPosition(newPos);
      var n := SizeForDepth(if origin.depth > newPos.depth then origin.depth else newPos.depth);
      wild := source - main + n > memorySize || destination - main + n > memorySize;
      if !wild {
        MemMove(arena, destination - main, source - main, n);
      }
    }

    /** buddy_realloc once its node is released: search, move or restore, and mark. */
    method Relocate(address: nat, origin: Pos, requestedSize: nat) returns (r: nat, ghost slot: nat, wild: bool)
      requires Shape() && tree.Stored() && requestedSize <= memorySize && address != NULL
      requires InTree(tree.order, origin.index) && origin == At(origin.index)
      modifies tree`st, tree`live, tree.bits, arena
      ensures tree.Stored() && Shape() && InTree(tree.order, origin.index)
      ensures Relocated(tree.order, leftBias, main, memorySize, old(tree.st), origin.index, address,
                        requestedSize, slot, r, wild, tree.st, arena[..], old(arena[..]))
      ensures tree.live == old(tree.live) + {slot}
    {
      slot, wild := origin.index, false;
      var newPos := SearchFor(requestedSize);
      OrElse(tree.order, leftBias, tree.st, origin.index, requestedSize, newPos.index);
      if !tree.ValidPos(newPos) {
        tree.Mark(origin);
        return NULL, slot, false;
      }
      slot := newPos.index;
      if origin.index == newPos.index {
        tree.Mark(origin);
        return address, slot, false;
      }
      wild := MoveBytes(origin, newPos);
      tree.Mark(newPos);
      r := AddressForPosition(newPos);
    }

    /**
     For such a pointer the outcome is that of an allocator in order: it is null, it lies in a slot
     handed out, the search finds no node for it, or the size alone makes the call fail.
     */
    ghost predicate FairResize(address: nat, requestedSize: nat)
      requires Valid()
      reads this, tree, tree.bits
    {
      address == NULL || requestedSize > memorySize || IsLive(address) || NothingThere(address)
    }

    /** The outcome for any other pointer and a size other than zero; `origin` is the node its search ends on. */
    ghost predicate UnfairOutcome(live: set<nat>, st: map<nat, nat>, origin: nat, requestedSize: nat, slot: nat,
                                  r: nat, wild: bool, before: seq<bv8>)
      requires Domain(tree.order, st) && memorySize <= |before| == arena.Length
      reads this, tree, tree.bits, arena
    {
      && InTree(tree.order, origin) && InTree(tree.order, slot)
      && tree.live == live - {origin} + {slot}
      && (wild <==> slot != origin && LeavesArena(tree.order, memorySize, origin, slot))
      && (slot == origin ==> arena[..] == before)
      && LandsOn(tree.order, leftBias, Released(tree.order, st, origin), origin, requestedSize, r != NULL, slot)
      && if origin in virt then Valid() <==> slot == origin
         else
           && (Valid() <==> Mends(tree.order, live, origin, slot))
           && (!Valid() ==> Inexplicable(tree.order, tree.st))
           && (Valid() ==> HandsOutPart(tree.order, main, live, virt, origin, requestedSize, slot, r, wild,
                                        arena[..], before))
    }

    /**
     buddy_realloc: a null pointer makes it malloc, a zero size makes it free. For a pointer in no slot
     handed out it may leave the allocator in order all the same: `UnfairOutcome` says when.
     */
    method Realloc(address: nat, requestedSize: nat) returns (r: nat, ghost origin: nat, ghost slot: nat, wild: bool)
      requires Valid()
      modifies tree`st, tree`live, tree.bits, arena
      ensures tree.Stored() && Shape()
      ensures origin == if address == NULL then 0 else old(Origin(address))
      ensures if old(FairResize(address, requestedSize)) then
                && Valid() && !wild
                && ReallocOutcome(tree.order, leftBias, main, memorySize, old(tree.live), virt, origin, address,
                                  requestedSize, slot, r, tree.live, arena[..], old(arena[..]))
              else if requestedSize == 0 then
                r == NULL && !wild && arena[..] == old(arena[..]) && (Valid() <==> !InRange(address))
              else
                UnfairOutcome(old(tree.live), old(tree.st), origin, requestedSize, slot, r, wild, old(arena[..]))
    {
      origin, slot, wild := 0, 0, false;
      if address == NULL {
        r, slot := Malloc(requestedSize);
        return;
      }
      origin := Origin(address);
      OriginExact(address);
      if requestedSize == 0 {
        var panicked;
        panicked, slot := Free(address);
        return NULL, origin, slot, false;
      }
      if requestedSize > memorySize {
        return NULL, origin, slot, false;
      }
      var pos := FindSlot(address);
      if !tree.ValidPos(pos) {
        return NULL, origin, slot, false;
      }
      r, slot, wild := Resize(address, pos, requestedSize);
    }

    /** buddy_realloc once the node of the pointer is found. */
    method Resize(address: nat, pos: Pos, requestedSize: nat) returns (r: nat, ghost slot: nat, wild: bool)
      requires Valid() && requestedSize <= memorySize && address != NULL
      requires InTree(tree.order, pos.index) && pos == At(pos.index) && tree.st[pos.index] != 0
      requires pos.index == Origin(address)
      modifies tree`st, tree`live, tree.bits, arena
      ensures tree.Stored() && Shape()
      ensures ResizeOutcome(old(tree.live), old(tree.st), pos.index, address, requestedSize, slot, r, wild,
                            old(arena[..]))
    {
      ghost var live, st, before := tree.live, tree.st, arena[..];
      PartlyAt(address);
      tree.Release(pos);
      r, slot, wild := Relocate(address, pos, requestedSize);
      ResizedOutcome(live, st, pos.index, address, requestedSize, slot, r, wild, before);
    }

    ghost predicate ResizeOutcome(live: set<nat>, st: map<nat, nat>, n: nat, address: nat, requestedSize: nat,
                                  slot: nat, r: nat, wild: bool, before: seq<bv8>)
      reads this, tree, tree.bits, arena
    {
      && InTree(tree.order, n) && Domain(tree.order, st) && memorySize <= |before| == arena.Length
      && if n in live - virt then
           && Valid() && !wild
           && Reallocated(tree.order, leftBias, main, live - {n}, live - virt - {n}, n, address, requestedSize,
                          slot, r, tree.live, arena[..], before)
         else UnfairOutcome(live, st, n, requestedSize, slot, r, wild, before)
    }

    lemma ResizedOutcome(live: set<nat>, st: map<nat, nat>, n: nat, address: nat, requestedSize: nat, slot: nat,
                         r: nat, wild: bool, before: seq<bv8>)
      requires Domain(tree.order, st) && InTree(tree.order, n)
      requires Resized(live, Released(tree.order, st, n), n, address, requestedSize, slot, r, wild, before)
      requires n in live ==> Consistent(tree.order, live - {n}, Released(tree.order, st, n))
      requires n !in live ==>
                 && PartlyTaken(tree.order, live, st, n)
                 && InTree(tree.order, 2 * n) && InTree(tree.order, 2 * n + 1)
                 && (st[2 * n] == 0 || st[2 * n + 1] == 0)
      ensures ResizeOutcome(live, st, n, address, requestedSize, slot, r, wild, before)
    {
      if n in live - virt {
        ResizedLive(live, Released(tree.order, st, n), n, address, requestedSize, slot, r, wild, before);
      } else if n in virt {
        ResizedVirtual(live, st, n, address, requestedSize, slot, r, wild, before);
      } else {
        ResizedPartly(live, st, n, address, requestedSize, slot, r, wild, before);
      }
    }

    /** How the tree stands to the marks `live` and statuses `st` before node n was released and `slot` marked. */
    ghost predicate Resized(live: set<nat>, st: map<nat, nat>, n: nat, address: nat, requestedSize: nat, slot: nat,
                            r: nat, wild: bool, before: seq<bv8>)
      reads this, tree, tree.bits, arena
    {
      && Shape() && tree.Stored() && address != NULL
      && Arena(tree.order, live, virt, memorySize) && Domain(tree.order, st) && InTree(tree.order, n)
      && |before| == arena.Length
      && tree.live == live - {n} + {slot}
      && Relocated(tree.order, leftBias, main, memorySize, st, n, address, requestedSize, slot, r, wild,
                   tree.st, arena[..], before)
    }

    lemma ResizedLive(live: set<nat>, released: map<nat, nat>, n: nat, address: nat, requestedSize: nat, slot: nat,
                      r: nat, wild: bool, before: seq<bv8>)
      requires Resized(live, released, n, address, requestedSize, slot, r, wild, before)
      requires n in live - virt && Consistent(tree.order, live - {n}, released)
      ensures Valid() && !wild
      ensures Reallocated(tree.order, leftBias, main, live - {n}, live - virt - {n}, n, address, requestedSize,
                          slot, r, tree.live, arena[..], before)
    {
      RemovedIsFree(tree.order, live, n);
      assert live - {n} - virt == live - virt - {n};
      RelocatedLive(tree.order, leftBias, main, memorySize, live - {n}, virt, released, n, address, requestedSize,
                    slot, r, wild, tree.st, arena[..], before);
    }

    lemma ResizedVirtual(live: set<nat>, st: map<nat, nat>, v: nat, address: nat, requestedSize: nat, slot: nat,
                         r: nat, wild: bool, before: seq<bv8>)
      requires Domain(tree.order, st) && InTree(tree.order, v) && v in virt
      requires Resized(live, Released(tree.order, st, v), v, address, requestedSize, slot, r, wild, before)
      requires Consistent(tree.order, live - {v}, Released(tree.order, st, v))
      ensures UnfairOutcome(live, st, v, requestedSize, slot, r, wild, before)
    {
      RelocatedVirtual(tree.order, leftBias, live, virt, Released(tree.order, st, v), v, requestedSize, r != NULL,
                       slot);
    }

    lemma ResizedPartly(live: set<nat>, st: map<nat, nat>, n: nat, address: nat, requestedSize: nat, slot: nat,
                        r: nat, wild: bool, before: seq<bv8>)
      requires PartlyTaken(tree.order, live, st, n) && n !in virt
      requires InTree(tree.order, 2 * n) && InTree(tree.order, 2 * n + 1) && (st[2 * n] == 0 || st[2 * n + 1] == 0)
      requires Resized(live, Released(tree.order, st, n), n, address, requestedSize, slot, r, wild, before)
      ensures UnfairOutcome(live, st, n, requestedSize, slot, r, wild, before)
    {
      RelocatedPartly(tree.order, leftBias, main, memorySize, live, virt, st, n, address, requestedSize, slot, r,
                      wild, tree.st, arena[..], before);
      assert live - {n} + {slot} == live + {slot};
    }

    /** Where the search ends on a node that is not marked, the node has a free child. */
    lemma PartlyAt(address: nat)
      requires Valid() && Origin(address) != 0
      ensures Arena(tree.order, tree.live, virt, memorySize)
      ensures var n := Origin(address);
              && InTree(tree.order, n)
              && (n !in tree.live ==>
                  && PartlyTaken(tree.order, tree.live, tree.st, n)
                  && InTree(tree.order, 2 * n) && InTree(tree.order, 2 * n + 1)
                  && (tree.st[2 * n] == 0 || tree.st[2 * n + 1] == 0))
    {
      var offset := OffsetOf(address);
      OriginExact(address);
      LeafOfByteInTree(tree.order, offset);
      var leaf := LeafOfByte(tree.order, offset);
      ClimbLeavesChild(tree.order, tree.st, leaf);
      assert Rule(tree.order, tree.live, tree.st, leaf);
    }

    // ----- walks over the whole tree -----

    /** What one position adds to the free size, and whether the walk goes up from it. */
    method FreeSizeAt(pos: Pos) returns (goingUp: bool, size: nat)
      requires Valid() && InTree(tree.order, pos.index) && pos == At(pos.index)
      ensures size == if goingUp
                      then ALIGN * FreeLeaves(tree.order, tree.st, pos.index, Height(tree.order, pos.index))
                      else 0
      ensures !goingUp ==> Partial(tree.order, tree.st, pos.index)
    {
      var status := tree.Status(pos);
      if status == tree.order - pos.depth + 1 {
        return true, 0;
      } else if status == 0 {
        size := SizeForPosition(pos);
        return true, size;
      }
      ConsistentIsStat(tree.order, tree.live, tree.st, pos.index);
      PartialIsInner(tree.live, pos.index, Height(tree.order, pos.index));
      return false, 0;
    }

    lemma UsersInTree()
      requires Valid()
      ensures forall u | u in User() :: InTree(tree.order, u)
    {
      forall u | u in User() ensures InTree(tree.order, u) {
        assert u in tree.live;
      }
    }

    /** The sizes of all slots handed out, added up. */
    ghost function HandedOut(): nat
      requires Valid()
      reads this, tree, tree.bits
    {
      UsersInTree();
      ALIGN * SumLeaves(tree.order, User())
    }

    lemma BytesAddUp(start: Pos) returns (todo: seq<nat>)
      requires Valid() && start == Pos(1, 1)
      ensures AllInTree(tree.order, todo) && Arrived(tree.order, start, todo)
      ensures ALIGN * FreeOf(tree.order, tree.st, todo) + HandedOut() == memorySize
    {
      UsersInTree();
      todo := ConservationOfWalk(tree.order, tree.live, virt, tree.st, memorySize);
    }

    /** buddy_arena_free_size: what is free and what is handed out make up the arena. */
    method ArenaFreeSize() returns (result: nat)
      requires Valid()
      ensures result + HandedOut() == memorySize
    {
      ghost var todo := BytesAddUp(Pos(1, 1));
      result := CountFrom(todo);
    }

    /** The walk from the root over the subtrees still to be entered. */
    method CountFrom(ghost start: seq<nat>) returns (result: nat)
      requires Valid()
      requires AllInTree(tree.order, start) && Arrived(tree.order, Pos(1, 1), start)
      ensures result == ALIGN * FreeOf(tree.order, tree.st, start)
    {
      ghost var order, st, todo := tree.order, tree.st, start;
      var state := new WalkState();
      result := 0;
      var more := true;
      while more
        invariant AllInTree(order, todo) && (more <==> todo != [])
        invariant more ==> !state.goingUp && !state.walkDone && state.startingPos == Pos(1, 1)
        invariant more ==> Arrived(order, state.currentPos, todo)
        invariant result + ALIGN * FreeOf(order, st, todo) == ALIGN * FreeOf(order, st, start)
        decreases CountOf(order, todo)
      {
        ghost var i := state.currentPos.index;
        var up, size := FreeSizeAt(state.currentPos);
        FreeStep(order, st, i, up, todo);
        result := result + size;
        state.goingUp := up;
        todo := After(order, i, up);
        more := Walk(tree, state);
      }
    }

    /** The test of buddy_walk: whether the node is free, and whether it was marked itself. */
    method Inspect(pos: Pos) returns (free: bool, marked: bool)
      requires Valid() && InTree(tree.order, pos.index) && pos == At(pos.index)
      ensures free <==> tree.st[pos.index] == 0
      ensures marked <==> LooksMarked(tree.order, tree.st, pos.index)
    {
      ghost var i := pos.index;
      ChildDepth(i);
      ValidIsInTree(tree.order, 2 * i);
      var status := tree.Status(pos);
      if status == 0 || status != tree.order - pos.depth + 1 {
        return status == 0, false;
      }
      var left := LeftChild(pos);
      if tree.ValidPos(left) {
        ChildOnTree(tree.order, pos, left);
        var leftStatus := tree.Status(left);
        return false, leftStatus == 0;
      }
      return false, true;
    }

    lemma VirtualSlot(i: nat)
      requires Valid() && i in tree.live
      ensures InTree(tree.order, i)
      ensures SlotOffset(tree.order, i) + SlotSize(tree.order, i) > memorySize <==> i in virt
    {
      VirtualOrInside(tree.order, tree.live, virt, memorySize, i);
    }

    /** Whether the slot ends behind the arena tells the virtual slots from the others. */
    method Process<C>(pos: Pos, callback: (C, nat, nat) -> (C, nat), context: C)
      returns (virtual: bool, call: (nat, nat), next: C, answer: nat)
      requires Valid() && pos.index in tree.live && pos == At(pos.index)
      ensures InTree(tree.order, pos.index)
      ensures virtual <==> pos.index in virt
      ensures call == (main + SlotOffset(tree.order, pos.index), SlotSize(tree.order, pos.index))
      ensures (next, answer) == if virtual then (context, NULL) else callback(context, call.0, call.1)
    {
      VirtualSlot(pos.index);
      var size := SizeForPosition(pos);
      var address := AddressForPosition(pos);
      call := (address, size);
      virtual := address - main + size > memorySize;
      next, answer := context, NULL;
      if !virtual {
        var returned := callback(context, address, size);
        next, answer := returned.0, returned.1;
      }
    }

    /** Address and size of each slot handed out, in address order. */
    ghost function HandedOutInOrder(): seq<(nat, nat)>
      requires Valid()
      reads this, tree, tree.bits
    {
      BlocksInTree(tree.order, tree.live, virt, memorySize);
      Calls(tree.order, main, Blocks(User(), 1, tree.order))
    }

    /** Where the walk stands at first: everything is still to come. */
    lemma WalkStarts(start: Pos) returns (todo: seq<nat>, users: seq<nat>, virtuals: seq<nat>)
      requires Valid() && start == Pos(1, 1)
      ensures AllInTree(tree.order, todo) && Arrived(tree.order, start, todo)
      ensures AllInTree(tree.order, users) && Calls(tree.order, main, users) == HandedOutInOrder()
      ensures Halfway(users, virtuals, virt, [], BlocksOf(tree.order, tree.live, todo))
    {
      todo, users, virtuals := NothingListed(tree.order, tree.live, virt, memorySize);
    }

    /**
     buddy_walk: the callback, with the context it keeps from call to call, sees the slots handed out,
     each once, with its address and its size, in address order, up to the first that makes it answer.
     */
    method WalkSlots<C>(callback: (C, nat, nat) -> (C, nat), context: C)
      returns (result: nat, final: C, visited: seq<(nat, nat)>)
      requires Valid()
      ensures StopsAtFirstAnswer(callback, context, HandedOutInOrder(), visited, result, final)
    {
      ghost var todo, users, virtuals := WalkStarts(Pos(1, 1));
      result, final, visited := WalkFrom(callback, context, todo, users, virtuals);
    }

    /** The walk from the root over the subtrees still to be entered. */
    method WalkFrom<C>(callback: (C, nat, nat) -> (C, nat), context: C, ghost start: seq<nat>,
                       ghost users: seq<nat>, ghost virtuals: seq<nat>)
      returns (result: nat, final: C, visited: seq<(nat, nat)>)
      requires Valid()
      requires AllInTree(tree.order, start) && Arrived(tree.order, Pos(1, 1), start)
      requires AllInTree(tree.order, users)
      requires Halfway(users, virtuals, virt, [], BlocksOf(tree.order, tree.live, start))
      ensures StopsAtFirstAnswer(callback, context, Calls(tree.order, main, users), visited, result, final)
    {
      ghost var order, live, todo, listed: seq<nat> := tree.order, tree.live, start, [];
      var state := new WalkState();
      visited, final := [], context;
      var more := true;
      while more
        invariant AllInTree(order, todo) && (more <==> todo != [])
        invariant more ==> !state.goingUp && !state.walkDone && state.startingPos == Pos(1, 1)
        invariant more ==> Arrived(order, state.currentPos, todo)
        invariant Shown(callback, context, final, order, main, users, virtuals, virt, listed,
                        BlocksOf(order, live, todo), visited)
        decreases CountOf(order, todo)
      {
        ghost var i := state.currentPos.index;
        var stop;
        state.goingUp, stop, result, final, visited, listed :=
          ShowSlot(state.currentPos, callback, context, final, users, virtuals, listed, todo, visited);
        if stop {
          return result, final, visited;
        }
        todo := After(order, i, state.goingUp);
        more := Walk(tree, state);
      }
      ShownAll(callback, context, final, order, main, users, virtuals, virt, listed, [], visited);
      result := NULL;
    }

    /** One turn of the walk: call back for a slot, stop at a virtual one, or go on. */
    method ShowSlot<C>(pos: Pos, callback: (C, nat, nat) -> (C, nat), ghost context: C, now: C,
                       ghost users: seq<nat>, ghost virtuals: seq<nat>,
                       ghost listed: seq<nat>, ghost todo: seq<nat>, visited: seq<(nat, nat)>)
      returns (free: bool, stop: bool, answer: nat, next: C, seen: seq<(nat, nat)>, ghost nowListed: seq<nat>)
      requires Valid() && AllInTree(tree.order, todo) && Arrived(tree.order, pos, todo)
      requires Shown(callback, context, now, tree.order, main, users, virtuals, virt, listed,
                     BlocksOf(tree.order, tree.live, todo), visited)
      ensures var after := After(tree.order, pos.index, free);
              && AllInTree(tree.order, after)
              && CountOf(tree.order, after) < CountOf(tree.order, todo)
              && (!stop ==> Shown(callback, context, next, tree.order, main, users, virtuals, virt, nowListed,
                                  BlocksOf(tree.order, tree.live, after), seen))
      ensures stop ==>
                StopsAtFirstAnswer(callback, context, Calls(tree.order, main, users), seen, answer, next)
    {
      ghost var order, live, i := tree.order, tree.live, pos.index;
      seen, nowListed, answer, next, stop := visited, listed, NULL, now, false;
      var marked;
      free, marked := Inspect(pos);
      MarkedStep(order, live, tree.st, i, free, todo);
      ghost var rest := BlocksOf(order, live, After(order, i, free));
      if marked {
        stop, answer, next, seen, nowListed :=
          ShowMarked(pos, callback, context, now, users, virtuals, listed, rest, visited);
      }
    }

    method ShowMarked<C>(pos: Pos, callback: (C, nat, nat) -> (C, nat), ghost context: C, now: C,
                         ghost users: seq<nat>, ghost virtuals: seq<nat>,
                         ghost listed: seq<nat>, ghost rest: seq<nat>, visited: seq<(nat, nat)>)
      returns (stop: bool, answer: nat, next: C, seen: seq<(nat, nat)>, ghost nowListed: seq<nat>)
      requires Valid() && pos.index in tree.live && pos == At(pos.index)
      requires Shown(callback, context, now, tree.order, main, users, virtuals, virt, listed,
                     [pos.index] + rest, visited)
      ensures !stop ==> Shown(callback, context, next, tree.order, main, users, virtuals, virt, nowListed,
                              rest, seen)
      ensures stop ==>
                StopsAtFirstAnswer(callback, context, Calls(tree.order, main, users), seen, answer, next)
    {
      var virtual, call;
      virtual, call, next, answer := Process(pos, callback, now);
      stop, seen, nowListed :=
        Record(callback, context, now, tree.order, main, users, virtuals, virt, listed, pos.index, rest,
               visited, virtual, call, next, answer);
    }
  }
}

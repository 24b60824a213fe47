/**
 The allocation tree of src/mem/Buddy.cpp. Its statuses are packed in a byte buffer; the ghost map
 `st` says what they are and the ghost set `live` which nodes are marked.
 */
module AllocationTree {
  import opened PowersOfTwo
  import opened TreeShape
  import opened TreeStatus
  import opened TreeLayout
  import opened UnaryField

  /** The bits of node i hold its status. */
  ghost predicate FieldHolds(bytes: seq<bv8>, order: nat, st: map<nat, nat>, i: nat)
    requires InTree(order, i) && i in st
  {
    Holds(bytes, Location(order, i), Height(order, i), st[i])
  }

  ghost predicate FieldsHold(bytes: seq<bv8>, order: nat, st: map<nat, nat>) {
    && Domain(order, st)
    && forall i {:trigger FieldHolds(bytes, order, st, i)} | InTree(order, i) ::
         FieldHolds(bytes, order, st, i)
  }

  class BuddyTree {
    var upperPosBound: nat
    var order: nat
    var sizeForOrder: seq<nat>
    const bits: array<bv8>
    ghost var st: map<nat, nat>
    ghost var live: set<nat>

    /** The bits hold the statuses. */
    ghost predicate Stored()
      reads this, bits
    {
      && 1 <= order && upperPosBound == Pow2(order) < UINT_LIMIT
      && |sizeForOrder| == order + 1
      && (forall k | 0 <= k <= order :: sizeForOrder[k] == SizeForOrder(order, k))
      && SizeForOrder(order, 0) <= 8 * bits.Length
      && FieldsHold(bits[..], order, st)
    }

    /** The statuses are those of the marked nodes. */
    ghost predicate Valid()
      reads this, bits
    {
      Stored() && Antichain(order, live) && Consistent(order, live, st)
    }

    predicate ValidPos(pos: Pos)
      reads this
    {
      pos.index != 0 && pos.index < upperPosBound
    }

    function LeftmostChild(): (pos: Pos)
      requires order >= 1
      reads this
    {
      Pos(Pow2(order - 1), order)
    }

    /** buddy_tree_internal_position_tree, which takes the row offset from the memoised table. */
    method InternalPositionTree(pos: Pos) returns (p: InternalPosition)
      requires Stored() && InTree(order, pos.index) && pos == At(pos.index)
      ensures p == Internal(order, pos.index)
    {
      OrderLimit(order);
      InternalPositionIsInternal(order, pos.index);
      var localOffset := order - pos.depth + 1;
      var totalOffset := sizeForOrder[localOffset];
      var localIndex := IndexInRow(pos);
      p := InternalPosition(localOffset, totalOffset + localOffset * localIndex);
    }

    method PopulateSizeForOrder()
      requires order >= 1
      modifies this`sizeForOrder
      ensures |sizeForOrder| == order + 1
      ensures forall k | 0 <= k <= order :: sizeForOrder[k] == SizeForOrder(order, k)
    {
      var table: seq<nat> := [];
      for i := 0 to order + 1
        invariant |table| == i
        invariant forall k | 0 <= k < i :: table[k] == SizeForOrder(order, k)
      {
        var size := SumForOrder(order, i);
        table := table + [size];
      }
      sizeForOrder := table;
    }

    /** buddy_tree_init: every byte zero, every node free. `room` is the space behind the header. */
    constructor (initialOrder: nat, room: nat)
      requires 1 <= initialOrder && Pow2(initialOrder) < UINT_LIMIT
      requires room >= BitsetSizeof(SizeForOrder(initialOrder, 0))
      ensures Valid() && order == initialOrder && live == {}
      ensures fresh(bits) && bits.Length == room
    {
      bits := new bv8[room](_ => 0);
      order := initialOrder;
      upperPosBound := Pow2(initialOrder);
      sizeForOrder := [];
      live := {};
      st := map i | 0 <= i < Pow2(initialOrder) && InTree(initialOrder, i) :: 0;
      new;
      PopulateSizeForOrder();
      TableFits(order);
      forall i ensures i in st <==> InTree(order, i) {
        ValidIsInTree(order, i);
      }
      forall i | InTree(order, i) ensures FieldHolds(bits[..], order, st, i) {
        LocationInBitset(order, i);
      }
      forall i | InTree(order, i) ensures Rule(order, live, st, i) {
        ChildDepth(i);
      }
    }

    method Status(pos: Pos) returns (s: nat)
      requires Stored() && InTree(order, pos.index) && pos == At(pos.index)
      ensures s == st[pos.index]
    {
      var internal := InternalPositionTree(pos);
      s := Read(pos.index, internal);
    }

    /** A read at the internal position of node i. */
    method Read(ghost i: nat, internal: InternalPosition) returns (s: nat)
      requires Stored() && InTree(order, i) && internal == Internal(order, i)
      ensures s == st[i] <= internal.localOffset
    {
      assert FieldHolds(bits[..], order, st, i);
      FieldReadsBack(bits[..], internal.bitsetLocation, internal.localOffset, st[i]);
      s := ReadFromInternalPosition(bits, internal);
    }

    /** A write at the internal position of node i changes the status of that node alone. */
    method Write(ghost i: nat, internal: InternalPosition, value: nat)
      requires Stored() && InTree(order, i) && internal == Internal(order, i)
      requires value <= internal.localOffset
      modifies this`st, bits
      ensures Stored() && st == old(st)[i := value]
    {
      LocationInBitset(order, i);
      assert forall j | InTree(order, j) :: FieldHolds(bits[..], order, st, j);
      ghost var before := bits[..];
      WriteToInternalPosition(bits, internal, value);
      st := st[i := value];
      forall j | InTree(order, j) ensures FieldHolds(bits[..], order, st, j) {
        if j != i {
          if i < j {
            LocationsDisjoint(order, i, j);
          } else {
            LocationsDisjoint(order, j, i);
          }
          HoldsElsewhere(bits[..], before, Location(order, i), Height(order, i),
                         Location(order, j), Height(order, j), st[j]);
        }
      }
    }

    /** The size stored for the sibling, whose bits lie next to this node's. */
    method ReadSibling(pos: Pos, posInternal: InternalPosition) returns (size: nat)
      requires Stored() && InTree(order, pos.index) && pos == At(pos.index) && pos.index != 1
      requires posInternal == Internal(order, pos.index)
      ensures InTree(order, Sibling(pos).index)
      ensures size == st[Sibling(pos).index] <= posInternal.localOffset
    {
      SiblingLocation(order, pos.index);
      var sibling := InternalPosition(posInternal.localOffset,
                       posInternal.bitsetLocation + posInternal.localOffset
                       - 2 * posInternal.localOffset * (pos.index % 2));
      size := Read(Sibling(pos).index, sibling);
    }

    /**
     update_parent_chain repairs the ancestors of the start node and stops as soon as one already
     has the status it should have.
     */
    method UpdateParentChain(start: Pos, startInternal: InternalPosition, startSize: nat)
      requires Stored() && InTree(order, start.index) && start == At(start.index)
      requires startInternal == Internal(order, start.index) && startSize == st[start.index]
      modifies this`st, bits
      ensures Stored() && st == Chain(order, old(st), start.index)
    {
      var pos, posInternal, sizeCurrent := start, startInternal, startSize;
      while pos.index != 1
        invariant Stored() && InTree(order, pos.index) && pos == At(pos.index)
        invariant posInternal == Internal(order, pos.index) && sizeCurrent == st[pos.index]
        invariant Chain(order, st, pos.index) == Chain(order, old(st), start.index)
        decreases pos.index
      {
        var repaired;
        repaired, posInternal, sizeCurrent := RepairParent(pos, posInternal, sizeCurrent);
        if repaired {
          return;
        }
        pos := Parent(pos);
      }
    }

    /** One turn of the loop of update_parent_chain. */
    method RepairParent(pos: Pos, posInternal: InternalPosition, sizeCurrent: nat)
      returns (repaired: bool, parentInternal: InternalPosition, target: nat)
      requires Stored() && InTree(order, pos.index) && pos == At(pos.index) && pos.index != 1
      requires posInternal == Internal(order, pos.index) && sizeCurrent == st[pos.index]
      modifies this`st, bits
      ensures Stored()
      ensures var parent := pos.index / 2;
              && InTree(order, parent) && Parent(pos) == At(parent) && Depth(parent) < order
              && InTree(order, 2 * parent) && InTree(order, 2 * parent + 1)
              && parentInternal == Internal(order, parent)
              && target == Combine(old(st)[2 * parent], old(st)[2 * parent + 1])
              && (repaired <==> old(st)[parent] == target)
              && st == if repaired then old(st) else old(st)[parent := target]
    {
      ghost var parent := pos.index / 2;
      var sizeSibling := ReadSibling(pos, posInternal);
      ParentIsCombined(order, st, pos.index);
      parentInternal := InternalPositionTree(Parent(pos));
      var sizeParent := Read(parent, parentInternal);
      target := Combine(sizeCurrent, sizeSibling);
      assert sizeCurrent <= posInternal.localOffset by { assert FieldHolds(bits[..], order, st, pos.index); }
      assert target <= parentInternal.localOffset;
      repaired := target == sizeParent;
      if !repaired {
        Write(parent, parentInternal, target);
      }
    }

    /** The two steps mark and release share: one write, then the repair of the nodes above. */
    method WriteAndRepair(pos: Pos, internal: InternalPosition, value: nat)
      requires Stored() && InTree(order, pos.index) && pos == At(pos.index)
      requires internal == Internal(order, pos.index) && value <= internal.localOffset
      modifies this`st, bits
      ensures Stored() && st == Chain(order, old(st)[pos.index := value], pos.index)
    {
      Write(pos.index, internal, value);
      UpdateParentChain(pos, internal, value);
    }

    /** buddy_tree_mark. A wholly free node joins the marked ones. */
    method Mark(pos: Pos)
      requires Stored() && InTree(order, pos.index) && pos == At(pos.index)
      modifies this`st, this`live, bits
      ensures Stored() && live == old(live) + {pos.index}
      ensures st == Marked(order, old(st), pos.index)
      ensures old(Valid() && WhollyFree(order, live, pos.index)) ==> Valid()
    {
      var internal := InternalPositionTree(pos);
      ghost var i, before, marked, right := pos.index, st, live, Valid() && WhollyFree(order, live, pos.index);
      WriteAndRepair(pos, internal, internal.localOffset);
      live := live + {i};
      if right {
        MarkOne(order, marked, before, i);
        ChainRepairs(order, marked + {i}, before[i := Height(order, i)], i);
      }
    }

    /**
     buddy_tree_release. Released, a marked node is no longer marked; any other node that is not
     free leaves statuses behind that no set of marked nodes explains.
     */
    method Release(pos: Pos)
      requires Valid() && InTree(order, pos.index) && pos == At(pos.index)
      modifies this`st, this`live, bits
      ensures Stored() && live == old(live) - {pos.index}
      ensures st == Released(order, old(st), pos.index)
      ensures pos.index in old(live) ==> Valid()
      ensures pos.index !in old(live) && old(st)[pos.index] != 0 ==>
                forall marks {:trigger Consistent(order, marks, st)} :: !Consistent(order, marks, st)
    {
      var internal := InternalPositionTree(pos);
      ghost var i, before, marked := pos.index, st, live;
      WriteAndRepair(pos, internal, 0);
      live := live - {i};
      if i in marked {
        ReleaseOne(order, marked, before, i);
        ChainRepairs(order, live, before[i := 0], i);
      } else if before[i] != 0 {
        forall marks ensures !Consistent(order, marks, st) {
          WrongRelease(order, marked, before, i, marks);
        }
      }
    }

    /** buddy_tree_find_free follows the stored statuses down to the target depth. */
    method FindFree(targetDepth: nat, leftBias: bool) returns (found: Pos)
      requires Stored() && 1 <= targetDepth <= order
      ensures InTree(order, 1) && Depth(1) == 1
      ensures var q := Descend(order, st, leftBias, 1, targetDepth - 1);
              if q == 0 then found == INVALID_POS
              else found == At(q) && InTree(order, q) && Depth(q) == targetDepth
    {
      RootLocation(order);
      assert At(1) == Pos(1, 1);
      var start := Pos(1, 1);
      var targetStatus: nat, currentDepth := targetDepth - 1, 1;
      var currentStatus := Status(start);
      while true
        invariant InTree(order, start.index) && start == At(start.index)
        invariant start.depth == currentDepth && targetStatus == targetDepth - currentDepth
        invariant currentStatus == st[start.index]
        invariant Descend(order, st, leftBias, 1, targetDepth - 1)
               == Descend(order, st, leftBias, start.index, targetStatus)
        decreases targetStatus
      {
        if currentDepth == targetDepth {
          return if currentStatus == 0 then start else INVALID_POS;
        }
        if currentStatus > targetStatus {
          return INVALID_POS;
        }
        targetStatus := targetStatus - 1;
        currentDepth := currentDepth + 1;
        start, currentStatus := ChooseChild(start, targetStatus, leftBias);
      }
    }

    /** The optimal fit, then the left-first fit, between two children. */
    method ChooseChild(pos: Pos, targetStatus: nat, leftBias: bool) returns (child: Pos, status: nat)
      requires Stored() && InTree(order, pos.index) && pos == At(pos.index) && pos.depth < order
      ensures InTree(order, 2 * pos.index) && InTree(order, 2 * pos.index + 1)
      ensures child.index
           == if GoRight(st[2 * pos.index], st[2 * pos.index + 1], targetStatus, leftBias)
              then 2 * pos.index + 1 else 2 * pos.index
      ensures child == At(child.index) && child.depth == pos.depth + 1
      ensures status == st[child.index]
    {
      ChildDepth(pos.index);
      var leftStatus, rightStatus := ReadPair(2 * pos.index, LeftChild(pos));
      if leftStatus > targetStatus {
        child, status := RightChild(pos), rightStatus;
      } else if rightStatus > targetStatus {
        child, status := LeftChild(pos), leftStatus;
      } else if leftBias || leftStatus >= rightStatus {
        child, status := LeftChild(pos), leftStatus;
      } else {
        child, status := RightChild(pos), rightStatus;
      }
      ChildOnTree(order, pos, child);
    }

    /** The statuses of a node and its right neighbour, read from adjacent bits. */
    method ReadPair(ghost i: nat, pos: Pos) returns (left: nat, right: nat)
      requires Stored() && InTree(order, i) && InTree(order, i + 1) && Depth(i) == Depth(i + 1)
      requires pos == At(i)
      ensures left == st[i] && right == st[i + 1]
    {
      var internal := InternalPositionTree(pos);
      left := Read(i, internal);
      LocationNext(order, i);
      internal := InternalPosition(internal.localOffset,
                                   internal.bitsetLocation + internal.localOffset);
      right := Read(i + 1, internal);
    }
  }
}

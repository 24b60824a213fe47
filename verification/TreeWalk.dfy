/** The up-and-down walk over the tree, one step at a time. */
module TreeWalk {
  import opened PowersOfTwo
  import opened TreeShape
  import opened AllocationTree

  /** The roots of the subtrees still to be entered once the walk is done with the subtree of i. */
  ghost function Pending(i: nat): (nodes: seq<nat>) {
    if i <= 1 then [] else (if i % 2 == 0 then [i + 1] else []) + Pending(i / 2)
  }

  lemma PendingOfChildren(i: nat)
    requires i >= 1
    ensures Pending(2 * i) == [2 * i + 1] + Pending(i)
    ensures Pending(2 * i + 1) == Pending(i)
  {
  }

  /** struct buddy_tree_walk_state */
  class WalkState {
    var startingPos: Pos
    var currentPos: Pos
    var goingUp: bool
    var walkDone: bool

    constructor ()
      ensures startingPos == currentPos == Pos(1, 1) && !goingUp && !walkDone
    {
      startingPos, currentPos := Pos(1, 1), Pos(1, 1);
      goingUp, walkDone := false, false;
    }
  }

  /** What is left to enter after a step at node i. */
  ghost function After(order: nat, i: nat, goingUp: bool): seq<nat> {
    if !goingUp && Depth(i) < order then [2 * i, 2 * i + 1] + Pending(i) else Pending(i)
  }

  /** The walk stands before subtree i and the pending ones, and these are all that is left. */
  ghost predicate Arrived(order: nat, pos: Pos, left: seq<nat>) {
    InTree(order, pos.index) && pos == At(pos.index) && [pos.index] + Pending(pos.index) == left
  }

  lemma UpFromNode(order: nat, pos: Pos)
    requires InTree(order, pos.index) && pos == At(pos.index)
    ensures pos.index == 1 ==> After(order, pos.index, true) == []
    ensures pos.index > 1 ==> InTree(order, Parent(pos).index) && Parent(pos) == At(Parent(pos).index)
    ensures pos.index > 1 && pos.index % 2 == 1 ==>
              After(order, Parent(pos).index, true) == After(order, pos.index, true)
    ensures pos.index > 1 && pos.index % 2 == 0 ==>
              Arrived(order, RightAdjacent(pos), After(order, pos.index, true))
  {
    if pos.index > 1 {
      ChildDepth(pos.index / 2);
      PendingOfChildren(pos.index / 2);
    }
  }

  lemma DownFromNode(order: nat, pos: Pos)
    requires InTree(order, pos.index) && pos == At(pos.index)
    ensures LeftChild(pos).index < Pow2(order) <==> pos.depth < order
    ensures pos.depth < order ==> Arrived(order, LeftChild(pos), After(order, pos.index, false))
    ensures pos.depth >= order ==> After(order, pos.index, true) == After(order, pos.index, false)
  {
    ValidIsInTree(order, 2 * pos.index);
    ChildDepth(pos.index);
    PendingOfChildren(pos.index);
  }

  /**
   buddy_tree_walk: down to the left child, or, from a leaf or when told to go up, to the next
   subtree on the right; it says no more when there is none.
   */
  method Walk(t: BuddyTree, state: WalkState) returns (more: bool)
    requires t.upperPosBound == Pow2(t.order)
    requires state.startingPos == Pos(1, 1) && !state.walkDone
    requires InTree(t.order, state.currentPos.index) && state.currentPos == At(state.currentPos.index)
    modifies state
    ensures var left := After(t.order, old(state.currentPos.index), old(state.goingUp));
            && (more <==> left != [])
            && (more ==> Arrived(t.order, state.currentPos, left))
    ensures more ==> state.startingPos == Pos(1, 1) && !state.walkDone && !state.goingUp
  {
    ghost var left := After(t.order, state.currentPos.index, state.goingUp);
    var first := true;
    while first || state.goingUp
      invariant state.startingPos == Pos(1, 1)
      invariant InTree(t.order, state.currentPos.index)
      invariant state.currentPos == At(state.currentPos.index)
      invariant first || state.goingUp ==>
                  !state.walkDone && After(t.order, state.currentPos.index, state.goingUp) == left
      invariant !first && !state.goingUp ==>
                  if state.walkDone then left == [] else Arrived(t.order, state.currentPos, left)
      decreases if first then 1 else 0, if state.goingUp then 1 else 0, state.currentPos.index
    {
      first := false;
      if state.goingUp {
        UpFromNode(t.order, state.currentPos);
        if state.currentPos.index == state.startingPos.index {
          state.walkDone := true;
          state.goingUp := false;
        } else if state.currentPos.index % 2 == 1 {
          state.currentPos := Parent(state.currentPos);
        } else {
          state.currentPos := RightAdjacent(state.currentPos);
          state.goingUp := false;
        }
      } else {
        DownFromNode(t.order, state.currentPos);
        if t.ValidPos(LeftChild(state.currentPos)) {
          state.currentPos := LeftChild(state.currentPos);
        } else {
          state.goingUp := true;
        }
      }
    }
    more := !state.walkDone;
  }
}

/** What the marked nodes add up to: leaves free and taken, and the list of blocks in address order. */
module TreeTotals {
  import opened PowersOfTwo
  import opened TreeShape
  import opened TreeStatus
  import opened TreeWalk

  // ----- leaves taken -----

  /** The leaves under node i, of height h, that belong to marked nodes. */
  ghost function TakenLeaves(live: set<nat>, i: nat, h: nat): (n: nat)
    decreases h
  {
    if h == 0 then 0
    else if i in live then Pow2(h - 1)
    else TakenLeaves(live, 2 * i, h - 1) + TakenLeaves(live, 2 * i + 1, h - 1)
  }

  lemma {:induction false} TakenWhenFull(live: set<nat>, i: nat, h: nat)
    requires h >= 1 && Stat(live, i, h) == h
    ensures TakenLeaves(live, i, h) == Pow2(h - 1)
    decreases h
  {
    if i !in live {
      assert h >= 2;
      TakenWhenFull(live, 2 * i, h - 1);
      TakenWhenFull(live, 2 * i + 1, h - 1);
    }
  }

  lemma {:induction false} TakenWhenFree(live: set<nat>, i: nat, h: nat)
    requires Stat(live, i, h) == 0
    ensures TakenLeaves(live, i, h) == 0
    decreases h
  {
    if h > 0 {
      TakenWhenFree(live, 2 * i, h - 1);
      TakenWhenFree(live, 2 * i + 1, h - 1);
    }
  }

  lemma {:induction false} TakenLocal(live: set<nat>, live': set<nat>, i: nat, h: nat)
    requires i >= 1
    requires forall a :: Under(i, h, a) ==> (a in live <==> a in live')
    ensures TakenLeaves(live, i, h) == TakenLeaves(live', i, h)
    decreases h
  {
    if h > 0 {
      forall a ensures Under(i, h, a) <==> a == i || Under(2 * i, h - 1, a) || Under(2 * i + 1, h - 1, a) {
        UnderSplit(i, h, a);
      }
      TakenLocal(live, live', 2 * i, h - 1);
      TakenLocal(live, live', 2 * i + 1, h - 1);
      assert Under(i, h, i);
    }
  }

  /** Removing one marked node gives back exactly its leaves. */
  lemma {:induction false} TakenRemove(order: nat, live: set<nat>, i: nat, h: nat, p: nat)
    requires i >= 1 && h >= 1 && Antichain(order, live) && p in live && Under(i, h, p)
    ensures 1 <= Depth(i) + h - Depth(p) <= h
    ensures TakenLeaves(live, i, h)
         == TakenLeaves(live - {p}, i, h) + Pow2(Depth(i) + h - Depth(p) - 1)
    decreases h
  {
    AncDepth(i, p);
    var rest := live - {p};
    if i == p {
      StatZero(rest, i, h);
      forall a | a in rest ensures !Under(i, h, a) {
        assert IsAnc(p, a) ==> a == p;
      }
      TakenWhenFree(rest, i, h);
    } else {
      ChildDepth(i);
      UnderSplit(i, h, p);
      AncChild(i, p);
      assert IsAnc(i, p);
      if IsAnc(2 * i, p) {
        AncDepth(2 * i, p);
        TakenRemove(order, live, 2 * i, h - 1, p);
        TakenLocal(live, rest, 2 * i + 1, h - 1);
      } else {
        AncDepth(2 * i + 1, p);
        TakenRemove(order, live, 2 * i + 1, h - 1, p);
        TakenLocal(live, rest, 2 * i, h - 1);
      }
    }
  }

  // ----- the sum over the marked nodes -----

  /** The leaves of the nodes of a set, added up one node at a time. */
  ghost function SumLeaves(order: nat, nodes: set<nat>): (n: nat)
    requires forall a | a in nodes :: InTree(order, a)
  {
    if nodes == {} then 0
    else
      var a :| a in nodes;
      Pow2(Height(order, a) - 1) + SumLeaves(order, nodes - {a})
  }

  lemma {:induction false} TakenIsSum(order: nat, live: set<nat>)
    requires order >= 1 && Antichain(order, live)
    requires forall a | a in live :: InTree(order, a)
    ensures TakenLeaves(live, 1, order) == SumLeaves(order, live)
    decreases live
  {
    RootOfTree(order);
    if live == {} {
      StatZero(live, 1, order);
      TakenWhenFree(live, 1, order);
    } else {
      var a :| a in live && SumLeaves(order, live) == Pow2(Height(order, a) - 1) + SumLeaves(order, live - {a});
      RootAnc(a);
      TakenRemove(order, live, 1, order, a);
      assert Depth(1) + order - Depth(a) - 1 == Height(order, a) - 1;
      TakenIsSum(order, live - {a});
    }
  }

  /** Two disjoint families that form one antichain take their leaves separately. */
  lemma {:induction false} TakenUnion(order: nat, a: set<nat>, b: set<nat>, i: nat, h: nat)
    requires i >= 1 && Antichain(order, a + b) && a !! b
    ensures TakenLeaves(a + b, i, h) == TakenLeaves(a, i, h) + TakenLeaves(b, i, h)
    decreases h
  {
    if h > 0 {
      if i in a {
        OnlyItselfUnder(order, a + b, b, i, h);
      } else if i in b {
        OnlyItselfUnder(order, a + b, a, i, h);
      } else {
        TakenUnion(order, a, b, 2 * i, h - 1);
        TakenUnion(order, a, b, 2 * i + 1, h - 1);
      }
    }
  }

  lemma OnlyItselfUnder(order: nat, live: set<nat>, others: set<nat>, i: nat, h: nat)
    requires i >= 1 && Antichain(order, live) && i in live && others <= live - {i}
    ensures TakenLeaves(others, i, h) == 0
  {
    StatZero(others, i, h);
    forall x | x in others ensures !Under(i, h, x) {
      assert IsAnc(i, x) ==> x == i;
    }
    TakenWhenFree(others, i, h);
  }

  // ----- leaves free, as the walk counts them -----

  /** The leaves of the wholly free subtrees the walk meets under node i. */
  ghost function FreeLeaves(order: nat, st: map<nat, nat>, i: nat, h: nat): (n: nat)
    requires Domain(order, st) && InTree(order, i) && h == Height(order, i)
    decreases h
  {
    ChildDepth(i);
    if st[i] == h then 0
    else if st[i] == 0 then Pow2(h - 1)
    else if h == 1 then 0
    else FreeLeaves(order, st, 2 * i, h - 1) + FreeLeaves(order, st, 2 * i + 1, h - 1)
  }

  lemma {:induction false} FreePlusTaken(order: nat, live: set<nat>, st: map<nat, nat>, i: nat, h: nat)
    requires Consistent(order, live, st) && InTree(order, i) && h == Height(order, i)
    ensures FreeLeaves(order, st, i, h) + TakenLeaves(live, i, h) == Pow2(h - 1)
    decreases h
  {
    ConsistentIsStat(order, live, st, i);
    if st[i] == h {
      TakenWhenFull(live, i, h);
    } else if st[i] == 0 {
      TakenWhenFree(live, i, h);
    } else {
      ChildDepth(i);
      PartialIsInner(live, i, h);
      FreePlusTaken(order, live, st, 2 * i, h - 1);
      FreePlusTaken(order, live, st, 2 * i + 1, h - 1);
    }
  }

  lemma PartialIsInner(live: set<nat>, i: nat, h: nat)
    requires h >= 1 && Stat(live, i, h) != 0 && Stat(live, i, h) != h
    ensures h >= 2 && i !in live
  {
  }

  // ----- the blocks in address order -----

  /** The marked nodes under node i, left to right. */
  ghost function Blocks(live: set<nat>, i: nat, h: nat): (nodes: seq<nat>)
    decreases h
  {
    if h == 0 then []
    else if i in live then [i]
    else Blocks(live, 2 * i, h - 1) + Blocks(live, 2 * i + 1, h - 1)
  }

  lemma {:induction false} BlocksAreMarked(order: nat, live: set<nat>, i: nat, h: nat, x: nat)
    requires i >= 1 && Antichain(order, live)
    ensures x in Blocks(live, i, h) <==> x in live && Under(i, h, x)
    decreases h
  {
    if h == 0 {
      if IsAnc(i, x) { AncDepth(i, x); }
    } else {
      UnderSplit(i, h, x);
      if i in live {
        assert IsAnc(i, i);
        assert x in live && IsAnc(i, x) ==> x == i;
      } else {
        BlocksAreMarked(order, live, 2 * i, h - 1, x);
        BlocksAreMarked(order, live, 2 * i + 1, h - 1, x);
      }
    }
  }

  /** Earlier in the list is wholly to the left: the spans of the blocks do not overlap. */
  ghost predicate InAddressOrder(order: nat, nodes: seq<nat>) {
    && (forall k | 0 <= k < |nodes| :: InTree(order, nodes[k]))
    && forall k, l | 0 <= k < l < |nodes| ::
         FirstLeaf(nodes[k] + 1, Height(order, nodes[k])) <= FirstLeaf(nodes[l], Height(order, nodes[l]))
  }

  /** All blocks of the list lie between leaf lo and leaf hi. */
  ghost predicate Between(order: nat, nodes: seq<nat>, lo: nat, hi: nat) {
    && (forall k | 0 <= k < |nodes| :: InTree(order, nodes[k]))
    && forall k | 0 <= k < |nodes| ::
         && lo <= FirstLeaf(nodes[k], Height(order, nodes[k]))
         && FirstLeaf(nodes[k] + 1, Height(order, nodes[k])) <= hi
  }

  lemma ConcatInOrder(order: nat, a: seq<nat>, b: seq<nat>, lo: nat, mid: nat, hi: nat)
    requires InAddressOrder(order, a) && InAddressOrder(order, b)
    requires Between(order, a, lo, mid) && Between(order, b, mid, hi) && lo <= mid <= hi
    ensures InAddressOrder(order, a + b) && Between(order, a + b, lo, hi)
  {
  }

  lemma {:induction false} BlocksInOrder(order: nat, live: set<nat>, i: nat, h: nat)
    requires i >= 1 && Depth(i) + h == order + 1
    ensures InAddressOrder(order, Blocks(live, i, h))
    ensures h >= 1 ==> Between(order, Blocks(live, i, h), FirstLeaf(i, h), FirstLeaf(i + 1, h))
    decreases h
  {
    if h == 1 && i !in live {
      assert Blocks(live, i, h) == [];
    } else if h >= 2 && i !in live {
      ChildDepth(i);
      BlocksInOrder(order, live, 2 * i, h - 1);
      BlocksInOrder(order, live, 2 * i + 1, h - 1);
      ChildSpans(i, h);
      ConcatInOrder(order, Blocks(live, 2 * i, h - 1), Blocks(live, 2 * i + 1, h - 1),
                    FirstLeaf(i, h), FirstLeaf(2 * i + 1, h - 1), FirstLeaf(i + 1, h));
    }
  }

  lemma ChildSpans(i: nat, h: nat)
    requires h >= 2
    ensures FirstLeaf(2 * i, h - 1) == FirstLeaf(i, h)
    ensures FirstLeaf(i, h) <= FirstLeaf(2 * i + 1, h - 1) <= FirstLeaf(i + 1, h)
    ensures FirstLeaf(2 * i + 1 + 1, h - 1) == FirstLeaf(i + 1, h)
  {
    SpanWidth(i, h);
  }

  // ----- the blocks as the walk recognises them -----

  /** Full, and not full by its children: a leaf, or a node whose left child is free. */
  ghost predicate LooksMarked(order: nat, st: map<nat, nat>, i: nat)
    requires Domain(order, st) && InTree(order, i)
  {
    ChildDepth(i);
    st[i] == Height(order, i) && (Depth(i) == order || st[2 * i] == 0)
  }

  /** A full status tells a marked node from a node with full children by the left child alone. */
  lemma LooksMarkedIsMarked(order: nat, live: set<nat>, st: map<nat, nat>, i: nat)
    requires Antichain(order, live) && Consistent(order, live, st) && InTree(order, i)
    ensures LooksMarked(order, st, i) <==> i in live
  {
    ConsistentIsStat(order, live, st, i);
    ChildDepth(i);
    if Depth(i) < order {
      ConsistentIsStat(order, live, st, 2 * i);
      if i in live {
        assert IsAnc(i, 2 * i) by { AncChild(i, 2 * i); }
        FreeBelowMarked(order, live, st, i, 2 * i);
      }
    }
  }

  // ----- totals over the subtrees a walk has still to enter -----

  ghost predicate AllInTree(order: nat, todo: seq<nat>) {
    forall k | 0 <= k < |todo| :: InTree(order, todo[k])
  }

  ghost function NodeCount(h: nat): nat {
    if h == 0 then 0 else 1 + 2 * NodeCount(h - 1)
  }

  ghost function CountOf(order: nat, todo: seq<nat>): nat
    requires AllInTree(order, todo)
  {
    if todo == [] then 0 else NodeCount(Height(order, todo[0])) + CountOf(order, todo[1..])
  }

  ghost function FreeOf(order: nat, st: map<nat, nat>, todo: seq<nat>): nat
    requires Domain(order, st) && AllInTree(order, todo)
  {
    if todo == [] then 0 else FreeLeaves(order, st, todo[0], Height(order, todo[0])) + FreeOf(order, st, todo[1..])
  }

  ghost function BlocksOf(order: nat, live: set<nat>, todo: seq<nat>): seq<nat>
    requires AllInTree(order, todo)
  {
    if todo == [] then [] else Blocks(live, todo[0], Height(order, todo[0])) + BlocksOf(order, live, todo[1..])
  }

  /** What skipping the first subtree leaves to do. */
  lemma Skip(order: nat, st: map<nat, nat>, live: set<nat>, i: nat, rest: seq<nat>)
    requires Domain(order, st) && AllInTree(order, [i] + rest)
    ensures InTree(order, i) && AllInTree(order, rest)
    ensures CountOf(order, rest) < CountOf(order, [i] + rest)
    ensures FreeOf(order, st, [i] + rest) == FreeLeaves(order, st, i, Height(order, i)) + FreeOf(order, st, rest)
    ensures BlocksOf(order, live, [i] + rest)
         == Blocks(live, i, Height(order, i)) + BlocksOf(order, live, rest)
  {
    TailInTree(order, i, rest);
    var todo := [i] + rest;
    assert todo[0] == i && todo[1..] == rest;
    assert NodeCount(Height(order, i)) > 0;
  }

  /** What entering the two children of the first subtree leaves to do. */
  lemma Enter(order: nat, st: map<nat, nat>, live: set<nat>, i: nat, rest: seq<nat>)
    requires Domain(order, st) && AllInTree(order, [i] + rest) && InTree(order, i) && Depth(i) < order
    ensures InTree(order, 2 * i) && InTree(order, 2 * i + 1)
    ensures AllInTree(order, rest) && AllInTree(order, [2 * i, 2 * i + 1] + rest)
    ensures CountOf(order, [2 * i, 2 * i + 1] + rest) < CountOf(order, [i] + rest)
    ensures FreeOf(order, st, [2 * i, 2 * i + 1] + rest)
         == FreeLeaves(order, st, 2 * i, Height(order, i) - 1)
          + FreeLeaves(order, st, 2 * i + 1, Height(order, i) - 1) + FreeOf(order, st, rest)
    ensures BlocksOf(order, live, [2 * i, 2 * i + 1] + rest)
         == Blocks(live, 2 * i, Height(order, i) - 1) + Blocks(live, 2 * i + 1, Height(order, i) - 1)
          + BlocksOf(order, live, rest)
  {
    var left, right := 2 * i, 2 * i + 1;
    ChildHeight(order, i);
    TailInTree(order, i, rest);
    SkipTwo(order, st, live, left, right, Height(order, i) - 1, rest);
    CountDown(order, i, rest);
  }

  /** Two subtrees of one height, one after the other. */
  lemma SkipTwo(order: nat, st: map<nat, nat>, live: set<nat>, left: nat, right: nat, h: nat, rest: seq<nat>)
    requires Domain(order, st) && AllInTree(order, rest) && InTree(order, left) && InTree(order, right)
    requires h == Height(order, left) == Height(order, right)
    ensures AllInTree(order, [left, right] + rest)
    ensures FreeOf(order, st, [left, right] + rest)
         == FreeLeaves(order, st, left, h) + FreeLeaves(order, st, right, h) + FreeOf(order, st, rest)
    ensures BlocksOf(order, live, [left, right] + rest)
         == Blocks(live, left, h) + Blocks(live, right, h) + BlocksOf(order, live, rest)
  {
    var one := [right] + rest;
    var both := [left, right] + rest;
    assert [left] + one == both;
    Prepend(order, right, rest);
    Prepend(order, left, one);
    Skip(order, st, live, left, one);
    Skip(order, st, live, right, rest);
  }

  lemma TailInTree(order: nat, i: nat, rest: seq<nat>)
    requires AllInTree(order, [i] + rest)
    ensures InTree(order, i) && AllInTree(order, rest)
  {
    assert ([i] + rest)[0] == i;
    assert forall k | 0 <= k < |rest| :: rest[k] == ([i] + rest)[k + 1];
  }

  lemma Prepend(order: nat, i: nat, rest: seq<nat>)
    requires InTree(order, i) && AllInTree(order, rest)
    ensures AllInTree(order, [i] + rest)
  {
  }

  lemma CountDown(order: nat, i: nat, rest: seq<nat>)
    requires InTree(order, i) && InTree(order, 2 * i) && InTree(order, 2 * i + 1) && AllInTree(order, rest)
    requires AllInTree(order, [i] + rest) && AllInTree(order, [2 * i, 2 * i + 1] + rest)
    ensures CountOf(order, [2 * i, 2 * i + 1] + rest) < CountOf(order, [i] + rest)
  {
    ChildDepth(i);
    var down := [2 * i, 2 * i + 1] + rest;
    assert down[1..] == [2 * i + 1] + rest && down[1..][1..] == rest && ([i] + rest)[1..] == rest;
  }

  lemma {:induction false} PendingInTree(order: nat, i: nat)
    requires InTree(order, i)
    ensures AllInTree(order, Pending(i)) && AllInTree(order, [i] + Pending(i))
  {
    if i > 1 {
      ChildDepth(i / 2);
      PendingInTree(order, i / 2);
    }
  }

  ghost predicate Partial(order: nat, st: map<nat, nat>, i: nat)
    requires Domain(order, st) && InTree(order, i)
  {
    st[i] != 0 && st[i] != Height(order, i) && Depth(i) < order
  }

  /** One step of a walk that counts free leaves: skip subtree i, or enter it when it is partial. */
  lemma FreeStep(order: nat, st: map<nat, nat>, i: nat, goingUp: bool, todo: seq<nat>)
    requires Domain(order, st) && InTree(order, i) && todo == [i] + Pending(i)
    requires !goingUp ==> Partial(order, st, i)
    ensures AllInTree(order, todo) && AllInTree(order, After(order, i, goingUp))
    ensures CountOf(order, After(order, i, goingUp)) < CountOf(order, todo)
    ensures FreeOf(order, st, todo)
         == FreeOf(order, st, After(order, i, goingUp))
          + (if goingUp then FreeLeaves(order, st, i, Height(order, i)) else 0)
  {
    PendingInTree(order, i);
    Skip(order, st, {}, i, Pending(i));
    if !goingUp {
      Enter(order, st, {}, i, Pending(i));
    }
  }

  /** One step of a walk that lists blocks. */
  lemma BlockStep(order: nat, live: set<nat>, st: map<nat, nat>, i: nat, goingUp: bool, todo: seq<nat>)
    requires Antichain(order, live) && Consistent(order, live, st)
    requires InTree(order, i) && todo == [i] + Pending(i)
    requires goingUp ==> st[i] == 0
    requires !goingUp ==> st[i] != 0
    ensures AllInTree(order, todo) && AllInTree(order, After(order, i, goingUp))
    ensures CountOf(order, After(order, i, goingUp)) < CountOf(order, todo)
    ensures BlocksOf(order, live, todo)
         == Own(order, st, i) + BlocksOf(order, live, After(order, i, goingUp))
  {
    PendingInTree(order, i);
    if goingUp || Depth(i) == order {
      BlockSkip(order, live, st, i, Pending(i));
    } else {
      BlockEnter(order, live, st, i, Pending(i));
    }
  }

  /** The same step, told by the marks. */
  lemma MarkedStep(order: nat, live: set<nat>, st: map<nat, nat>, i: nat, goingUp: bool, todo: seq<nat>)
    requires Antichain(order, live) && Consistent(order, live, st)
    requires InTree(order, i) && todo == [i] + Pending(i)
    requires goingUp <==> st[i] == 0
    ensures LooksMarked(order, st, i) <==> i in live
    ensures AllInTree(order, todo) && AllInTree(order, After(order, i, goingUp))
    ensures CountOf(order, After(order, i, goingUp)) < CountOf(order, todo)
    ensures var rest := BlocksOf(order, live, After(order, i, goingUp));
            BlocksOf(order, live, todo) == if i in live then [i] + rest else rest
  {
    BlockStep(order, live, st, i, goingUp, todo);
    LooksMarkedIsMarked(order, live, st, i);
  }

  ghost function Own(order: nat, st: map<nat, nat>, i: nat): seq<nat>
    requires Domain(order, st) && InTree(order, i)
  {
    if LooksMarked(order, st, i) then [i] else []
  }

  lemma BlockSkip(order: nat, live: set<nat>, st: map<nat, nat>, i: nat, rest: seq<nat>)
    requires Antichain(order, live) && Consistent(order, live, st)
    requires InTree(order, i) && AllInTree(order, [i] + rest) && (st[i] == 0 || Depth(i) == order)
    ensures AllInTree(order, rest) && CountOf(order, rest) < CountOf(order, [i] + rest)
    ensures BlocksOf(order, live, [i] + rest) == Own(order, st, i) + BlocksOf(order, live, rest)
  {
    Skip(order, st, live, i, rest);
    BlocksHere(order, live, st, i);
  }

  lemma BlockEnter(order: nat, live: set<nat>, st: map<nat, nat>, i: nat, rest: seq<nat>)
    requires Antichain(order, live) && Consistent(order, live, st)
    requires InTree(order, i) && AllInTree(order, [i] + rest) && st[i] != 0 && Depth(i) < order
    ensures AllInTree(order, [2 * i, 2 * i + 1] + rest)
    ensures CountOf(order, [2 * i, 2 * i + 1] + rest) < CountOf(order, [i] + rest)
    ensures BlocksOf(order, live, [i] + rest)
         == Own(order, st, i) + BlocksOf(order, live, [2 * i, 2 * i + 1] + rest)
  {
    Skip(order, st, live, i, rest);
    Enter(order, st, live, i, rest);
    BlocksHere(order, live, st, i);
    Regroup(Own(order, st, i), Blocks(live, 2 * i, Height(order, i) - 1),
            Blocks(live, 2 * i + 1, Height(order, i) - 1), BlocksOf(order, live, rest));
  }

  lemma Regroup(a: seq<nat>, b: seq<nat>, c: seq<nat>, d: seq<nat>)
    ensures a + b + c + d == a + (b + c + d)
  {
  }

  /** The blocks of one subtree: the node itself, or those of its children, or none. */
  lemma BlocksHere(order: nat, live: set<nat>, st: map<nat, nat>, i: nat)
    requires Antichain(order, live) && Consistent(order, live, st) && InTree(order, i)
    ensures LooksMarked(order, st, i) ==> st[i] != 0
    ensures st[i] == 0 ==> Blocks(live, i, Height(order, i)) == []
    ensures st[i] != 0 && Depth(i) == order ==>
              Blocks(live, i, Height(order, i)) == Own(order, st, i)
    ensures st[i] != 0 && Depth(i) < order ==>
              Blocks(live, i, Height(order, i))
              == Own(order, st, i)
               + Blocks(live, 2 * i, Height(order, i) - 1) + Blocks(live, 2 * i + 1, Height(order, i) - 1)
  {
    var h := Height(order, i);
    ConsistentIsStat(order, live, st, i);
    LooksMarkedIsMarked(order, live, st, i);
    if st[i] == 0 {
      NoBlocksWhenFree(live, i, h);
    } else if Depth(i) == order {
      LeafBlocks(live, i);
    } else if i in live {
      NoBlocksBelow(order, live, i, h);
    }
  }

  lemma LeafBlocks(live: set<nat>, i: nat)
    ensures Blocks(live, i, 1) == if i in live then [i] else []
    ensures Stat(live, i, 1) != 0 ==> i in live
  {
    assert Blocks(live, 2 * i, 0) == [] == Blocks(live, 2 * i + 1, 0);
    assert Stat(live, 2 * i, 0) == 0 == Stat(live, 2 * i + 1, 0);
  }

  lemma {:induction false} NoBlocksWhenFree(live: set<nat>, i: nat, h: nat)
    requires Stat(live, i, h) == 0
    ensures Blocks(live, i, h) == []
    decreases h
  {
    if h > 0 {
      NoBlocksWhenFree(live, 2 * i, h - 1);
      NoBlocksWhenFree(live, 2 * i + 1, h - 1);
    }
  }

  lemma NoBlocksBelow(order: nat, live: set<nat>, i: nat, h: nat)
    requires Antichain(order, live) && i in live && InTree(order, i) && h == Height(order, i) && h > 1
    ensures Blocks(live, 2 * i, h - 1) == [] == Blocks(live, 2 * i + 1, h - 1)
  {
    ChildDepth(i);
    NoBlocksInChild(order, live, i, h, 2 * i);
    NoBlocksInChild(order, live, i, h, 2 * i + 1);
  }

  lemma NoBlocksInChild(order: nat, live: set<nat>, i: nat, h: nat, c: nat)
    requires Antichain(order, live) && i in live && i >= 1 && h > 1 && IsChild(i, c)
    ensures Blocks(live, c, h - 1) == []
  {
    StatZero(live, c, h - 1);
    forall a | a in live ensures !Under(c, h - 1, a) {
      AncChild(i, a);
      assert IsAnc(i, a) ==> a == i;
    }
    NoBlocksWhenFree(live, c, h - 1);
  }

  lemma BlocksOfRoot(order: nat, live: set<nat>)
    requires order >= 1
    ensures AllInTree(order, [1]) && BlocksOf(order, live, [1]) == Blocks(live, 1, order)
  {
    RootOfTree(order);
    assert [1][1..] == [];
  }

  lemma FreeOfRoot(order: nat, st: map<nat, nat>)
    requires order >= 1 && Domain(order, st)
    ensures InTree(order, 1) && Height(order, 1) == order && AllInTree(order, [1])
    ensures FreeOf(order, st, [1]) == FreeLeaves(order, st, 1, order)
  {
    RootOfTree(order);
    Skip(order, st, {}, 1, []);
    assert [1] + [] == [1];
  }
}

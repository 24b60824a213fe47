/**
 A mark that follows the release of a node that was only partly taken: what buddy_realloc does to the
 tree for a pointer that lies in no slot handed out, and when the statuses are right again afterwards.
 */
module TreeMisuse {
  import opened TreeShape
  import opened TreeStatus

  /** Node n is neither marked nor free. */
  ghost predicate PartlyTaken(order: nat, live: set<nat>, st: map<nat, nat>, n: nat) {
    Antichain(order, live) && Consistent(order, live, st) && InTree(order, n) && n !in live && st[n] != 0
  }

  /** No set of marked nodes explains these statuses. */
  ghost predicate Inexplicable(order: nat, st: map<nat, nat>) {
    forall marks {:trigger Consistent(order, marks, st)} :: !(Antichain(order, marks) && Consistent(order, marks, st))
  }

  /** Released, node n says that it is free though something is marked below it; only its rule is broken. */
  lemma OnlyReleasedBroken(order: nat, live: set<nat>, st: map<nat, nat>, n: nat)
    requires PartlyTaken(order, live, st, n)
    ensures InTree(order, 2 * n) && InTree(order, 2 * n + 1)
    ensures var after := Released(order, st, n);
            && ConsistentBut(order, live, after, 1, n) && after[n] == 0
            && after[2 * n] == st[2 * n] && after[2 * n + 1] == st[2 * n + 1]
            && Combine(st[2 * n], st[2 * n + 1]) == st[n] != 0
    ensures NoMarkAbove(live, n)
  {
    assert Rule(order, live, st, n);
    ChildDepth(n);
    assert Depth(n) < order;
    forall a | a in live && IsAnc(a, n) ensures a == n {
      if a != n {
        FreeBelowMarked(order, live, st, a, n);
      }
    }
    OnlyParentBroken(order, live, st, st[n := 0], n, n);
    ChainRepairsBut(order, live, st[n := 0], n, n);
    ChainOffPath(order, st[n := 0], n, n);
    BelowReleased(order, st, n, 2 * n);
    BelowReleased(order, st, n, 2 * n + 1);
  }

  /** Below the released node nothing changes. */
  lemma BelowReleased(order: nat, st: map<nat, nat>, n: nat, j: nat)
    requires Domain(order, st) && InTree(order, n) && InTree(order, j) && j > n
    ensures Released(order, st, n)[j] == st[j]
  {
    NotAbove(n, j);
    ChainOffPath(order, st[n := 0], n, j);
  }

  /** A free node n with a taken child: no marks at all can have such a status. */
  lemma BrokenRule(order: nat, st: map<nat, nat>, n: nat)
    requires Domain(order, st) && InTree(order, n) && InTree(order, 2 * n) && InTree(order, 2 * n + 1)
    requires st[n] == 0 && Combine(st[2 * n], st[2 * n + 1]) != 0
    ensures Inexplicable(order, st)
  {
    ChildDepth(n);
    forall marks ensures !Consistent(order, marks, st) {
      assert Consistent(order, marks, st) ==> Rule(order, marks, st, n);
    }
  }

  // ----- a mark that is not below the released node -----

  /** The chain passes by: node n stays as it is. */
  lemma MarkedElsewhere(order: nat, live: set<nat>, st: map<nat, nat>, n: nat, q: nat)
    requires PartlyTaken(order, live, st, n) && InTree(order, q) && !IsAnc(n, q)
    ensures Inexplicable(order, Marked(order, Released(order, st, n), q))
  {
    var before := Released(order, st, n);
    var after := Marked(order, before, q);
    OnlyReleasedBroken(order, live, st, n);
    OffMarks(order, before, q, n);
    BrokenRule(order, after, n);
  }

  lemma OffMarks(order: nat, st: map<nat, nat>, q: nat, n: nat)
    requires Domain(order, st) && InTree(order, q) && InTree(order, n) && !IsAnc(n, q)
    requires InTree(order, 2 * n) && InTree(order, 2 * n + 1)
    ensures var after := Marked(order, st, q);
            after[n] == st[n] && after[2 * n] == st[2 * n] && after[2 * n + 1] == st[2 * n + 1]
  {
    AncChild(n, q);
    OffMark(order, st, q, n);
    OffMark(order, st, q, 2 * n);
    OffMark(order, st, q, 2 * n + 1);
  }

  lemma OffMark(order: nat, st: map<nat, nat>, q: nat, j: nat)
    requires Domain(order, st) && InTree(order, q) && InTree(order, j) && !IsAnc(j, q)
    ensures Marked(order, st, q)[j] == st[j]
  {
    assert IsAnc(q, q);
    ChainOffPath(order, st[q := Height(order, q)], q, j);
  }

  /** Marked itself, node n looks wholly taken while one of its children is free. */
  lemma MarkedAgain(order: nat, live: set<nat>, st: map<nat, nat>, n: nat)
    requires PartlyTaken(order, live, st, n)
    requires InTree(order, 2 * n) && InTree(order, 2 * n + 1) && (st[2 * n] == 0 || st[2 * n + 1] == 0)
    ensures Inexplicable(order, Marked(order, Released(order, st, n), n))
  {
    var before := Released(order, st, n);
    var after := Marked(order, before, n);
    var h := Height(order, n);
    OnlyReleasedBroken(order, live, st, n);
    ChainOffPath(order, before[n := h], n, n);
    NotAbove(n, 2 * n);
    NotAbove(n, 2 * n + 1);
    ChainOffPath(order, before[n := h], n, 2 * n);
    ChainOffPath(order, before[n := h], n, 2 * n + 1);
    ChildDepth(n);
    var c := if st[2 * n] != 0 then 2 * n else 2 * n + 1;
    AncChild(n, c);
    forall marks ensures !(Antichain(order, marks) && Consistent(order, marks, after)) {
      if Antichain(order, marks) && Consistent(order, marks, after) {
        assert Rule(order, marks, after, n);
        if n in marks {
          FreeBelowMarked(order, marks, after, n, c);
        }
      }
    }
  }

  // ----- a mark below the released node -----

  /**
   The mark of q mends what the release of n has broken: q lies below n, and the child of n on the way
   to q has less room than before, so that the chain of updates gets as far as n.
   */
  ghost predicate Mends(order: nat, live: set<nat>, n: nat, q: nat)
    requires InTree(order, n)
  {
    exists c {:trigger IsChild(n, c)} | IsChild(n, c) && IsAnc(c, q) :: LessRoom(live, q, c, Height(order, n) - 1)
  }

  /** With q marked too, the largest free block under node c is smaller. */
  ghost predicate LessRoom(live: set<nat>, q: nat, c: nat, h: nat) {
    Stat(live + {q}, c, h) > Stat(live, c, h)
  }

  /** Before and after differ at most at node i and below it. */
  ghost predicate SameOutside(order: nat, before: map<nat, nat>, st: map<nat, nat>, i: nat)
    requires Domain(order, before) && Domain(order, st)
  {
    forall j {:trigger InTree(order, j)} | InTree(order, j) && !IsAnc(i, j) :: st[j] == before[j]
  }

  lemma OutsideParent(order: nat, before: map<nat, nat>, st: map<nat, nat>, i: nat, target: nat)
    requires Domain(order, before) && Domain(order, st) && InTree(order, i) && i > 1 && InTree(order, i / 2)
    requires SameOutside(order, before, st, i)
    ensures SameOutside(order, before, st[i / 2 := target], i / 2)
    ensures st[i / 2] == before[i / 2]
  {
    var p := i / 2;
    NotAbove(p, i);
    assert IsAnc(p, p);
    forall j | InTree(order, j) && !IsAnc(p, j) ensures st[p := target][j] == before[j] {
      if IsAnc(i, j) {
        AncTrans(p, i, j);
      }
    }
  }

  lemma ChildrenInTree(order: nat, n: nat, c: nat, i: nat)
    requires InTree(order, n) && InTree(order, i) && IsChild(n, c) && IsAnc(c, i)
    ensures InTree(order, 2 * n) && InTree(order, 2 * n + 1) && n < c <= i
    ensures !IsAnc(i, n)
  {
    ChildDepth(n);
    AncDepth(c, i);
    NotAbove(n, i);
    if IsAnc(i, n) {
      AncDepth(i, n);
    }
  }

  /** A node strictly below a child of n has neither n nor its children below it. */
  lemma NotUnder(n: nat, c: nat, i: nat)
    requires n >= 1 && IsChild(n, c) && IsAnc(c, i) && i != c
    ensures !IsAnc(i, n) && !IsAnc(i, 2 * n) && !IsAnc(i, 2 * n + 1)
  {
    ChildDepth(n);
    AncDepth(c, i);
    forall j | Depth(j) <= Depth(c) ensures !IsAnc(i, j) {
      if IsAnc(i, j) {
        AncDepth(i, j);
      }
    }
  }

  /**
   The chain from node i, whose status has changed, towards node n, whose rule is broken: if it changes
   the child c of n as well, it goes on and mends everything; otherwise it stops below n.
   */
  lemma {:induction false} ChainPast(order: nat, live: set<nat>, before: map<nat, nat>, st: map<nat, nat>,
                                     i: nat, n: nat, c: nat)
    requires Domain(order, before) && InTree(order, i) && InTree(order, n) && IsChild(n, c) && IsAnc(c, i)
    requires ConsistentBut(order, live, st, i, n) && NoMarkAbove(live, i) && SameOutside(order, before, st, i)
    requires before[n] == 0 && st[i] != before[i] && st[i] != 0
    ensures InTree(order, 2 * n) && InTree(order, 2 * n + 1)
    ensures var after := Chain(order, st, i);
            && (after[c] != before[c] ==> Consistent(order, live, after))
            && (after[c] == before[c] ==>
                ConsistentBut(order, live, after, 1, n)
                && after[n] == 0 && after[2 * n] == before[2 * n] && after[2 * n + 1] == before[2 * n + 1])
    decreases i
  {
    var p := i / 2;
    ChildDepth(p);
    ChildrenInTree(order, n, c, i);
    if i == c {
      assert p == n;
      ChainRepairs(order, live, st, i);
      ChainOffPath(order, st, i, i);
    } else {
      AncDepth(c, p);
      UnmarkedAbove(live, i);
      ParentIsCombined(order, st, i);
      var target := Combine(st[2 * p], st[2 * p + 1]);
      RepairStep(order, live, st, i, Sibling(At(i)).index, target, n);
      NotUnder(n, c, i);
      if st[p] != target {
        OutsideParent(order, before, st, i, target);
        ChainPast(order, live, before, st[p := target], p, n, c);
      }
    }
  }

  /** The mark itself breaks no rule but that of its parent. */
  lemma MarkStarts(order: nat, live: set<nat>, st: map<nat, nat>, n: nat, q: nat)
    requires ConsistentBut(order, live, st, 1, n) && WhollyFree(order, live, q) && q != n
    ensures ConsistentBut(order, live + {q}, st[q := Height(order, q)], q, n) && NoMarkAbove(live + {q}, q)
  {
    var st', live' := st[q := Height(order, q)], live + {q};
    forall j | InTree(order, j) && j != q && j != n ensures Rule(order, live', st, j) {
      assert Rule(order, live, st, j);
    }
    assert Rule(order, live', st', q);
    OnlyParentBroken(order, live', st, st', q, n);
  }

  /** Under a child of n all rules hold. */
  lemma ChildIsStat(order: nat, live: set<nat>, st: map<nat, nat>, n: nat, c: nat)
    requires ConsistentBut(order, live, st, 1, n) && InTree(order, c) && c > n
    ensures st[c] == Stat(live, c, Height(order, c))
  {
    forall j | InTree(order, j) && IsAnc(c, j) ensures Rule(order, live, st, j) {
      AncDepth(c, j);
    }
    SubtreeIsStat(order, live, st, c);
  }

  /** Of the two children only one is on the way to q. */
  lemma MendsByChild(order: nat, live: set<nat>, n: nat, q: nat, c: nat)
    requires InTree(order, n) && IsChild(n, c) && IsAnc(c, q)
    ensures Mends(order, live, n, q) <==> LessRoom(live, q, c, Height(order, n) - 1)
  {
    AncChild(n, q);
  }

  lemma FreeIsZero(order: nat, live: set<nat>, st: map<nat, nat>, q: nat)
    requires Consistent(order, live, st) && WhollyFree(order, live, q)
    ensures st[q] == 0
  {
    ConsistentIsStat(order, live, st, q);
    StatZero(live, q, Height(order, q));
  }

  lemma MarkedBelow(order: nat, live: set<nat>, st: map<nat, nat>, n: nat, q: nat)
    requires PartlyTaken(order, live, st, n) && WhollyFree(order, live, q) && IsAnc(n, q) && q != n
    ensures var after := Marked(order, Released(order, st, n), q);
            if Mends(order, live, n, q) then Antichain(order, live + {q}) && Consistent(order, live + {q}, after)
            else Inexplicable(order, after)
  {
    var before := Released(order, st, n);
    var after := Marked(order, before, q);
    AncChild(n, q);
    var c := if IsAnc(2 * n, q) then 2 * n else 2 * n + 1;
    ChildrenInTree(order, n, c, q);
    OnlyReleasedBroken(order, live, st, n);
    FreeIsZero(order, live, st, q);
    BelowReleased(order, st, n, q);
    MarkStarts(order, live, before, n, q);
    assert IsAnc(q, q);
    ChainPast(order, live + {q}, before, before[q := Height(order, q)], q, n, c);
    RoomTold(order, live, st, before, after, n, q, c);
    if Mends(order, live, n, q) {
      MarkOne(order, live, st, q);
    } else {
      BrokenRule(order, after, n);
    }
  }

  /** The status of the child tells whether there is less room under it. */
  lemma RoomTold(order: nat, live: set<nat>, st: map<nat, nat>, before: map<nat, nat>, after: map<nat, nat>,
                 n: nat, q: nat, c: nat)
    requires Consistent(order, live, st) && InTree(order, n) && InTree(order, c) && IsChild(n, c) && IsAnc(c, q)
    requires c in before && before[c] == st[c]
    requires Consistent(order, live + {q}, after) || ConsistentBut(order, live + {q}, after, 1, n)
    ensures Mends(order, live, n, q) <==> after[c] != before[c]
  {
    ChildDepth(n);
    RowBounds(n);
    RowBounds(c);
    assert Height(order, c) == Height(order, n) - 1;
    ConsistentIsStat(order, live, st, c);
    ChildIsStat(order, live + {q}, after, n, c);
    StatMonotone(live, live + {q}, c, Height(order, c));
    MendsByChild(order, live, n, q, c);
  }

  /** A mark under a child of n that was free always mends n. */
  lemma MendsInFreeHalf(order: nat, live: set<nat>, n: nat, q: nat, c: nat)
    requires InTree(order, n) && InTree(order, q) && IsChild(n, c) && IsAnc(c, q)
    requires Stat(live, c, Height(order, n) - 1) == 0
    ensures Mends(order, live, n, q)
  {
    ChildrenInTree(order, n, c, q);
    ChildDepth(n);
    StatZero(live + {q}, c, Height(order, n) - 1);
    assert Under(c, Height(order, n) - 1, q);
  }

  // ----- what the search finds after the release -----

  lemma TakenIsFull(order: nat, live: set<nat>, st: map<nat, nat>, a: nat, q: nat)
    requires Antichain(order, live) && Consistent(order, live, st) && a in live && InTree(order, q)
    ensures InTree(order, a) && st[a] == Height(order, a)
    ensures IsAnc(q, a) ==> Under(q, Height(order, q), a)
  {
    assert InTree(order, a) && Rule(order, live, st, a);
  }

  /** What the search finds below the released node is wholly free. */
  lemma FoundIsFree(order: nat, live: set<nat>, st: map<nat, nat>, leftBias: bool, n: nat, root: nat, t: nat, q: nat)
    requires PartlyTaken(order, live, st, n) && root == 1 && InTree(order, root) && Depth(root) + t <= order
    requires q == Descend(order, Released(order, st, n), leftBias, root, t) != 0 && IsAnc(n, q) && q != n
    ensures WhollyFree(order, live, q)
  {
    var before := Released(order, st, n);
    DescendBounds(order, before, leftBias, root, t, q, root);
    AncDepth(n, q);
    BelowReleased(order, st, n, q);
    ConsistentIsStat(order, live, st, q);
    StatZero(live, q, Height(order, q));
    OnlyReleasedBroken(order, live, st, n);
    forall a | a in live ensures !IsAnc(a, q) && !IsAnc(q, a) {
      TakenIsFull(order, live, st, a, q);
      if IsAnc(a, q) {
        RootAnc(a);
        DescendBounds(order, before, leftBias, root, t, q, a);
        AncComparable(a, n, q);
        AncDepth(n, a);
        BelowReleased(order, st, n, a);
      }
    }
  }

  /**
   After the release of a node that was only partly taken, marking what the search then finds (or, if it
   finds nothing, the node itself) makes the statuses right again exactly when it mends the node. The
   node is one that the way up from a leaf ends on, so that it has a free child.
   */
  lemma MarkedAfterRelease(order: nat, live: set<nat>, st: map<nat, nat>, leftBias: bool, n: nat, root: nat,
                           t: nat, q: nat, slot: nat)
    requires PartlyTaken(order, live, st, n) && root == 1 && InTree(order, root) && Depth(root) + t <= order
    requires InTree(order, 2 * n) && InTree(order, 2 * n + 1) && (st[2 * n] == 0 || st[2 * n + 1] == 0)
    requires q == Descend(order, Released(order, st, n), leftBias, root, t)
    requires slot == if q == 0 then n else q
    ensures InTree(order, slot)
    ensures var after := Marked(order, Released(order, st, n), slot);
            if Mends(order, live, n, slot)
            then
              && WhollyFree(order, live, slot)
              && Antichain(order, live + {slot}) && Consistent(order, live + {slot}, after)
            else Inexplicable(order, after)
  {
    if slot == n {
      MarkedAgain(order, live, st, n);
      NotBelowItself(order, live, n, n);
    } else {
      DescendBounds(order, Released(order, st, n), leftBias, root, t, q, root);
      if IsAnc(n, q) {
        FoundIsFree(order, live, st, leftBias, n, root, t, q);
        MarkedBelow(order, live, st, n, q);
      } else {
        MarkedElsewhere(order, live, st, n, q);
        NotBelowItself(order, live, n, q);
      }
    }
  }

  lemma NotBelowItself(order: nat, live: set<nat>, n: nat, q: nat)
    requires InTree(order, n) && (q == n || !IsAnc(n, q))
    ensures !Mends(order, live, n, q)
  {
    AncChild(n, q);
  }
}

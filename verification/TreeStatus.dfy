/**
 The meaning of a node's status: a function of the set of marked nodes alone.
 Status 0 is wholly free, status h (the node's height) wholly taken, and v in between says that
 the largest free block lies v levels below.
 */
module TreeStatus {
  import opened TreeShape

  /** The status a parent derives from its children's. */
  function Combine(l: nat, r: nat): (s: nat) {
    if l == 0 && r == 0 then 0 else (if l <= r then l else r) + 1
  }

  /** The status of node i, whose height is h, when the nodes of `live` are marked. */
  ghost function Stat(live: set<nat>, i: nat, h: nat): (s: nat)
    ensures s <= h
    decreases h
  {
    if h == 0 then 0
    else if i in live then h
    else Combine(Stat(live, 2 * i, h - 1), Stat(live, 2 * i + 1, h - 1))
  }

  /** Marked nodes are nodes of the tree and no one lies above another. */
  ghost predicate Antichain(order: nat, live: set<nat>) {
    && (forall a {:trigger InTree(order, a)} | a in live :: InTree(order, a))
    && forall a, b {:trigger IsAnc(a, b)} | a in live && b in live && a != b :: !IsAnc(a, b)
  }

  /** No marked node lies at, above or below q. */
  ghost predicate Unmarked(live: set<nat>, q: nat) {
    forall a | a in live :: !IsAnc(a, q) && !IsAnc(q, a)
  }

  ghost predicate WhollyFree(order: nat, live: set<nat>, q: nat) {
    InTree(order, q) && Unmarked(live, q)
  }

  /** Node a lies in the tree of height h under i. */
  ghost predicate Under(i: nat, h: nat, a: nat) {
    IsAnc(i, a) && Depth(a) < Depth(i) + h
  }

  lemma UnderSplit(i: nat, h: nat, a: nat)
    requires i >= 1 && h >= 1
    ensures Under(i, h, a) <==> a == i || Under(2 * i, h - 1, a) || Under(2 * i + 1, h - 1, a)
  {
    ChildDepth(i);
    AncChild(i, a);
    if Under(i, h, a) && a != i {
      AncDepth(i, a);
    }
  }

  // ----- what the status says -----

  /** Status 0: no marked node at or below. */
  lemma {:induction false} StatZero(live: set<nat>, i: nat, h: nat)
    requires i >= 1
    ensures Stat(live, i, h) == 0 <==> forall a | a in live :: !Under(i, h, a)
    decreases h
  {
    if h == 0 {
      forall a ensures !Under(i, h, a) {
        if IsAnc(i, a) { AncDepth(i, a); }
      }
    } else {
      StatZero(live, 2 * i, h - 1);
      StatZero(live, 2 * i + 1, h - 1);
      forall a ensures Under(i, h, a) <==> a == i || Under(2 * i, h - 1, a) || Under(2 * i + 1, h - 1, a) {
        UnderSplit(i, h, a);
      }
      if i in live {
        assert Under(i, h, i);
      }
    }
  }

  /** Only the marks under a node decide its status. */
  lemma {:induction false} StatLocal(live: set<nat>, live': set<nat>, i: nat, h: nat)
    requires i >= 1
    requires forall a :: Under(i, h, a) ==> (a in live <==> a in live')
    ensures Stat(live, i, h) == Stat(live', i, h)
    decreases h
  {
    if h > 0 {
      forall a ensures Under(i, h, a) <==> a == i || Under(2 * i, h - 1, a) || Under(2 * i + 1, h - 1, a) {
        UnderSplit(i, h, a);
      }
      StatLocal(live, live', 2 * i, h - 1);
      StatLocal(live, live', 2 * i + 1, h - 1);
      assert Under(i, h, i);
    }
  }

  /** Marking more never lowers a status. */
  lemma {:induction false} StatMonotone(live: set<nat>, live': set<nat>, i: nat, h: nat)
    requires live <= live'
    ensures Stat(live, i, h) <= Stat(live', i, h)
    decreases h
  {
    if h > 0 {
      StatMonotone(live, live', 2 * i, h - 1);
      StatMonotone(live, live', 2 * i + 1, h - 1);
    }
  }

  // ----- the stored statuses -----

  /** A status for each node of the tree. */
  ghost predicate Domain(order: nat, st: map<nat, nat>) {
    forall j :: j in st <==> InTree(order, j)
  }

  /** The rule one node must satisfy; it looks no further than the node's children. */
  ghost predicate Rule(order: nat, live: set<nat>, st: map<nat, nat>, i: nat)
    requires InTree(order, i)
    requires Domain(order, st)
  {
    ChildDepth(i);
    st[i] == if i in live then Height(order, i)
             else if Depth(i) == order then 0
             else Combine(st[2 * i], st[2 * i + 1])
  }

  ghost predicate Consistent(order: nat, live: set<nat>, st: map<nat, nat>) {
    && Domain(order, st)
    && forall i {:trigger Rule(order, live, st, i)} | InTree(order, i) :: Rule(order, live, st, i)
  }

  /** The local rule everywhere determines every status. */
  lemma ConsistentIsStat(order: nat, live: set<nat>, st: map<nat, nat>, i: nat)
    requires Consistent(order, live, st) && InTree(order, i)
    ensures st[i] == Stat(live, i, Height(order, i))
  {
    forall j | InTree(order, j) && IsAnc(i, j) ensures Rule(order, live, st, j) {}
    SubtreeIsStat(order, live, st, i);
  }

  /** The local rule in a subtree determines the statuses there. */
  lemma {:induction false} SubtreeIsStat(order: nat, live: set<nat>, st: map<nat, nat>, i: nat)
    requires Domain(order, st) && InTree(order, i)
    requires forall j {:trigger Rule(order, live, st, j)} | InTree(order, j) && IsAnc(i, j) :: Rule(order, live, st, j)
    ensures st[i] == Stat(live, i, Height(order, i))
    decreases Height(order, i)
  {
    assert IsAnc(i, i) && Rule(order, live, st, i);
    ChildDepth(i);
    if Depth(i) < order {
      forall j | InTree(order, j) ensures IsAnc(i, j) <==> j == i || IsAnc(2 * i, j) || IsAnc(2 * i + 1, j) {
        AncChild(i, j);
      }
      SubtreeIsStat(order, live, st, 2 * i);
      SubtreeIsStat(order, live, st, 2 * i + 1);
    }
  }

  lemma ConsistentUnique(order: nat, live: set<nat>, st: map<nat, nat>, st': map<nat, nat>)
    requires Consistent(order, live, st) && Consistent(order, live, st')
    ensures st == st'
  {
    forall i | InTree(order, i) ensures st[i] == st'[i] {
      ConsistentIsStat(order, live, st, i);
      ConsistentIsStat(order, live, st', i);
    }
  }

  // ----- one write and the repair of the nodes above it -----

  /** Every rule holds but, perhaps, that of the parent of node i and that of node e, if there is such a node. */
  ghost predicate ConsistentBut(order: nat, live: set<nat>, st: map<nat, nat>, i: nat, e: nat) {
    && Domain(order, st)
    && forall j {:trigger Rule(order, live, st, j)} |
         InTree(order, j) && j != i / 2 && j != e :: Rule(order, live, st, j)
  }

  /** Node i alone has changed, and obeys its rule: only its parent's rule can be broken. */
  lemma OnlyParentBroken(order: nat, live: set<nat>, before: map<nat, nat>, st: map<nat, nat>, i: nat, e: nat)
    requires InTree(order, i) && Domain(order, before) && Domain(order, st)
    requires st == before[i := st[i]]
    requires forall j {:trigger Rule(order, live, before, j)} |
               InTree(order, j) && j != i && j != e :: Rule(order, live, before, j)
    requires i == e || Rule(order, live, st, i)
    ensures ConsistentBut(order, live, st, i, e)
  {
    forall j | InTree(order, j) && j != i / 2 && j != e ensures Rule(order, live, st, j) {
      ChildDepth(j);
      if j != i {
        assert Rule(order, live, before, j);
      }
    }
  }

  /** The parent's status as update_parent_chain derives it mends the parent's rule. */
  lemma RepairStep(order: nat, live: set<nat>, st: map<nat, nat>, i: nat, sibling: nat, target: nat, e: nat)
    requires InTree(order, i) && i > 1 && ConsistentBut(order, live, st, i, e)
    requires i / 2 !in live && i / 2 != e
    requires sibling == Sibling(At(i)).index && InTree(order, sibling)
    requires target == Combine(st[i], st[sibling])
    ensures InTree(order, i / 2)
    ensures target == st[i / 2] ==> ConsistentBut(order, live, st, 1, e)
    ensures ConsistentBut(order, live, st[i / 2 := target], i / 2, e)
  {
    var p := i / 2;
    ChildDepth(p);
    ParentIsCombined(order, st, i);
    var st' := st[p := target];
    assert Rule(order, live, st', p);
    OnlyParentBroken(order, live, st, st', p, e);
    if target == st[p] {
      assert Rule(order, live, st, p);
    }
  }

  /** The two statuses that update_parent_chain combines are those of the parent's children. */
  lemma ParentIsCombined(order: nat, st: map<nat, nat>, i: nat)
    requires Domain(order, st) && InTree(order, i) && i > 1
    ensures var p, sibling := i / 2, Sibling(At(i)).index;
            && InTree(order, p) && Depth(p) == Depth(i) - 1
            && InTree(order, 2 * p) && InTree(order, 2 * p + 1) && InTree(order, sibling)
            && Combine(st[i], st[sibling]) == Combine(st[2 * p], st[2 * p + 1])
  {
    var p := i / 2;
    ChildDepth(p);
    if i % 2 == 0 {
      assert i == 2 * p && Sibling(At(i)).index == 2 * p + 1;
    } else {
      assert i == 2 * p + 1 && Sibling(At(i)).index == 2 * p;
    }
  }

  lemma UnmarkedAbove(live: set<nat>, i: nat)
    requires i > 1 && NoMarkAbove(live, i)
    ensures i / 2 !in live && NoMarkAbove(live, i / 2)
  {
    forall a | a in live ensures !IsAnc(a, i / 2) {
      if IsAnc(a, i / 2) {
        AncDepth(a, i / 2);
      }
    }
    assert IsAnc(i / 2, i / 2);
  }

  /** The statuses after update_parent_chain has started at node i: it stops at the first ancestor that is right. */
  ghost function Chain(order: nat, st: map<nat, nat>, i: nat): (after: map<nat, nat>)
    requires Domain(order, st) && InTree(order, i)
    ensures Domain(order, after)
    decreases i
  {
    if i == 1 then st
    else
      ChildDepth(i / 2);
      var target := Combine(st[2 * (i / 2)], st[2 * (i / 2) + 1]);
      if st[i / 2] == target then st else Chain(order, st[i / 2 := target], i / 2)
  }

  /** The statuses after buddy_tree_release of node n, whatever it was. */
  ghost function Released(order: nat, st: map<nat, nat>, n: nat): (after: map<nat, nat>)
    requires Domain(order, st) && InTree(order, n)
    ensures Domain(order, after)
  {
    Chain(order, st[n := 0], n)
  }

  /** The statuses after buddy_tree_mark of node q, whatever it was. */
  ghost function Marked(order: nat, st: map<nat, nat>, q: nat): (after: map<nat, nat>)
    requires Domain(order, st) && InTree(order, q)
    ensures Domain(order, after)
  {
    Chain(order, st[q := Height(order, q)], q)
  }

  /** At most the rule of node i's parent is broken, and no ancestor of node i is marked. */
  ghost predicate Repairable(order: nat, live: set<nat>, st: map<nat, nat>, i: nat) {
    ConsistentBut(order, live, st, i, 0) && NoMarkAbove(live, i)
  }

  ghost predicate NoMarkAbove(live: set<nat>, i: nat) {
    forall a | a in live && IsAnc(a, i) :: a == i
  }

  /** Then the chain makes every status right again, in spite of its early exit. */
  lemma ChainRepairs(order: nat, live: set<nat>, st: map<nat, nat>, i: nat)
    requires InTree(order, i) && Repairable(order, live, st, i)
    ensures Consistent(order, live, Chain(order, st, i))
  {
    ChainRepairsBut(order, live, st, i, 0);
    forall j | InTree(order, j) ensures Rule(order, live, Chain(order, st, i), j) {}
  }

  /** A broken rule elsewhere than above node i stays broken, and is the only one. */
  lemma {:induction false} ChainRepairsBut(order: nat, live: set<nat>, st: map<nat, nat>, i: nat, e: nat)
    requires InTree(order, i) && ConsistentBut(order, live, st, i, e) && NoMarkAbove(live, i)
    requires e == 0 || i <= e
    ensures ConsistentBut(order, live, Chain(order, st, i), 1, e)
    decreases i
  {
    if i > 1 {
      var p := i / 2;
      ChildDepth(p);
      UnmarkedAbove(live, i);
      var target := Combine(st[2 * p], st[2 * p + 1]);
      ParentIsCombined(order, st, i);
      RepairStep(order, live, st, i, Sibling(At(i)).index, target, e);
      if st[p] != target {
        ChainRepairsBut(order, live, st[p := target], p, e);
      }
    }
  }

  /** Nothing but proper ancestors of node i changes. */
  lemma {:induction false} ChainOffPath(order: nat, st: map<nat, nat>, i: nat, j: nat)
    requires Domain(order, st) && InTree(order, i) && InTree(order, j) && (!IsAnc(j, i) || j == i)
    ensures Chain(order, st, i)[j] == st[j]
    decreases i
  {
    if i > 1 {
      var p := i / 2;
      ChildDepth(p);
      var target := Combine(st[2 * p], st[2 * p + 1]);
      if st[p] != target {
        if j == i {
          AncDepth(p, i);
          assert !IsAnc(i, p) by {
            if IsAnc(i, p) { AncDepth(i, p); }
          }
        }
        ChainOffPath(order, st[p := target], p, j);
      }
    }
  }

  /** Releasing a node that is not marked but not free leaves statuses that no set of marks explains. */
  lemma WrongRelease(order: nat, live: set<nat>, st: map<nat, nat>, i: nat, marks: set<nat>)
    requires Consistent(order, live, st) && InTree(order, i) && i !in live && st[i] != 0
    ensures !Consistent(order, marks, Released(order, st, i))
  {
    var after := Released(order, st, i);
    ChildDepth(i);
    assert Rule(order, live, st, i);
    ChainOffPath(order, st[i := 0], i, i);
    NotAbove(i, 2 * i);
    NotAbove(i, 2 * i + 1);
    ChainOffPath(order, st[i := 0], i, 2 * i);
    ChainOffPath(order, st[i := 0], i, 2 * i + 1);
    assert Consistent(order, marks, after) ==> Rule(order, marks, after, i);
  }

  lemma NotAbove(i: nat, j: nat)
    requires i < j
    ensures !IsAnc(j, i)
  {
    if IsAnc(j, i) {
      AncDepth(j, i);
    }
  }

  lemma MarkOne(order: nat, live: set<nat>, st: map<nat, nat>, i: nat)
    requires Antichain(order, live) && Consistent(order, live, st) && WhollyFree(order, live, i)
    ensures Antichain(order, live + {i})
    ensures Repairable(order, live + {i}, st[i := Height(order, i)], i)
  {
    var st', live' := st[i := Height(order, i)], live + {i};
    forall j | InTree(order, j) && j != i ensures Rule(order, live', st, j) {
      assert Rule(order, live, st, j);
    }
    assert Rule(order, live', st', i);
    OnlyParentBroken(order, live', st, st', i, 0);
  }

  lemma ReleaseOne(order: nat, live: set<nat>, st: map<nat, nat>, i: nat)
    requires Antichain(order, live) && Consistent(order, live, st) && i in live
    ensures Antichain(order, live - {i}) && WhollyFree(order, live - {i}, i)
    ensures Repairable(order, live - {i}, st[i := 0], i)
  {
    var st', live' := st[i := 0], live - {i};
    assert InTree(order, i);
    forall j | InTree(order, j) && j != i ensures Rule(order, live', st, j) {
      assert Rule(order, live, st, j);
    }
    ChildDepth(i);
    if Depth(i) < order {
      FreeBelowMarked(order, live, st, i, 2 * i);
      FreeBelowMarked(order, live, st, i, 2 * i + 1);
    }
    assert Rule(order, live', st', i);
    OnlyParentBroken(order, live', st, st', i, 0);
  }

  /** Under a marked node every status is zero. */
  lemma FreeBelowMarked(order: nat, live: set<nat>, st: map<nat, nat>, i: nat, p: nat)
    requires Antichain(order, live) && Consistent(order, live, st) && i in live
    requires InTree(order, p) && IsAnc(i, p) && p != i
    ensures st[p] == 0
  {
    ConsistentIsStat(order, live, st, p);
    StatZero(live, p, Height(order, p));
    forall a | a in live ensures !Under(p, Height(order, p), a) {
      if IsAnc(p, a) {
        AncTrans(i, p, a);
        AncDepth(i, p);
        AncDepth(p, a);
      }
    }
  }

  // ----- the descent of buddy_tree_find_free -----

  /** q is a free slot d levels below i, whose height is h: no mark on the way down nor under q. */
  ghost predicate FreeBelow(live: set<nat>, i: nat, h: nat, d: nat, q: nat)
    decreases d
  {
    && i !in live && d < h
    && if d == 0 then q == i && Stat(live, i, h) == 0
       else FreeBelow(live, 2 * i, h - 1, d - 1, q) || FreeBelow(live, 2 * i + 1, h - 1, d - 1, q)
  }

  ghost predicate IsChild(i: nat, c: nat) {
    c == 2 * i || c == 2 * i + 1
  }

  /** The child of i on the way to a free slot below it. */
  lemma ChildToward(live: set<nat>, i: nat, h: nat, d: nat, q: nat) returns (c: nat)
    requires i >= 1 && d > 0 && FreeBelow(live, i, h, d, q)
    ensures i !in live && d < h && IsChild(i, c) && FreeBelow(live, c, h - 1, d - 1, q)
  {
    c := if FreeBelow(live, 2 * i, h - 1, d - 1, q) then 2 * i else 2 * i + 1;
  }

  lemma {:induction false} BelowIsUnder(live: set<nat>, i: nat, h: nat, d: nat, q: nat)
    requires i >= 1 && FreeBelow(live, i, h, d, q)
    ensures Under(i, h, q) && Depth(q) == Depth(i) + d
    decreases d
  {
    if d > 0 {
      var c := ChildToward(live, i, h, d, q);
      ChildDepth(i);
      AncChild(i, q);
      BelowIsUnder(live, c, h - 1, d - 1, q);
    }
  }

  /** The choice between two children with statuses l and r: optimal fit, then left-first fit. */
  predicate GoRight(l: nat, r: nat, targetStatus: nat, leftBias: bool) {
    if l > targetStatus then true
    else if r > targetStatus then false
    else !(leftBias || l >= r)
  }

  /** The child the descent steps to. */
  ghost function Pick(live: set<nat>, leftBias: bool, i: nat, h: nat, d: nat): (c: nat)
    requires i >= 1 && 1 <= d < h && Stat(live, i, h) <= d
    ensures c == 2 * i || c == 2 * i + 1
    ensures Stat(live, c, h - 1) <= d - 1
  {
    if GoRight(Stat(live, 2 * i, h - 1), Stat(live, 2 * i + 1, h - 1), d - 1, leftBias)
    then 2 * i + 1 else 2 * i
  }

  /** The slot the descent reaches from node i, d levels down. */
  ghost function Search(live: set<nat>, leftBias: bool, i: nat, h: nat, d: nat): (q: nat)
    requires i >= 1 && d < h && Stat(live, i, h) <= d
    decreases d
  {
    if d == 0 then i else Search(live, leftBias, Pick(live, leftBias, i, h, d), h - 1, d - 1)
  }

  lemma SearchStep(live: set<nat>, leftBias: bool, i: nat, h: nat, d: nat)
    requires i >= 1 && 1 <= d < h && Stat(live, i, h) <= d
    ensures Search(live, leftBias, i, h, d)
         == Search(live, leftBias, Pick(live, leftBias, i, h, d), h - 1, d - 1)
  {
  }

  /** Status at most d: the descent reaches a free slot d levels down. */
  lemma {:induction false} SearchFinds(live: set<nat>, leftBias: bool, i: nat, h: nat, d: nat)
    requires i >= 1 && d < h && Stat(live, i, h) <= d
    ensures FreeBelow(live, i, h, d, Search(live, leftBias, i, h, d))
    decreases d
  {
    if d > 0 {
      SearchFinds(live, leftBias, Pick(live, leftBias, i, h, d), h - 1, d - 1);
    }
  }

  /** A free slot d levels down: the status is at most d. */
  lemma {:induction false} FreeBoundsStat(live: set<nat>, i: nat, h: nat, d: nat, q: nat)
    requires i >= 1 && FreeBelow(live, i, h, d, q)
    ensures Stat(live, i, h) <= d
    decreases d
  {
    if d > 0 {
      var c := ChildToward(live, i, h, d, q);
      FreeBoundsStat(live, c, h - 1, d - 1, q);
    }
  }

  lemma PickIsLeft(live: set<nat>, i: nat, h: nat, d: nat, c: nat)
    requires i >= 1 && 1 <= d < h && Stat(live, i, h) <= d
    requires IsChild(i, c) && c != Pick(live, true, i, h, d)
    requires Stat(live, c, h - 1) <= d - 1
    ensures Pick(live, true, i, h, d) == 2 * i && c == 2 * i + 1
  {
  }

  lemma LowestStep(live: set<nat>, i: nat, h: nat, d: nat, c: nat, q: nat)
    requires i >= 1 && 1 <= d < h && Stat(live, i, h) <= d && IsChild(i, c)
    requires FreeBelow(live, c, h - 1, d - 1, q) && Stat(live, c, h - 1) <= d - 1
    requires Search(live, true, c, h - 1, d - 1) <= q
    ensures Search(live, true, i, h, d) <= q
  {
    var e, p := Chosen(live, true, i, h, d);
    if c != e {
      PickIsLeft(live, i, h, d, c);
      LeftFirst(live, i, h, d, p, q);
    }
  }

  /** With left bias, the descent takes the lowest free slot of that depth. */
  lemma {:induction false} SearchLowest(live: set<nat>, i: nat, h: nat, d: nat, q: nat)
    requires i >= 1 && FreeBelow(live, i, h, d, q) && Stat(live, i, h) <= d
    ensures Search(live, true, i, h, d) <= q
    decreases d
  {
    if d > 0 {
      var c := ChildToward(live, i, h, d, q);
      FreeBoundsStat(live, c, h - 1, d - 1, q);
      SearchLowest(live, c, h - 1, d - 1, q);
      LowestStep(live, i, h, d, c, q);
    }
  }

  lemma LeftFirst(live: set<nat>, i: nat, h: nat, d: nat, p: nat, q: nat)
    requires i >= 1 && 1 <= d < h
    requires FreeBelow(live, 2 * i, h - 1, d - 1, p) && FreeBelow(live, 2 * i + 1, h - 1, d - 1, q)
    ensures p < q
  {
    ChildDepth(i);
    BelowIsUnder(live, 2 * i, h - 1, d - 1, p);
    BelowIsUnder(live, 2 * i + 1, h - 1, d - 1, q);
    LeftBeforeRight(i, p, q);
  }

  /** At one depth, what lies under the left child comes before what lies under the right. */
  lemma {:induction false} LeftBeforeRight(i: nat, p: nat, q: nat)
    requires i >= 1 && Depth(p) == Depth(q)
    requires IsAnc(2 * i, p) && IsAnc(2 * i + 1, q)
    ensures p < q
    decreases p
  {
    ChildDepth(i);
    AncDepth(2 * i, p);
    AncDepth(2 * i + 1, q);
    if p != 2 * i && q != 2 * i + 1 {
      LeftBeforeRight(i, p / 2, q / 2);
    }
  }

  lemma CombineMonotone(l: nat, l': nat, r: nat)
    requires l <= l'
    ensures Combine(l, r) <= Combine(l', r)
    ensures Combine(l, r) == Combine(r, l)
  {
  }

  /** Filling the fuller of two children costs no more than filling the other one. */
  lemma FullerChildCostsLess(full: nat, full': nat, empty: nat, empty': nat)
    requires empty <= full <= full' && empty <= empty' && full' > 0 && empty' > 0
    ensures Combine(full', empty) <= Combine(empty', full)
  {
  }

  /** A mark under child c changes that child's status only, and raises it above zero. */
  lemma MarkUnderChild(live: set<nat>, i: nat, h: nat, c: nat, other: nat, p: nat)
    requires i >= 1 && h >= 1 && i !in live && Under(c, h - 1, p)
    requires IsChild(i, c) && IsChild(i, other) && c != other
    ensures Stat(live + {p}, c, h - 1) >= Stat(live, c, h - 1)
    ensures Stat(live + {p}, c, h - 1) > 0
    ensures Stat(live + {p}, i, h) == Combine(Stat(live + {p}, c, h - 1), Stat(live, other, h - 1))
  {
    var marked := live + {p};
    OtherChildSame(live, i, h, c, other, p);
    StatMonotone(live, marked, c, h - 1);
    StatZero(marked, c, h - 1);
    CombineMonotone(Stat(marked, c, h - 1), Stat(marked, c, h - 1), Stat(marked, other, h - 1));
    assert i !in marked;
  }

  lemma OtherChildSame(live: set<nat>, i: nat, h: nat, c: nat, other: nat, p: nat)
    requires i >= 1 && h >= 1 && Under(c, h - 1, p) && IsChild(i, c) && IsChild(i, other) && c != other
    ensures p != i && Stat(live + {p}, other, h - 1) == Stat(live, other, h - 1)
  {
    AncChild(i, p);
    StatLocal(live, live + {p}, other, h - 1);
  }

  lemma SameChild(live: set<nat>, i: nat, h: nat, c: nat, p: nat, q: nat)
    requires i >= 1 && h >= 1 && i !in live && IsChild(i, c)
    requires Under(c, h - 1, p) && Under(c, h - 1, q)
    requires Stat(live + {p}, c, h - 1) <= Stat(live + {q}, c, h - 1)
    ensures Stat(live + {p}, i, h) <= Stat(live + {q}, i, h)
  {
    var other := if c == 2 * i then 2 * i + 1 else 2 * i;
    MarkUnderChild(live, i, h, c, other, p);
    MarkUnderChild(live, i, h, c, other, q);
    CombineMonotone(Stat(live + {p}, c, h - 1), Stat(live + {q}, c, h - 1), Stat(live, other, h - 1));
  }

  lemma DifferentChildren(live: set<nat>, i: nat, h: nat, e: nat, c: nat, p: nat, q: nat)
    requires i >= 1 && h >= 1 && i !in live && IsChild(i, c) && IsChild(i, e) && c != e
    requires Under(e, h - 1, p) && Under(c, h - 1, q)
    requires Stat(live, c, h - 1) <= Stat(live, e, h - 1)
    ensures Stat(live + {p}, i, h) <= Stat(live + {q}, i, h)
  {
    MarkUnderChild(live, i, h, e, c, p);
    MarkUnderChild(live, i, h, c, e, q);
    FullerChildCostsLess(Stat(live, e, h - 1), Stat(live + {p}, e, h - 1),
                         Stat(live, c, h - 1), Stat(live + {q}, c, h - 1));
  }

  /** A child with room that is passed over has a status no higher than the chosen one's. */
  lemma PickIsFuller(live: set<nat>, i: nat, h: nat, d: nat, c: nat)
    requires i >= 1 && 1 <= d < h && Stat(live, i, h) <= d
    requires IsChild(i, c) && c != Pick(live, false, i, h, d)
    requires Stat(live, c, h - 1) <= d - 1
    ensures Stat(live, c, h - 1) <= Stat(live, Pick(live, false, i, h, d), h - 1)
  {
  }

  /** With left bias off, no other free slot of that depth would leave a lower status at i. */
  lemma {:induction false} SearchOptimal(live: set<nat>, i: nat, h: nat, d: nat, q: nat)
    requires i >= 1 && FreeBelow(live, i, h, d, q) && Stat(live, i, h) <= d
    ensures Stat(live + {Search(live, false, i, h, d)}, i, h) <= Stat(live + {q}, i, h)
    decreases d
  {
    if d > 0 {
      var c := ChildToward(live, i, h, d, q);
      FreeBoundsStat(live, c, h - 1, d - 1, q);
      SearchOptimal(live, c, h - 1, d - 1, q);
      OptimalStep(live, i, h, d, c, q);
    }
  }

  /** One level of the comparison: the chosen slot against q under child c. */
  lemma OptimalStep(live: set<nat>, i: nat, h: nat, d: nat, c: nat, q: nat)
    requires i >= 1 && 1 <= d < h && i !in live && Stat(live, i, h) <= d && IsChild(i, c)
    requires FreeBelow(live, c, h - 1, d - 1, q) && Stat(live, c, h - 1) <= d - 1
    requires Stat(live + {Search(live, false, c, h - 1, d - 1)}, c, h - 1) <= Stat(live + {q}, c, h - 1)
    ensures Stat(live + {Search(live, false, i, h, d)}, i, h) <= Stat(live + {q}, i, h)
  {
    var e, p := Chosen(live, false, i, h, d);
    BelowIsUnder(live, c, h - 1, d - 1, q);
    if c == e {
      SameChild(live, i, h, c, p, q);
    } else {
      PickIsFuller(live, i, h, d, c);
      DifferentChildren(live, i, h, e, c, p, q);
    }
  }

  /** The child the descent steps to and the slot it reaches under it. */
  lemma Chosen(live: set<nat>, leftBias: bool, i: nat, h: nat, d: nat) returns (e: nat, p: nat)
    requires i >= 1 && 1 <= d < h && Stat(live, i, h) <= d
    ensures IsChild(i, e) && e == Pick(live, leftBias, i, h, d)
    ensures p == Search(live, leftBias, i, h, d) == Search(live, leftBias, e, h - 1, d - 1)
    ensures FreeBelow(live, e, h - 1, d - 1, p)
    ensures Under(e, h - 1, p)
  {
    e := Pick(live, leftBias, i, h, d);
    p := Search(live, leftBias, e, h - 1, d - 1);
    SearchStep(live, leftBias, i, h, d);
    SearchFinds(live, leftBias, e, h - 1, d - 1);
    BelowIsUnder(live, e, h - 1, d - 1, p);
  }

  /** The descent over the stored statuses, t levels down from node i; 0 when it gives up. */
  ghost function Descend(order: nat, st: map<nat, nat>, leftBias: bool, i: nat, t: nat): (q: nat)
    requires Domain(order, st) && InTree(order, i) && Depth(i) + t <= order
    decreases t
  {
    if t == 0 then (if st[i] == 0 then i else 0)
    else if st[i] > t then 0
    else
      ChildDepth(i);
      Descend(order, st, leftBias,
              if GoRight(st[2 * i], st[2 * i + 1], t - 1, leftBias) then 2 * i + 1 else 2 * i, t - 1)
  }

  /** The descent over the stored statuses gives up where there is no room, and else does as the search does. */
  ghost predicate Agrees(order: nat, live: set<nat>, st: map<nat, nat>, leftBias: bool, i: nat, h: nat, t: nat)
    requires Domain(order, st) && InTree(order, i) && h == Height(order, i) && Depth(i) + t <= order
  {
    Descend(order, st, leftBias, i, t) == if Stat(live, i, h) <= t then Search(live, leftBias, i, h, t) else 0
  }

  /** On consistent statuses the descent gives up at once or finds the slot. */
  lemma {:induction false} DescendIsSearch(order: nat, live: set<nat>, st: map<nat, nat>,
                                           leftBias: bool, i: nat, h: nat, t: nat)
    requires Consistent(order, live, st) && InTree(order, i) && h == Height(order, i)
    requires Depth(i) + t <= order
    ensures Agrees(order, live, st, leftBias, i, h, t)
    decreases t
  {
    ConsistentIsStat(order, live, st, i);
    if t == 0 || st[i] > t {
      DescendEnds(order, st, leftBias, i, t);
      SearchEnds(live, leftBias, i, h, t);
    } else {
      var c := DescendStep(order, live, st, leftBias, i, h, t);
      DescendIsSearch(order, live, st, leftBias, c, h - 1, t - 1);
      AgreesStep(order, live, st, leftBias, i, h, t, c);
    }
  }

  lemma AgreesStep(order: nat, live: set<nat>, st: map<nat, nat>, leftBias: bool, i: nat, h: nat, t: nat, c: nat)
    requires Domain(order, st) && InTree(order, i) && InTree(order, c) && Depth(c) == Depth(i) + 1
    requires h == Height(order, i) && h - 1 == Height(order, c)
    requires Depth(i) + t <= order && t > 0 && Stat(live, i, h) <= t && c == Pick(live, leftBias, i, h, t)
    requires Descend(order, st, leftBias, i, t) == Descend(order, st, leftBias, c, t - 1)
    requires Agrees(order, live, st, leftBias, c, h - 1, t - 1)
    ensures Agrees(order, live, st, leftBias, i, h, t)
  {
    SearchStepTo(live, leftBias, i, h, t, c);
  }

  lemma SearchStepTo(live: set<nat>, leftBias: bool, i: nat, h: nat, t: nat, c: nat)
    requires i >= 1 && 1 <= t < h && Stat(live, i, h) <= t && c == Pick(live, leftBias, i, h, t)
    ensures Stat(live, c, h - 1) <= t - 1 && t - 1 < h - 1
    ensures Search(live, leftBias, i, h, t) == Search(live, leftBias, c, h - 1, t - 1)
  {
    SearchStep(live, leftBias, i, h, t);
  }

  lemma SearchEnds(live: set<nat>, leftBias: bool, i: nat, h: nat, t: nat)
    requires i >= 1 && t < h
    ensures t == 0 && Stat(live, i, h) <= t ==> Search(live, leftBias, i, h, t) == i
  {
  }

  lemma DescendEnds(order: nat, st: map<nat, nat>, leftBias: bool, i: nat, t: nat)
    requires Domain(order, st) && InTree(order, i) && Depth(i) + t <= order && (t == 0 || st[i] > t)
    ensures Descend(order, st, leftBias, i, t) == if st[i] == 0 then i else 0
  {
  }

  lemma DescendStep(order: nat, live: set<nat>, st: map<nat, nat>, leftBias: bool, i: nat, h: nat, t: nat)
    returns (c: nat)
    requires Consistent(order, live, st) && InTree(order, i) && h == Height(order, i)
    requires Depth(i) + t <= order && t > 0 && st[i] == Stat(live, i, h) <= t
    ensures InTree(order, c) && Depth(c) == Depth(i) + 1 && h - 1 == Height(order, c)
    ensures Descend(order, st, leftBias, i, t) == Descend(order, st, leftBias, c, t - 1)
    ensures c == Pick(live, leftBias, i, h, t)
  {
    ChildDepth(i);
    ConsistentIsStat(order, live, st, 2 * i);
    ConsistentIsStat(order, live, st, 2 * i + 1);
    c := Pick(live, leftBias, i, h, t);
  }

  // ----- free slots of the whole tree -----

  /** No mark on the way from i down to q, and none under q. */
  ghost predicate ClearOfMarks(live: set<nat>, i: nat, q: nat, h: nat) {
    forall a | a in live :: !(IsAnc(i, a) && IsAnc(a, q)) && !Under(q, h, a)
  }

  lemma {:induction false} BelowIsClear(live: set<nat>, i: nat, h: nat, d: nat, q: nat)
    requires i >= 1 && FreeBelow(live, i, h, d, q)
    ensures ClearOfMarks(live, i, q, h - d)
    decreases d
  {
    if d == 0 {
      StatZero(live, i, h);
      forall a | a in live ensures !(IsAnc(i, a) && IsAnc(a, i)) {
        OnlyItself(i, a);
      }
    } else {
      var c := ChildToward(live, i, h, d, q);
      BelowIsClear(live, c, h - 1, d - 1, q);
      BelowIsUnder(live, c, h - 1, d - 1, q);
      forall a | a in live ensures !(IsAnc(i, a) && IsAnc(a, q)) {
        PathGoesThrough(i, c, a, q);
      }
    }
  }

  lemma OnlyItself(i: nat, a: nat)
    ensures IsAnc(i, a) && IsAnc(a, i) ==> a == i
  {
    if IsAnc(i, a) && IsAnc(a, i) {
      AncDepth(i, a);
      AncDepth(a, i);
    }
  }

  /** A node between i and a node under the child c is i or lies under c too. */
  lemma PathGoesThrough(i: nat, c: nat, a: nat, q: nat)
    requires i >= 1 && IsChild(i, c) && IsAnc(c, q)
    ensures IsAnc(i, a) && IsAnc(a, q) && a != i ==> IsAnc(c, a)
  {
    if IsAnc(i, a) && IsAnc(a, q) && a != i && !IsAnc(c, a) {
      AncChild(i, a);
      AncTrans(if c == 2 * i then 2 * i + 1 else 2 * i, a, q);
      AncChild(i, q);
    }
  }

  /** On the way down the search sees no status that leaves too little room. */
  lemma {:induction false} DescendBounds(order: nat, st: map<nat, nat>, leftBias: bool, i: nat, t: nat, q: nat, a: nat)
    requires Domain(order, st) && InTree(order, i) && Depth(i) + t <= order
    requires q == Descend(order, st, leftBias, i, t) != 0
    ensures InTree(order, q) && st[q] == 0 && IsAnc(i, q) && Depth(q) == Depth(i) + t
    ensures IsAnc(i, a) && IsAnc(a, q) ==> InTree(order, a) && st[a] + Depth(a) <= Depth(q)
    decreases t
  {
    if t == 0 {
      OnlyItself(i, a);
    } else {
      ChildDepth(i);
      var c := if GoRight(st[2 * i], st[2 * i + 1], t - 1, leftBias) then 2 * i + 1 else 2 * i;
      DescendBounds(order, st, leftBias, c, t - 1, q, a);
      AncTrans(i, c, q);
      if IsAnc(i, a) && IsAnc(a, q) && a != i {
        PathGoesThrough(i, c, a, q);
      }
    }
  }

  lemma {:induction false} ClearIsBelow(live: set<nat>, i: nat, h: nat, d: nat, q: nat)
    requires i >= 1 && d < h && IsAnc(i, q) && Depth(q) == Depth(i) + d
    requires ClearOfMarks(live, i, q, h - d)
    ensures FreeBelow(live, i, h, d, q)
    decreases d
  {
    assert IsAnc(i, i);
    if d == 0 {
      AncDepth(i, q);
      StatZero(live, i, h);
    } else {
      ChildDepth(i);
      AncChild(i, q);
      var c := if IsAnc(2 * i, q) then 2 * i else 2 * i + 1;
      forall a | a in live ensures !(IsAnc(c, a) && IsAnc(a, q)) {
        AncChild(i, a);
      }
      ClearIsBelow(live, c, h - 1, d - 1, q);
    }
  }

  /** From the root, a free slot below is a wholly free slot of the tree. */
  lemma FreeFromRoot(order: nat, live: set<nat>, d: nat, q: nat)
    requires Antichain(order, live) && 1 <= d <= order
    ensures FreeBelow(live, 1, order, d - 1, q) <==> WhollyFree(order, live, q) && Depth(q) == d
  {
    assert Depth(1) == 1 + Depth(0);
    if q >= 1 {
      RootAnc(q);
    }
    forall a | a in live ensures IsAnc(1, a) && (Depth(q) == d ==> (Under(q, order - d + 1, a) <==> IsAnc(q, a))) {
      assert InTree(order, a);
      RootAnc(a);
    }
    if FreeBelow(live, 1, order, d - 1, q) {
      BelowIsUnder(live, 1, order, d - 1, q);
      AncDepth(1, q);
      BelowIsClear(live, 1, order, d - 1, q);
    }
    if WhollyFree(order, live, q) && Depth(q) == d {
      ClearIsBelow(live, 1, order, d - 1, q);
    }
  }

  // ----- what buddy_tree_find_free promises -----

  ghost predicate FreeAtDepth(order: nat, live: set<nat>, d: nat, q: nat) {
    WhollyFree(order, live, q) && Depth(q) == d
  }

  lemma RootOfTree(order: nat)
    requires order >= 1
    ensures InTree(order, 1) && Depth(1) == 1 && Height(order, 1) == order
  {
    assert Depth(1) == 1 + Depth(0);
  }

  /** It finds a slot exactly when some wholly free slot of the depth exists, and then such a slot. */
  lemma FindFreeFinds(order: nat, live: set<nat>, st: map<nat, nat>, leftBias: bool, d: nat)
    requires Antichain(order, live) && Consistent(order, live, st) && 1 <= d <= order
    ensures InTree(order, 1) && Depth(1) == 1
    ensures var q := Descend(order, st, leftBias, 1, d - 1);
            && (q != 0 <==> exists f :: FreeAtDepth(order, live, d, f))
            && (q != 0 <==> st[1] <= d - 1)
            && (q != 0 ==> FreeAtDepth(order, live, d, q))
  {
    RootOfTree(order);
    DescendIsSearch(order, live, st, leftBias, 1, order, d - 1);
    ConsistentIsStat(order, live, st, 1);
    if Stat(live, 1, order) <= d - 1 {
      var q := Search(live, leftBias, 1, order, d - 1);
      SearchFinds(live, leftBias, 1, order, d - 1);
      FreeFromRoot(order, live, d, q);
      assert FreeAtDepth(order, live, d, q);
    }
    if f :| FreeAtDepth(order, live, d, f) {
      FreeFromRoot(order, live, d, f);
      FreeBoundsStat(live, 1, order, d - 1, f);
    }
  }

  /** With left bias set it returns the lowest-address slot. */
  lemma FindFreeLowest(order: nat, live: set<nat>, st: map<nat, nat>, d: nat, f: nat)
    requires Antichain(order, live) && Consistent(order, live, st) && 1 <= d <= order
    requires FreeAtDepth(order, live, d, f)
    ensures InTree(order, 1) && Depth(1) == 1
    ensures 0 < Descend(order, st, true, 1, d - 1) <= f
  {
    FindFreeFinds(order, live, st, true, d);
    DescendIsSearch(order, live, st, true, 1, order, d - 1);
    FreeFromRoot(order, live, d, f);
    FreeBoundsStat(live, 1, order, d - 1, f);
    SearchLowest(live, 1, order, d - 1, f);
  }

  /** With left bias off no other slot of that depth would leave a larger free block at the root. */
  lemma FindFreeOptimal(order: nat, live: set<nat>, st: map<nat, nat>, d: nat, f: nat)
    requires Antichain(order, live) && Consistent(order, live, st) && 1 <= d <= order
    requires FreeAtDepth(order, live, d, f)
    ensures InTree(order, 1) && Depth(1) == 1
    ensures var q := Descend(order, st, false, 1, d - 1);
            q != 0 && Stat(live + {q}, 1, order) <= Stat(live + {f}, 1, order)
  {
    FindFreeFinds(order, live, st, false, d);
    DescendIsSearch(order, live, st, false, 1, order, d - 1);
    FreeFromRoot(order, live, d, f);
    FreeBoundsStat(live, 1, order, d - 1, f);
    SearchOptimal(live, 1, order, d - 1, f);
  }
}

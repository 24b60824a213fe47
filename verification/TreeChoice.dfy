/** Which of several free slots buddy_tree_find_free takes when left bias is off. */
module TreeChoice {
  import opened TreeShape
  import opened TreeStatus

  /**
   Where the ways down to q and to f part, the one to q goes into the fuller child: the one with the
   larger status, the left one when both have the same.
   */
  ghost predicate Prefers(order: nat, live: set<nat>, i: nat, q: nat, f: nat)
    requires Depth(i) <= order
  {
    var left, right := Stat(live, 2 * i, order - Depth(i)), Stat(live, 2 * i + 1, order - Depth(i));
    && (IsAnc(2 * i, q) && IsAnc(2 * i + 1, f) ==> left >= right)
    && (IsAnc(2 * i + 1, q) && IsAnc(2 * i, f) ==> right > left)
  }

  /** The same in terms of stored statuses. */
  ghost predicate StoredPrefers(order: nat, st: map<nat, nat>, i: nat, q: nat, f: nat)
    requires Domain(order, st) && InTree(order, 2 * i) && InTree(order, 2 * i + 1)
  {
    && (IsAnc(2 * i, q) && IsAnc(2 * i + 1, f) ==> st[2 * i] >= st[2 * i + 1])
    && (IsAnc(2 * i + 1, q) && IsAnc(2 * i, f) ==> st[2 * i + 1] > st[2 * i])
  }

  /** Every node on the way from i down to f has room for a slot as large as f. */
  ghost predicate RoomOnWay(order: nat, st: map<nat, nat>, i: nat, f: nat)
    requires Domain(order, st)
  {
    forall a {:trigger IsAnc(a, f)} | IsAnc(i, a) && IsAnc(a, f) :: InTree(order, a) && st[a] + Depth(a) <= Depth(f)
  }

  /** The descent prefers the fuller child at every node j below its start. */
  lemma {:induction false} DescendPrefers(order: nat, st: map<nat, nat>, i: nat, t: nat, q: nat, f: nat, j: nat)
    requires Domain(order, st) && InTree(order, i) && Depth(i) + t <= order
    requires q == Descend(order, st, false, i, t) != 0
    requires IsAnc(i, f) && Depth(f) == Depth(i) + t && RoomOnWay(order, st, i, f)
    requires IsAnc(i, j) && InTree(order, 2 * j) && InTree(order, 2 * j + 1)
    ensures StoredPrefers(order, st, j, q, f)
    decreases t
  {
    if t == 0 {
      AncDepth(i, f);
      AncDepth(i, j);
      AncChild(j, i);
    } else {
      ChildDepth(i);
      AncChild(i, f);
      var e := if GoRight(st[2 * i], st[2 * i + 1], t - 1, false) then 2 * i + 1 else 2 * i;
      var c := if IsAnc(2 * i, f) then 2 * i else 2 * i + 1;
      DescendBounds(order, st, false, e, t - 1, q, e);
      assert IsAnc(c, c);
      WayBelow(order, st, i, c, f);
      if c == e && IsAnc(c, j) {
        DescendPrefers(order, st, c, t - 1, q, f, j);
      } else if j == i {
        AncChild(i, q);
      } else {
        NotAboveBoth(i, e, c, j, q, f);
      }
    }
  }

  lemma WayBelow(order: nat, st: map<nat, nat>, i: nat, c: nat, f: nat)
    requires Domain(order, st) && i >= 1 && IsChild(i, c) && IsAnc(c, f) && RoomOnWay(order, st, i, f)
    ensures RoomOnWay(order, st, c, f) && InTree(order, c) && st[c] + Depth(c) <= Depth(f)
  {
    assert IsAnc(c, c);
    AncChild(i, c);
    forall a | IsAnc(c, a) && IsAnc(a, f) ensures InTree(order, a) && st[a] + Depth(a) <= Depth(f) {
      AncTrans(i, c, a);
    }
  }

  /** A node strictly below i is above both q and f only if it lies under the child they share. */
  lemma NotAboveBoth(i: nat, e: nat, c: nat, j: nat, q: nat, f: nat)
    requires i >= 1 && IsChild(i, e) && IsChild(i, c) && IsAnc(e, q) && IsAnc(c, f)
    requires IsAnc(i, j) && j != i && !(c == e && IsAnc(c, j))
    ensures !(IsAnc(2 * j, q) && IsAnc(2 * j + 1, f)) && !(IsAnc(2 * j + 1, q) && IsAnc(2 * j, f))
  {
    AncDepth(i, j);
    AncChild(j, q);
    AncChild(j, f);
    PathGoesThrough(i, e, j, q);
    PathGoesThrough(i, c, j, f);
    AncChild(i, j);
  }

  /** On the way to a free slot every status leaves room for it. */
  lemma FreeHasRoom(order: nat, live: set<nat>, st: map<nat, nat>, f: nat, a: nat)
    requires Antichain(order, live) && Consistent(order, live, st) && WhollyFree(order, live, f)
    requires a >= 1 && IsAnc(a, f)
    ensures InTree(order, a) && st[a] + Depth(a) <= Depth(f)
  {
    AncDepth(a, f);
    RowBounds(a);
    var h, d := Height(order, a), Depth(f) - Depth(a);
    forall b | b in live ensures !(IsAnc(a, b) && IsAnc(b, f)) && !Under(f, h - d, b) {
      assert !IsAnc(b, f) && !IsAnc(f, b);
    }
    ClearIsBelow(live, a, h, d, f);
    FreeBoundsStat(live, a, h, d, f);
    ConsistentIsStat(order, live, st, a);
  }

  /** With left bias off it goes, wherever the way to another free slot parts, into the fuller child, else left. */
  lemma FindFreePrefers(order: nat, live: set<nat>, st: map<nat, nat>, root: nat, d: nat, q: nat, f: nat, i: nat)
    requires Antichain(order, live) && Consistent(order, live, st) && 1 <= d <= order
    requires root == 1 && InTree(order, root) && Depth(root) == 1
    requires q == Descend(order, st, false, root, d - 1) != 0
    requires FreeAtDepth(order, live, d, f) && InTree(order, i) && Depth(i) < order
    ensures Prefers(order, live, i, q, f)
  {
    RootAnc(i);
    RootAnc(f);
    forall a | IsAnc(root, a) && IsAnc(a, f) ensures InTree(order, a) && st[a] + Depth(a) <= Depth(f) {
      AncDepth(root, a);
      FreeHasRoom(order, live, st, f, a);
    }
    ChildDepth(i);
    DescendPrefers(order, st, root, d - 1, q, f, i);
    ChildHeight(order, i);
    ConsistentIsStat(order, live, st, 2 * i);
    ConsistentIsStat(order, live, st, 2 * i + 1);
  }

  /** The ways down to two nodes of one row part somewhere. */
  lemma {:induction false} WaysPart(q: nat, f: nat) returns (i: nat)
    requires q >= 1 && f >= 1 && Depth(q) == Depth(f) && q != f
    ensures i >= 1 && Depth(i) < Depth(q)
    ensures (IsAnc(2 * i, q) && IsAnc(2 * i + 1, f)) || (IsAnc(2 * i + 1, q) && IsAnc(2 * i, f))
    decreases q
  {
    RowBounds(q);
    RowBounds(f);
    i := q / 2;
    if q > 1 && f > 1 && q / 2 != f / 2 {
      ChildDepth(q / 2);
      ChildDepth(f / 2);
      i := WaysPart(q / 2, f / 2);
      AncHalf(q);
      AncHalf(f);
    } else if q > 1 {
      ChildDepth(q / 2);
    }
  }

  lemma AncHalf(q: nat)
    requires q > 1
    ensures forall j | IsAnc(j, q / 2) :: IsAnc(j, q)
  {
    forall j | IsAnc(j, q / 2) ensures IsAnc(j, q) {
      AncDepth(j, q / 2);
    }
  }

  /** Two slots of one depth that are each preferred to the other are the same. */
  lemma OnlyOnePreferred(order: nat, live: set<nat>, q: nat, f: nat)
    requires InTree(order, q) && InTree(order, f) && Depth(q) == Depth(f)
    requires forall i {:trigger Prefers(order, live, i, q, f)} | InTree(order, i) && Depth(i) < order ::
               Prefers(order, live, i, q, f)
    requires forall i {:trigger Prefers(order, live, i, f, q)} | InTree(order, i) && Depth(i) < order ::
               Prefers(order, live, i, f, q)
    ensures q == f
  {
    RowBounds(q);
    if q != f {
      var i := WaysPart(q, f);
      NotBothPreferred(order, live, i, q, f);
    }
  }

  lemma NotBothPreferred(order: nat, live: set<nat>, i: nat, q: nat, f: nat)
    requires Depth(i) <= order
    requires (IsAnc(2 * i, q) && IsAnc(2 * i + 1, f)) || (IsAnc(2 * i + 1, q) && IsAnc(2 * i, f))
    ensures !(Prefers(order, live, i, q, f) && Prefers(order, live, i, f, q))
  {
  }
}

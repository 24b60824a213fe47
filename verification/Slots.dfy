/** The byte ranges of tree nodes: offset, size, alignment and overlap, in a tree of 64-byte leaves. */
module Slots {
  import opened PowersOfTwo
  import opened TreeShape
  import opened TreeStatus
  import opened TreeLayout

  /** BUDDY_ALLOC_ALIGN: sizeof(size_t) * CHAR_BIT. */
  const ALIGN: nat := 64

  ghost function SlotSize(order: nat, i: nat): (size: nat)
    requires InTree(order, i)
  {
    ALIGN * Pow2(if i == 1 then order - 1 else Height(order, i) - 1)
  }

  /** The first leaf under node i, and the leaf just behind its last one. */
  ghost function First(order: nat, i: nat): nat
    requires InTree(order, i)
  {
    FirstLeaf(i, if i == 1 then order else Height(order, i))
  }

  ghost function Behind(order: nat, i: nat): nat
    requires InTree(order, i)
  {
    FirstLeaf(if i == 1 then 2 else i + 1, if i == 1 then order else Height(order, i))
  }

  lemma SpanBounds(order: nat, i: nat)
    requires InTree(order, i)
    ensures Pow2(order - 1) <= First(order, i) < Behind(order, i) <= Pow2(order)
    ensures Behind(order, i) == First(order, i) + Pow2(Height(order, i) - 1)
  {
    RowBounds(i);
    LeafSpan(i, Depth(i), Height(order, i), order);
  }

  lemma LeafSpan(i: nat, d: nat, h: nat, order: nat)
    requires i >= 1 && d == Depth(i) >= 1 && h >= 1 && d + h - 1 == order
    ensures Pow2(order - 1) <= FirstLeaf(i, h) < FirstLeaf(i + 1, h) <= Pow2(order)
    ensures FirstLeaf(i + 1, h) == FirstLeaf(i, h) + Pow2(h - 1)
  {
    RowBounds(i);
    FirstLeafDepth(i, h);
    RowBounds(FirstLeaf(i, h));
    SpanWidth(i, h);
    SpanEnd(i + 1, d, h);
  }

  /** The spans of a row end where the row of leaves ends. */
  lemma SpanEnd(i: nat, d: nat, h: nat)
    requires i <= Pow2(d) && h >= 1
    ensures FirstLeaf(i, h) <= Pow2(d + h - 1)
  {
    FirstLeafProduct(i, h);
    Pow2Add(d, h - 1);
    ProductMonotone(i, Pow2(d), Pow2(h - 1));
  }

  lemma ProductMonotone(a: nat, b: nat, c: nat)
    requires a <= b
    ensures a * c <= b * c
  {
  }

  ghost function SlotOffset(order: nat, i: nat): (offset: nat)
    requires InTree(order, i)
  {
    SpanBounds(order, i);
    ALIGN * (First(order, i) - Pow2(if order == 1 then 0 else order - 1))
  }

  /** size times index in the row, as address_for_position computes it, is the slot's offset. */
  lemma OffsetFormula(order: nat, i: nat)
    requires InTree(order, i) && order <= 63
    ensures Depth(i) >= 1
    ensures SlotSize(order, i) * IndexInRow(At(i)) == SlotOffset(order, i)
  {
    var d, h := Depth(i), Height(order, i);
    RowBounds(i);
    IndexClearsTopBit(i);
    FirstLeafProduct(i, h);
    Pow2Add(d - 1, h - 1);
    var width, row, index := Pow2(h - 1), Pow2(d - 1), IndexInRow(At(i));
    assert d - 1 + (h - 1) == order - 1;
    SpanBounds(order, i);
    OffsetInBytes(width, i, row, index, First(order, i), Pow2(order - 1));
  }

  lemma OffsetInBytes(width: nat, i: nat, row: nat, index: nat, first: nat, start: nat)
    requires row <= i && index == i - row && first == i * width && start == row * width
    ensures ALIGN * width * index == ALIGN * (first - start)
  {
    Distribute(width, i, row);
  }

  lemma Distribute(width: nat, i: nat, row: nat)
    requires row <= i
    ensures row * width <= i * width
    ensures ALIGN * width * (i - row) == ALIGN * (i * width - row * width)
  {
    var k := i - row;
    assert (row + k) * width == row * width + k * width;
    assert ALIGN * width * k == ALIGN * (k * width);
  }

  lemma SlotAligned(order: nat, i: nat)
    requires InTree(order, i) && order <= 63
    ensures SlotOffset(order, i) % SlotSize(order, i) == 0
    ensures SlotOffset(order, i) + SlotSize(order, i) <= ALIGN * Pow2(order - 1)
  {
    OffsetFormula(order, i);
    MultipleHasNoRemainder(SlotSize(order, i), IndexInRow(At(i)));
    SpanBounds(order, i);
  }

  lemma MultipleHasNoRemainder(d: nat, q: nat)
    requires d > 0
    ensures d * q % d == 0
  {
    var m, r := d * q / d, d * q % d;
    assert d * (q - m) == r;
    if q - m >= 1 {
      MultipleIsFar(d, q - m);
    } else if q - m <= -1 {
      MultipleIsFar(d, q - m);
    }
  }

  /** The offset of a slot is a multiple of every smaller slot size. */
  lemma OffsetMultiple(order: nat, i: nat, k: nat) returns (q: nat)
    requires InTree(order, i) && order <= 63 && k < Height(order, i)
    ensures SlotOffset(order, i) == ALIGN * Pow2(k) * q
  {
    var h := Height(order, i);
    OffsetFormula(order, i);
    Pow2Add(k, h - 1 - k);
    q := FactorOut(SlotSize(order, i), Pow2(k), Pow2(h - 1 - k), IndexInRow(At(i)));
  }

  lemma FactorOut(size: nat, a: nat, b: nat, c: nat) returns (q: nat)
    requires size == ALIGN * (a * b)
    ensures size * c == ALIGN * a * q
  {
    q := b * c;
    assert a * b * c == a * q;
  }

  lemma MultiplesApart(n: nat, a: nat, b: nat)
    ensures a == b || n * a + n <= n * b || n * b + n <= n * a
  {
    if a < b {
      Scale(n, a, b);
    } else if b < a {
      Scale(n, b, a);
    }
  }

  lemma Scale(n: nat, a: nat, b: nat)
    requires a < b
    ensures n * a + n <= n * b
  {
    var k := b - a - 1;
    assert n * b == n * a + n + n * k;
  }

  /** Over the smaller of two slot sizes, two slots start at one place or are apart. */
  lemma StartsEqualOrApart(order: nat, s: nat, t: nat, n: nat)
    requires InTree(order, s) && InTree(order, t) && order <= 63
    requires n == SlotSize(order, s) <= SlotSize(order, t) || n == SlotSize(order, t) <= SlotSize(order, s)
    ensures || SlotOffset(order, s) == SlotOffset(order, t)
            || SlotOffset(order, s) + n <= SlotOffset(order, t)
            || SlotOffset(order, t) + n <= SlotOffset(order, s)
  {
    var hs, ht := Height(order, s), Height(order, t);
    Pow2Order(hs - 1, ht - 1);
    Pow2Order(ht - 1, hs - 1);
    var k := if hs <= ht then hs - 1 else ht - 1;
    assert n == ALIGN * Pow2(k);
    var a := OffsetMultiple(order, s, k);
    var b := OffsetMultiple(order, t, k);
    MultiplesApart(n, a, b);
  }

  /** Nodes that are not one above the other have separate byte ranges. */
  lemma SlotsDisjoint(order: nat, a: nat, b: nat)
    requires InTree(order, a) && InTree(order, b) && !IsAnc(a, b) && !IsAnc(b, a)
    ensures || SlotOffset(order, a) + SlotSize(order, a) <= SlotOffset(order, b)
            || SlotOffset(order, b) + SlotSize(order, b) <= SlotOffset(order, a)
  {
    SpanBounds(order, a);
    SpanBounds(order, b);
    NotUnderBoth(order, a, b, First(order, b));
    NotUnderBoth(order, b, a, First(order, a));
  }

  lemma NotUnderBoth(order: nat, a: nat, b: nat, leaf: nat)
    requires InTree(order, a) && InTree(order, b) && leaf == First(order, b)
    requires !IsAnc(a, b) && !IsAnc(b, a)
    ensures !(First(order, a) <= leaf < Behind(order, a))
  {
    FirstLeafDepth(b, Height(order, b));
    SpanIsSubtree(a, Height(order, a), leaf);
    if IsAnc(a, leaf) {
      AncComparable(a, b, leaf);
    }
  }

  // ----- the tail of an arena that is not a power of two -----

  /** The nodes of `virt` cover exactly the leaves from `limit` on. */
  ghost predicate CoversTail(order: nat, virt: set<nat>, limit: nat) {
    && (forall v {:trigger InTree(order, v)} | v in virt :: InTree(order, v))
    && (forall v {:trigger First(order, v)} | v in virt :: limit <= First(order, v))
    && forall leaf: nat {:trigger TailLeaf(order, limit, leaf)} | TailLeaf(order, limit, leaf) ::
         Covered(virt, leaf)
  }

  /** A leaf of the tree from the limit on. */
  ghost predicate TailLeaf(order: nat, limit: nat, leaf: nat) {
    InTree(order, leaf) && Depth(leaf) == order && limit <= leaf
  }

  ghost predicate Covered(virt: set<nat>, leaf: nat) {
    exists v :: v in virt && IsAnc(v, leaf)
  }

  /** A marked node outside the virtual ones lies wholly before the tail. */
  lemma BeforeTail(order: nat, live: set<nat>, virt: set<nat>, limit: nat, u: nat)
    requires Antichain(order, live) && virt <= live && CoversTail(order, virt, limit)
    requires u in live && u !in virt
    ensures InTree(order, u) && Behind(order, u) <= limit
  {
    assert InTree(order, u);
    var h := Height(order, u);
    SpanBounds(order, u);
    var last := Behind(order, u) - 1;
    RowOf(last, order);
    SpanIsSubtree(u, h, last);
    if limit <= last {
      assert TailLeaf(order, limit, last);
      var v :| v in virt && IsAnc(v, last);
      AncComparable(u, v, last);
    }
  }

  /** Nodes with separate spans are not one above the other. */
  lemma SeparateSpans(order: nat, a: nat, b: nat)
    requires InTree(order, a) && InTree(order, b) && Behind(order, a) <= First(order, b)
    ensures !IsAnc(a, b) && !IsAnc(b, a)
  {
    SpanBounds(order, a);
    SpanBounds(order, b);
    AncestorsSpan(order, a, b);
    AncestorsSpan(order, b, a);
  }

  lemma AncestorsSpan(order: nat, a: nat, b: nat)
    requires InTree(order, a) && InTree(order, b)
    ensures IsAnc(a, b) ==> First(order, a) <= First(order, b) < Behind(order, a)
  {
    if IsAnc(a, b) {
      var leaf := First(order, b);
      FirstLeafDepth(b, Height(order, b));
      AncTrans(a, b, leaf);
      SpanIsSubtree(a, Height(order, a), leaf);
    }
  }

  lemma EmptyTail(order: nat)
    requires order >= 1
    ensures CoversTail(order, {}, Pow2(order))
  {
    forall leaf: nat ensures !TailLeaf(order, Pow2(order), leaf) {
      ValidIsInTree(order, leaf);
    }
  }

  /** A node that ends where the covered tail starts is free and extends the tail. */
  lemma ExtendTail(order: nat, virt: set<nat>, p: nat, behind: nat, first: nat)
    requires InTree(order, p) && behind == Behind(order, p) && first == First(order, p)
    requires CoversTail(order, virt, behind)
    ensures WhollyFree(order, virt, p)
    ensures CoversTail(order, virt + {p}, first)
  {
    SpanBounds(order, p);
    forall v | v in virt ensures !IsAnc(v, p) && !IsAnc(p, v) {
      assert InTree(order, v);
      assert First(order, v) >= Behind(order, p);
      SeparateSpans(order, p, v);
    }
    forall leaf: nat | TailLeaf(order, first, leaf) ensures Covered(virt + {p}, leaf) {
      if leaf < Behind(order, p) {
        SpanIsSubtree(p, Height(order, p), leaf);
        assert p in virt + {p};
      } else {
        assert TailLeaf(order, behind, leaf);
        var v :| v in virt && IsAnc(v, leaf);
        assert v in virt + {p};
      }
    }
  }

  /** The spans of the children split the span of their parent in the middle. */
  lemma SplitSpan(order: nat, i: nat)
    requires InTree(order, i) && Depth(i) < order
    ensures InTree(order, 2 * i) && InTree(order, 2 * i + 1)
    ensures First(order, 2 * i) == First(order, i)
    ensures Behind(order, 2 * i) == First(order, 2 * i + 1)
    ensures Behind(order, 2 * i + 1) == Behind(order, i)
    ensures Behind(order, i) - First(order, 2 * i + 1) == Pow2(order - Depth(i) - 1)
  {
    ChildDepth(i);
    var h := Height(order, i);
    assert FirstLeaf(i, h) == FirstLeaf(2 * i, h - 1);
    assert FirstLeaf(i + 1, h) == FirstLeaf(2 * (i + 1), h - 1);
    SpanBounds(order, 2 * i + 1);
  }

  // ----- from a byte back to the node that owns it -----

  ghost predicate InSlot(order: nat, u: nat, offset: nat)
    requires InTree(order, u)
  {
    SlotOffset(order, u) <= offset < SlotOffset(order, u) + SlotSize(order, u)
  }

  /** The leaf a byte belongs to. */
  function LeafOfByte(order: nat, offset: nat): (leaf: nat)
    requires order >= 1
  {
    Pow2(order - 1) + offset / ALIGN
  }

  lemma LeafOfByteInTree(order: nat, offset: nat)
    requires order >= 1 && offset < ALIGN * Pow2(order - 1)
    ensures InTree(order, LeafOfByte(order, offset)) && Depth(LeafOfByte(order, offset)) == order
  {
    RowOf(LeafOfByte(order, offset), order);
  }

  /** A byte lies in the slot of a node exactly when its leaf lies under the node. */
  lemma InSlotIsUnder(order: nat, u: nat, offset: nat)
    requires InTree(order, u) && offset < ALIGN * Pow2(order - 1)
    ensures InSlot(order, u, offset) <==> IsAnc(u, LeafOfByte(order, offset))
  {
    SpanBounds(order, u);
    LeafOfByteInTree(order, offset);
    SpanIsSubtree(u, Height(order, u), LeafOfByte(order, offset));
  }

  /** The first node with a status other than zero on the way up from node i; 0 if there is none. */
  ghost function Climb(order: nat, st: map<nat, nat>, i: nat): (p: nat)
    requires Domain(order, st) && (i == 0 || InTree(order, i))
    decreases i
  {
    if i == 0 then 0
    else if st[i] != 0 then i
    else if i == 1 then 0
    else
      ChildDepth(i / 2);
      Climb(order, st, i / 2)
  }

  /** From anywhere under a marked node the way up finds that node. */
  lemma {:induction false} ClimbFinds(order: nat, live: set<nat>, st: map<nat, nat>, a: nat, i: nat)
    requires Antichain(order, live) && Consistent(order, live, st)
    requires a in live && InTree(order, i) && IsAnc(a, i)
    ensures Climb(order, st, i) == a
    decreases i
  {
    if i == a {
      ConsistentIsStat(order, live, st, i);
    } else {
      assert InTree(order, a);
      FreeBelowMarked(order, live, st, a, i);
      ChildDepth(i / 2);
      AncDepth(a, i / 2);
      ClimbFinds(order, live, st, a, i / 2);
    }
  }

  lemma {:induction false} ClimbGoesUp(order: nat, st: map<nat, nat>, i: nat)
    requires Domain(order, st) && InTree(order, i)
    ensures var p := Climb(order, st, i); p == 0 || (InTree(order, p) && IsAnc(p, i))
    decreases i
  {
    if st[i] == 0 && i != 1 {
      ChildDepth(i / 2);
      ClimbGoesUp(order, st, i / 2);
      var p := Climb(order, st, i / 2);
      if p != 0 {
        AncDepth(p, i / 2);
      }
    }
  }

  /** Something is found on the way up exactly when something is marked at all. */
  lemma {:induction false} ClimbStops(order: nat, live: set<nat>, st: map<nat, nat>, i: nat)
    requires Antichain(order, live) && Consistent(order, live, st) && InTree(order, i)
    ensures Climb(order, st, i) == 0 <==> live == {}
    ensures Climb(order, st, i) != 0 ==> InTree(order, Climb(order, st, i)) && st[Climb(order, st, i)] != 0
    decreases i
  {
    if i == 1 {
      RootTellsAll(order, live, st, i);
    } else if st[i] == 0 {
      ChildDepth(i / 2);
      ClimbStops(order, live, st, i / 2);
    } else {
      ConsistentIsStat(order, live, st, i);
      StatZero(live, i, Height(order, i));
    }
  }

  /** Where the way up ends above its start it has come from a free child. */
  lemma {:induction false} ClimbLeavesChild(order: nat, st: map<nat, nat>, i: nat)
    requires Domain(order, st) && InTree(order, i)
    ensures var p := Climb(order, st, i);
            || p == 0 || p == i
            || (InTree(order, 2 * p) && InTree(order, 2 * p + 1) && (st[2 * p] == 0 || st[2 * p + 1] == 0))
    decreases i
  {
    if st[i] == 0 && i != 1 {
      ChildDepth(i / 2);
      ClimbLeavesChild(order, st, i / 2);
    }
  }

  lemma RootTellsAll(order: nat, live: set<nat>, st: map<nat, nat>, root: nat)
    requires Antichain(order, live) && Consistent(order, live, st) && root == 1 && InTree(order, root)
    ensures st[root] == 0 <==> live == {}
  {
    ConsistentIsStat(order, live, st, root);
    StatZero(live, root, Height(order, root));
    forall a | a in live ensures Under(root, Height(order, root), a) {
      assert InTree(order, a);
      RootAnc(a);
    }
  }

  /** The node the search for a byte ends on; 0 for a byte behind the tree or when it finds none. */
  ghost function Owner(order: nat, st: map<nat, nat>, offset: nat): (p: nat)
    requires Domain(order, st) && order >= 1
  {
    if offset < ALIGN * Pow2(order - 1) then
      LeafOfByteInTree(order, offset);
      Climb(order, st, LeafOfByte(order, offset))
    else 0
  }

  /** For a byte in the slot of a marked node the search ends on that node. */
  lemma OwnerOfByte(order: nat, live: set<nat>, st: map<nat, nat>, u: nat, offset: nat)
    requires order >= 1 && Antichain(order, live) && Consistent(order, live, st)
    requires InTree(order, u) && u in live && InSlot(order, u, offset)
    ensures Owner(order, st, offset) == u
  {
    SlotInTree(order, u);
    LeafOfByteInTree(order, offset);
    InSlotIsUnder(order, u, offset);
    ClimbFinds(order, live, st, u, LeafOfByte(order, offset));
  }

  lemma SlotInTree(order: nat, u: nat)
    requires order >= 1 && InTree(order, u)
    ensures SlotOffset(order, u) + SlotSize(order, u) <= ALIGN * Pow2(order - 1)
  {
    SpanBounds(order, u);
    assert Pow2(order) == 2 * Pow2(order - 1);
  }

  /** A marked node that the search ends on holds the byte; the search fails only as said. */
  lemma OwnerExact(order: nat, live: set<nat>, st: map<nat, nat>, offset: nat)
    requires order >= 1 && Antichain(order, live) && Consistent(order, live, st)
    ensures var p := Owner(order, st, offset);
            && (p == 0 <==> live == {} || offset >= ALIGN * Pow2(order - 1))
            && (p != 0 ==> InTree(order, p) && st[p] != 0)
            && (p in live ==> InTree(order, p) && InSlot(order, p, offset))
  {
    if offset < ALIGN * Pow2(order - 1) {
      LeafOfByteInTree(order, offset);
      var leaf := LeafOfByte(order, offset);
      ClimbGoesUp(order, st, leaf);
      ClimbStops(order, live, st, leaf);
      var p := Owner(order, st, offset);
      if p in live {
        assert InTree(order, p);
        InSlotIsUnder(order, p, offset);
      }
    }
    assert 0 in live ==> InTree(order, 0);
  }
}

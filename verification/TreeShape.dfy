/** Positions of the complete binary tree behind the buddy allocator: navigation, depth and ancestry. */
module TreeShape {
  import opened PowersOfTwo

  /** struct buddy_tree_pos: the heap index of a node (the root is 1) and its depth. */
  datatype Pos = Pos(index: nat, depth: nat)

  const INVALID_POS := Pos(0, 0)

  /** The depth of a node is the bit length of its index. */
  function Depth(i: nat): nat {
    BitLength(i)
  }

  predicate InTree(order: nat, i: nat) {
    i >= 1 && Depth(i) <= order
  }

  /** A leaf has height 1. */
  function Height(order: nat, i: nat): (h: nat)
    requires InTree(order, i)
  {
    if i == 1 then order else order - Depth(i) + 1
  }

  function At(i: nat): Pos {
    Pos(i, Depth(i))
  }

  // ----- navigation -----

  function LeftChild(pos: Pos): Pos {
    Pos(2 * pos.index, pos.depth + 1)
  }

  function RightChild(pos: Pos): Pos {
    Pos(2 * pos.index + 1, pos.depth + 1)
  }

  /** index ^ 1 */
  function Sibling(pos: Pos): Pos {
    Pos(if pos.index % 2 == 0 then pos.index + 1 else pos.index - 1, pos.depth)
  }

  /** The depth of a depth-0 position wraps around in the source; it is never read. */
  function Parent(pos: Pos): Pos {
    Pos(pos.index / 2, if pos.depth == 0 then 0 else pos.depth - 1)
  }

  /** (index + 1) ^ index: the bits that change when one is added. */
  function XorNext(i: nat): (x: nat) {
    if i % 2 == 0 then 1 else 2 * XorNext(i / 2) + 1
  }

  function RightAdjacent(pos: Pos): Pos {
    if XorNext(pos.index) > pos.index then INVALID_POS else Pos(pos.index + 1, pos.depth)
  }

  /** The test tells the last node of a row. */
  lemma {:induction false} XorNextAtRowEnd(i: nat)
    requires i >= 1
    ensures XorNext(i) > i <==> Depth(i + 1) != Depth(i)
    ensures Depth(i + 1) != Depth(i) ==> XorNext(i) == 2 * i + 1
  {
    if i % 2 == 1 && i > 1 {
      XorNextAtRowEnd(i / 2);
      assert (i + 1) / 2 == i / 2 + 1;
    } else if i == 1 {
      assert Depth(2) == 1 + Depth(1);
      assert XorNext(1) == 2 * XorNext(0) + 1;
    } else {
      ChildDepth(i / 2);
    }
  }

  lemma Navigation(i: nat)
    requires i >= 1
    ensures LeftChild(At(i)) == At(2 * i) && RightChild(At(i)) == At(2 * i + 1)
    ensures Sibling(At(2 * i)) == At(2 * i + 1) && Sibling(At(2 * i + 1)) == At(2 * i)
    ensures Parent(At(2 * i)) == At(i) == Parent(At(2 * i + 1))
    ensures Parent(At(1)) == INVALID_POS
  {
    ChildDepth(i);
    assert Depth(0) == 0;
    assert Depth(1) == 1 + Depth(0);
  }

  lemma ChildDepth(i: nat)
    requires i >= 1
    ensures Depth(2 * i) == Depth(i) + 1 == Depth(2 * i + 1)
    ensures 2 * i / 2 == i == (2 * i + 1) / 2
  {
  }

  lemma ChildHeight(order: nat, i: nat)
    requires InTree(order, i) && Depth(i) < order
    ensures InTree(order, 2 * i) && InTree(order, 2 * i + 1)
    ensures Height(order, 2 * i) == Height(order, i) - 1 == Height(order, 2 * i + 1)
  {
    ChildDepth(i);
  }

  lemma ChildOnTree(order: nat, pos: Pos, child: Pos)
    requires InTree(order, pos.index) && pos == At(pos.index) && pos.depth < order
    requires child == LeftChild(pos) || child == RightChild(pos)
    ensures InTree(order, child.index) && child == At(child.index) && child.depth == pos.depth + 1
  {
    ChildDepth(pos.index);
  }

  lemma ParentOnTree(order: nat, pos: Pos)
    requires InTree(order, pos.index) && pos == At(pos.index)
    ensures pos.index == 1 ==> Parent(pos) == INVALID_POS
    ensures pos.index > 1 ==> InTree(order, Parent(pos).index) && Parent(pos) == At(Parent(pos).index)
  {
    if pos.index == 1 {
      assert Depth(1) == 1 + Depth(0);
    } else {
      ChildDepth(pos.index / 2);
    }
  }

  /** A row of the tree is an interval of indices. */
  lemma RowBounds(i: nat)
    requires i >= 1
    ensures Depth(i) >= 1
    ensures Pow2(Depth(i) - 1) <= i < Pow2(Depth(i))
  {
    BitLengthBounds(i);
  }

  lemma RowOf(i: nat, d: nat)
    requires d >= 1 && Pow2(d - 1) <= i < Pow2(d)
    ensures Depth(i) == d
  {
    BitLengthUnique(i, d);
  }

  /** buddy_tree_valid compares the index with 1u << order: that is membership. */
  lemma ValidIsInTree(order: nat, i: nat)
    ensures InTree(order, i) <==> 0 < i < Pow2(order)
  {
    if i >= 1 {
      RowBounds(i);
      if Depth(i) <= order {
        Pow2Monotone(Depth(i), order);
      } else {
        Pow2Monotone(order, Depth(i) - 1);
      }
    }
  }

  // ----- ancestry -----

  /** a is b or lies on the path from b to the root. */
  predicate IsAnc(a: nat, b: nat)
    decreases b
  {
    a == b || (a < b && IsAnc(a, if b > 1 then b / 2 else 0))
  }

  lemma {:induction false} AncDepth(a: nat, b: nat)
    requires IsAnc(a, b)
    ensures a <= b && Depth(a) <= Depth(b)
    ensures Depth(a) == Depth(b) ==> a == b
    decreases b
  {
    if a != b {
      AncDepth(a, b / 2);
    }
  }

  lemma {:induction false} RootAnc(b: nat)
    requires b >= 1
    ensures IsAnc(1, b)
  {
    if b > 1 {
      RootAnc(b / 2);
    }
  }

  lemma {:induction false} AncTrans(a: nat, b: nat, c: nat)
    requires IsAnc(a, b) && IsAnc(b, c)
    ensures IsAnc(a, c)
    decreases c
  {
    if b != c {
      AncTrans(a, b, c / 2);
      AncDepth(a, b);
    }
  }

  /** Two nodes above a common node are on one path. */
  lemma {:induction false} AncComparable(a: nat, b: nat, c: nat)
    requires IsAnc(a, c) && IsAnc(b, c)
    ensures IsAnc(a, b) || IsAnc(b, a)
    decreases c
  {
    if a != c && b != c {
      AncComparable(a, b, c / 2);
    }
  }

  /** What lies strictly below a node lies under exactly one child. */
  lemma {:induction false} AncChild(i: nat, p: nat)
    requires i >= 1
    ensures IsAnc(i, p) && i != p ==> IsAnc(2 * i, p) || IsAnc(2 * i + 1, p)
    ensures IsAnc(2 * i, p) || IsAnc(2 * i + 1, p) ==> IsAnc(i, p) && i != p
    ensures !(IsAnc(2 * i, p) && IsAnc(2 * i + 1, p))
    decreases p
  {
    if p > i {
      AncChild(i, p / 2);
      if IsAnc(2 * i, p) { AncDepth(2 * i, p); }
      if IsAnc(2 * i + 1, p) { AncDepth(2 * i + 1, p); }
    }
  }

  // ----- leaf spans -----

  /** The first leaf, h - 1 levels below node i. */
  function FirstLeaf(i: nat, h: nat): (l: nat)
    decreases h
  {
    if h <= 1 then i else FirstLeaf(if i == 0 then 0 else 2 * i, if h == 2 then 1 else h - 1)
  }

  lemma {:induction false} FirstLeafProduct(i: nat, h: nat)
    requires h >= 1
    ensures FirstLeaf(i, h) == i * Pow2(h - 1)
    decreases h
  {
    if h > 1 {
      var width := Pow2(h - 2);
      FirstLeafProduct(2 * i, h - 1);
      Twice(i, width);
      assert Pow2(h - 1) == 2 * width;
    }
  }

  lemma {:induction false} SpanWidth(i: nat, h: nat)
    requires h >= 1
    ensures FirstLeaf(i + 1, h) == FirstLeaf(i, h) + Pow2(h - 1)
    ensures h > 1 ==> FirstLeaf(2 * i + 1, h - 1) == FirstLeaf(i, h) + Pow2(h - 2)
    decreases h
  {
    if h > 1 {
      SpanWidth(2 * i, h - 1);
      SpanWidth(2 * i + 1, h - 1);
    }
  }

  lemma {:induction false} FirstLeafDepth(i: nat, h: nat)
    requires i >= 1 && h >= 1
    ensures Depth(FirstLeaf(i, h)) == Depth(i) + h - 1
    ensures IsAnc(i, FirstLeaf(i, h))
    decreases h
  {
    if h > 1 {
      FirstLeafDepth(2 * i, h - 1);
      AncChild(i, FirstLeaf(i, h));
    }
  }

  /** A leaf lies under node i exactly when it lies in the span of i. */
  lemma {:induction false} SpanIsSubtree(i: nat, h: nat, leaf: nat)
    requires i >= 1 && h >= 1 && Depth(leaf) == Depth(i) + h - 1
    ensures IsAnc(i, leaf) <==> FirstLeaf(i, h) <= leaf < FirstLeaf(i + 1, h)
    decreases h
  {
    if h == 1 {
      if IsAnc(i, leaf) { AncDepth(i, leaf); }
    } else {
      SpanIsSubtree(2 * i, h - 1, leaf);
      SpanIsSubtree(2 * i + 1, h - 1, leaf);
      AncChild(i, leaf);
      SpanWidth(i, h);
      SpanWidth(2 * i, h - 1);
    }
  }
}

/** Where the status of each node lives in the packed bitset: a node of height h owns h bits. */
module TreeLayout {
  import opened PowersOfTwo
  import opened TreeShape

  const CHAR_BIT: nat := 8
  const SIZEOF_SIZE_T: nat := 8

  /** struct internal_position: the number of bits of a node and where they start. */
  datatype InternalPosition = InternalPosition(localOffset: nat, bitsetLocation: nat)

  /** The bits of all rows whose nodes are higher than `upTo`, in a tree of the given order. */
  function SizeForOrder(order: nat, upTo: nat): (bits: nat)
    requires upTo <= order
    decreases order
  {
    if order == upTo then 0 else order + 2 * SizeForOrder(if order == upTo + 1 then upTo else order - 1, upTo)
  }

  method SumForOrder(order: nat, upTo: nat) returns (result: nat)
    requires upTo <= order
    ensures result == SizeForOrder(order, upTo)
  {
    result := 0;
    var multi, current := 1, order;
    while current != upTo
      invariant upTo <= current <= order && multi >= 1
      invariant result + multi * SizeForOrder(current, upTo) == SizeForOrder(order, upTo)
      decreases current
    {
      ghost var rest := SizeForOrder(current - 1, upTo);
      OneRowMore(multi, current, rest);
      result := result + current * multi;
      current := current - 1;
      multi := multi * 2;
    }
  }

  lemma OneRowMore(multi: nat, current: nat, rest: nat)
    ensures multi * (current + 2 * rest) == current * multi + (multi * 2) * rest
    ensures current * multi >= 0
  {
  }

  lemma {:induction false} SizeClosedForm(order: nat, upTo: nat)
    requires upTo <= order
    ensures SizeForOrder(order, upTo) == Pow2(order - upTo) * (upTo + 2) - (order + 2)
    decreases order
  {
    if order > upTo {
      SizeClosedForm(order - 1, upTo);
      ghost var nodes := Pow2(order - 1 - upTo);
      Twice(upTo + 2, nodes);
      assert Pow2(order - upTo) == 2 * nodes;
      assert 2 * nodes * (upTo + 2) == 2 * (nodes * (upTo + 2));
    }
  }

  /** The next row starts where this one ends: Pow2(order - upTo) nodes of upTo bits each. */
  lemma {:induction false} NextRowStart(order: nat, upTo: nat)
    requires 1 <= upTo <= order
    ensures SizeForOrder(order, upTo - 1) == SizeForOrder(order, upTo) + upTo * Pow2(order - upTo)
    decreases order
  {
    if order > upTo {
      NextRowStart(order - 1, upTo);
      Twice(upTo, Pow2(order - 1 - upTo));
    } else {
      assert SizeForOrder(order, order) == 0 == SizeForOrder(order - 1, order - 1);
    }
  }

  /** The index of a node within its row: its highest bit removed. */
  function IndexInRow(pos: Pos): (k: nat)
    requires pos.depth >= 1
  {
    var shift := (pos.depth - 1) % 63;
    if ShiftRight(pos.index, shift) % 2 == 1 && pos.index >= Pow2(shift) then pos.index - Pow2(shift)
    else pos.index
  }

  lemma IndexClearsTopBit(i: nat)
    requires i >= 1 && Depth(i) <= 63
    ensures IndexInRow(At(i)) == i - Pow2(Depth(i) - 1)
    ensures IndexInRow(At(i)) < Pow2(Depth(i) - 1)
  {
    RowBounds(i);
    ShiftBelow(i, 1, Depth(i) - 1);
    BitLengthShift(i, Depth(i) - 1);
    assert BitLength(0) == 0;
  }

  /** The first bit of node i: the bits of the nodes before it, in index order, come first. */
  ghost function Location(order: nat, i: nat): (bit: nat)
    requires InTree(order, i)
    decreases i
  {
    if i == 1 then 0
    else
      DepthMonotone(i - 1, i);
      Location(order, i - 1) + Height(order, i - 1)
  }

  lemma DepthMonotone(i: nat, j: nat)
    requires 1 <= i <= j
    ensures Depth(i) <= Depth(j)
  {
    RowBounds(i);
    RowBounds(j);
    if Depth(j) < Depth(i) {
      Pow2Monotone(Depth(j), Depth(i) - 1);
    }
  }

  ghost function Internal(order: nat, i: nat): InternalPosition
    requires InTree(order, i)
  {
    InternalPosition(Height(order, i), Location(order, i))
  }

  function InternalPositionOrder(order: nat, pos: Pos): (p: InternalPosition)
    requires 1 <= pos.depth <= order
  {
    var localOffset := order - pos.depth + 1;
    InternalPosition(localOffset, SizeForOrder(order, localOffset) + localOffset * IndexInRow(pos))
  }

  /** h * k, one h at a time. */
  ghost function Times(h: nat, k: nat): (product: nat) {
    if k == 0 then 0 else Times(h, k - 1) + h
  }

  lemma {:induction false} TimesIsProduct(h: nat, k: nat)
    ensures Times(h, k) == h * k
    decreases k
  {
    if k > 0 {
      TimesIsProduct(h, k - 1);
      NextInRow(h, k - 1);
    }
  }

  /** The location the source computes, from row offset and index in the row, is that location. */
  lemma LocationFormula(order: nat, i: nat, h: nat, k: nat)
    requires InTree(order, i) && h == Height(order, i) && k + Pow2(order - h) == i
    ensures Location(order, i) == SizeForOrder(order, h) + h * k
  {
    LocationByRows(order, i, h, k);
    TimesIsProduct(h, k);
  }

  lemma {:induction false} LocationByRows(order: nat, i: nat, h: nat, k: nat)
    requires InTree(order, i) && h == Height(order, i) && k + Pow2(order - h) == i
    ensures Location(order, i) == SizeForOrder(order, h) + Times(h, k)
    decreases i
  {
    if i == 1 {
      FirstRow(order, i, h, k);
    } else if k > 0 {
      BeforeInRow(order, i, h, k);
      LocationByRows(order, i - 1, h, k - 1);
    } else {
      var last := BeforeRow(order, i, h);
      LocationByRows(order, i - 1, h + 1, last);
    }
  }

  /** The node before, in the same row. */
  lemma BeforeInRow(order: nat, i: nat, h: nat, k: nat)
    requires InTree(order, i) && h == Height(order, i) && k + Pow2(order - h) == i && k > 0 && i > 1
    ensures InTree(order, i - 1) && Height(order, i - 1) == h
    ensures Location(order, i) == Location(order, i - 1) + h
  {
    RowBounds(i);
    RowOf(i - 1, order - h + 1);
  }

  /** The node before the first of a row is the last of the row above. */
  lemma BeforeRow(order: nat, i: nat, h: nat) returns (last: nat)
    requires InTree(order, i) && h == Height(order, i) && i == Pow2(order - h) && i > 1
    ensures h + 1 <= order && InTree(order, i - 1) && Height(order, i - 1) == h + 1
    ensures Location(order, i) == Location(order, i - 1) + h + 1
    ensures last + Pow2(order - (h + 1)) == i - 1
    ensures SizeForOrder(order, h) == SizeForOrder(order, h + 1) + Times(h + 1, last) + (h + 1)
  {
    RowBounds(i);
    LastInRow(i - 1, order - h);
    last := NextRow(order, i, h);
  }

  lemma LastInRow(i: nat, d: nat)
    requires i >= 1 && i + 1 == Pow2(d)
    ensures d >= 1 && Depth(i) == d
  {
    RowOf(i, d);
  }

  /** From the end of one row to the start of the next. */
  lemma NextRow(order: nat, i: nat, h: nat) returns (last: nat)
    requires h + 1 <= order && i == Pow2(order - h) && order - h >= 1
    ensures last + Pow2(order - h - 1) == i - 1
    ensures SizeForOrder(order, h) == SizeForOrder(order, h + 1) + Times(h + 1, last) + (h + 1)
  {
    NextRowStart(order, h + 1);
    var nodes := Pow2(order - h - 1);
    last := nodes - 1;
    TimesIsProduct(h + 1, nodes);
  }

  lemma FirstRow(order: nat, i: nat, h: nat, k: nat)
    requires i == 1 && InTree(order, i) && h == Height(order, i) && k + Pow2(order - h) == i
    ensures SizeForOrder(order, h) + Times(h, k) == 0
  {
    assert Depth(1) == 1 + Depth(0);
    assert k == 0;
  }

  lemma NextInRow(h: nat, k: nat)
    ensures h * (k + 1) == h * k + h
  {
  }

  lemma InternalPositionIsInternal(order: nat, i: nat)
    requires InTree(order, i) && order <= 63
    ensures Depth(i) >= 1 && InternalPositionOrder(order, At(i)) == Internal(order, i)
  {
    RowBounds(i);
    IndexClearsTopBit(i);
    LocationFormula(order, i, Height(order, i), IndexInRow(At(i)));
  }

  // ----- the bit ranges of the nodes tile the bitset, in index order -----

  lemma LocationNext(order: nat, i: nat)
    requires InTree(order, i) && InTree(order, i + 1)
    ensures Location(order, i + 1) == Location(order, i) + Height(order, i)
  {
  }

  /** No two nodes share a bit. */
  lemma {:induction false} LocationsDisjoint(order: nat, i: nat, j: nat)
    requires InTree(order, i) && InTree(order, j) && i < j
    ensures Location(order, i) + Height(order, i) <= Location(order, j)
    decreases j
  {
    DepthMonotone(i, j - 1);
    DepthMonotone(j - 1, j);
    LocationNext(order, j - 1);
    if i < j - 1 {
      LocationsDisjoint(order, i, j - 1);
    }
  }

  lemma RootLocation(order: nat)
    requires order >= 1
    ensures InTree(order, 1) && Location(order, 1) == 0
  {
    assert Depth(1) == 1 + Depth(0);
    assert SizeForOrder(order, order) == 0;
  }

  lemma LastLocation(order: nat, last: nat)
    requires order >= 1 && last + 1 == Pow2(order)
    ensures InTree(order, last) && Height(order, last) == 1
    ensures Location(order, last) + 1 == SizeForOrder(order, 0)
  {
    var half := Pow2(order - 1);
    assert last == 2 * half - 1;
    RowOf(last, order);
    LocationFormula(order, last, 1, half - 1);
    NextRowStart(order, 1);
  }

  lemma LocationInBitset(order: nat, i: nat)
    requires InTree(order, i)
    ensures Location(order, i) + Height(order, i) <= SizeForOrder(order, 0)
  {
    var last := Pow2(order) - 1;
    RowBounds(i);
    LastLocation(order, last);
    ValidIsInTree(order, i);
    if i < last {
      LocationsDisjoint(order, i, last);
    }
  }

  /** Every bit of the bitset belongs to a node. */
  lemma {:induction false} NodeOfBit(order: nat, bit: nat, limit: nat) returns (i: nat)
    requires InTree(order, limit) && bit < Location(order, limit) + Height(order, limit)
    ensures InTree(order, i) && Location(order, i) <= bit < Location(order, i) + Height(order, i)
    decreases limit
  {
    if bit >= Location(order, limit) {
      i := limit;
    } else {
      RootLocation(order);
      DepthMonotone(limit - 1, limit);
      LocationNext(order, limit - 1);
      i := NodeOfBit(order, bit, limit - 1);
    }
  }

  ghost predicate OwnsBit(order: nat, i: nat, bit: nat) {
    InTree(order, i) && Location(order, i) <= bit < Location(order, i) + Height(order, i)
  }

  /** Each bit below size_for_order(order, 0), and no other bit, belongs to exactly one node. */
  lemma BitsTile(order: nat, bit: nat)
    requires order >= 1
    ensures bit < SizeForOrder(order, 0) <==> exists i :: OwnsBit(order, i, bit)
    ensures forall i, j :: OwnsBit(order, i, bit) && OwnsBit(order, j, bit) ==> i == j
  {
    if bit < SizeForOrder(order, 0) {
      var last := Pow2(order) - 1;
      LastLocation(order, last);
      var i := NodeOfBit(order, bit, last);
      assert OwnsBit(order, i, bit);
    }
    if i :| OwnsBit(order, i, bit) {
      LocationInBitset(order, i);
    }
    forall i, j | OwnsBit(order, i, bit) && OwnsBit(order, j, bit) ensures i == j {
      if i < j {
        LocationsDisjoint(order, i, j);
      } else if j < i {
        LocationsDisjoint(order, j, i);
      }
    }
  }

  /** The bits of siblings are adjacent: the step update_parent_chain takes to reach the sibling. */
  lemma SiblingLocation(order: nat, i: nat)
    requires InTree(order, i) && i > 1
    ensures InTree(order, Sibling(At(i)).index)
    ensures Height(order, Sibling(At(i)).index) == Height(order, i)
    ensures Location(order, Sibling(At(i)).index)
         == Location(order, i) + Height(order, i) - 2 * Height(order, i) * (i % 2)
  {
    SiblingFields(order, i);
    BackOrStay(Height(order, i), i % 2);
  }

  lemma SiblingFields(order: nat, i: nat)
    requires InTree(order, i) && i > 1
    ensures InTree(order, Sibling(At(i)).index)
    ensures Height(order, Sibling(At(i)).index) == Height(order, i)
    ensures var location := Location(order, Sibling(At(i)).index);
            if i % 2 == 0 then location == Location(order, i) + Height(order, i)
            else location + Height(order, i) == Location(order, i)
  {
    var left := 2 * (i / 2);
    ChildDepth(i / 2);
    LocationNext(order, left);
  }

  lemma BackOrStay(h: nat, odd: nat)
    requires odd <= 1
    ensures 2 * h * odd == if odd == 0 then 0 else 2 * h
  {
  }

  // ----- the memoised offsets behind the bitset -----

  function BitsetSizeof(elements: nat): nat {
    (elements + CHAR_BIT - 1) / CHAR_BIT
  }

  /** The source's rounding: a remainder is added once more, not rounded up. */
  function PaddedBitset(order: nat): nat {
    var size := BitsetSizeof(SizeForOrder(order, 0));
    size + size % SIZEOF_SIZE_T
  }

  /** sizeof(struct buddy_tree): two size_t and a padded byte. */
  const HEADER: nat := 24

  function BuddyTreeSizeof(order: nat): nat {
    HEADER + PaddedBitset(order) + (order + 2) * SIZEOF_SIZE_T
  }

  /** The first size_t of the memoised table, counted from the start of data. */
  function SizeForOrderOffset(order: nat): nat {
    PaddedBitset(order) / SIZEOF_SIZE_T + 1
  }

  /** The table of order + 1 words lies behind the bitset and inside the tree's memory. */
  lemma TableFits(order: nat)
    ensures CHAR_BIT * BitsetSizeof(SizeForOrder(order, 0)) >= SizeForOrder(order, 0)
    ensures BitsetSizeof(SizeForOrder(order, 0)) <= SIZEOF_SIZE_T * SizeForOrderOffset(order)
    ensures HEADER + SIZEOF_SIZE_T * (SizeForOrderOffset(order) + order + 1) <= BuddyTreeSizeof(order)
  {
  }
}

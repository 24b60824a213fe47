/**
 Growing the tree of src/mem/Buddy.cpp by one order at a time: the old tree becomes the left
 subtree of the new root, while its rows move towards the end of one and the same bitset.
 */
module TreeGrow {
  import opened PowersOfTwo
  import opened TreeShape
  import opened TreeStatus
  import opened TreeLayout
  import opened Bitset
  import opened UnaryField
  import opened AllocationTree

  // ----- where a node goes -----

  /** The old root becomes node 2, and everything else keeps its place below it. */
  ghost function Embed(i: nat): (j: nat)
    requires i >= 1
  {
    RowBounds(i);
    i + Pow2(Depth(i) - 1)
  }

  /** Whether a node of the grown tree lies under its left child, and where it came from. */
  ghost predicate InLeft(j: nat)
    requires j >= 2
  {
    Depth(j) >= 2 && j < 3 * Pow2(Depth(j) - 2)
  }

  ghost function Origin(j: nat): (i: nat)
    requires j >= 2 && InLeft(j)
  {
    RowBounds(j);
    j - Pow2(Depth(j) - 2)
  }

  lemma EmbedBack(i: nat)
    requires i >= 1
    ensures Depth(i) >= 1 && Embed(i) >= 2 && Depth(Embed(i)) == Depth(i) + 1
    ensures InLeft(Embed(i)) && Origin(Embed(i)) == i
  {
    RowBounds(i);
    RowOf(Embed(i), Depth(i) + 1);
  }

  lemma OriginBack(j: nat)
    requires j >= 2 && InLeft(j)
    ensures Origin(j) >= 1 && Depth(Origin(j)) == Depth(j) - 1 && Embed(Origin(j)) == j
  {
    RowBounds(j);
    RowOf(Origin(j), Depth(j) - 1);
  }

  lemma EmbedChild(i: nat)
    requires i >= 1
    ensures Embed(2 * i) == 2 * Embed(i) && Embed(2 * i + 1) == 2 * Embed(i) + 1
  {
    ChildDepth(i);
    RowBounds(i);
  }

  lemma EmbedRoot()
    ensures Embed(1) == 2
  {
    assert Depth(1) == 1 + Depth(0);
  }

  /** The children of a right node are right nodes. */
  lemma LeftOfChild(j: nat)
    requires j >= 2
    ensures InLeft(2 * j) <==> InLeft(j)
    ensures InLeft(2 * j + 1) <==> InLeft(j)
    ensures InLeft(j) ==> Origin(2 * j) == 2 * Origin(j) && Origin(2 * j + 1) == 2 * Origin(j) + 1
  {
    ChildDepth(j);
    assert Depth(j) >= 2 by {
      RowBounds(j);
      assert Pow2(1) == 2;
    }
  }

  lemma EmbedOrder(a: nat, b: nat)
    requires a >= 1 && b >= 1
    ensures Embed(a) < Embed(b) <==> a < b
    ensures Embed(a) == Embed(b) <==> a == b
  {
    EmbedUp(a, b);
    EmbedUp(b, a);
  }

  lemma EmbedUp(a: nat, b: nat)
    requires 1 <= a < b || 1 <= b <= a
    ensures a < b ==> Embed(a) < Embed(b)
  {
    if a < b {
      DepthMonotone(a, b);
      RowBounds(a);
      RowBounds(b);
      Pow2Monotone(Depth(a) - 1, Depth(b) - 1);
    }
  }

  /** Ancestry is what it was. */
  lemma {:induction false} EmbedAnc(a: nat, b: nat)
    requires a >= 1 && b >= 1
    ensures IsAnc(Embed(a), Embed(b)) <==> IsAnc(a, b)
    decreases b
  {
    var x, y := Embed(a), Embed(b);
    EmbedOrder(a, b);
    EmbedBack(a);
    if b == 1 {
      EmbedRoot();
      assert IsAnc(x, 1) <==> x == 1;
    } else {
      EmbedParent(b);
      EmbedAnc(a, b / 2);
    }
    assert IsAnc(x, y) <==> x == y || (x < y && IsAnc(x, y / 2));
  }

  lemma EmbedParent(b: nat)
    requires b >= 2
    ensures Embed(b) / 2 == Embed(b / 2)
  {
    EmbedChild(b / 2);
  }

  // ----- statuses of the grown tree, before its root is repaired -----

  /** The old status on the left, zero on the right and at the new root. */
  ghost function GrownStatus(st: map<nat, nat>, j: nat): nat {
    if j >= 2 && InLeft(j) && Origin(j) in st then st[Origin(j)] else 0
  }

  ghost predicate IsGrown(order: nat, st: map<nat, nat>, grown: map<nat, nat>) {
    && Domain(order + 1, grown)
    && forall j {:trigger GrownStatus(st, j)} | InTree(order + 1, j) :: grown[j] == GrownStatus(st, j)
  }

  ghost function Embedded(live: set<nat>): set<nat>
    requires forall a | a in live :: a >= 1
  {
    set a | a in live :: Embed(a)
  }

  lemma LiveIsPositive(order: nat, live: set<nat>)
    requires Antichain(order, live)
    ensures forall a | a in live :: a >= 1
  {
    forall a | a in live ensures a >= 1 {
      assert InTree(order, a);
    }
  }

  lemma GrownAntichain(order: nat, live: set<nat>)
    requires Antichain(order, live)
    requires forall a | a in live :: a >= 1
    ensures Antichain(order + 1, Embedded(live))
  {
    forall x | x in Embedded(live) ensures InTree(order + 1, x) {
      var a :| a in live && Embed(a) == x;
      assert InTree(order, a);
      EmbedBack(a);
    }
    forall x, y | x in Embedded(live) && y in Embedded(live) && x != y ensures !IsAnc(x, y) {
      var a :| a in live && Embed(a) == x;
      var b :| b in live && Embed(b) == y;
      EmbedAnc(a, b);
    }
  }

  /** A node of the grown tree is marked exactly when it came from a marked node. */
  lemma GrownMarked(order: nat, live: set<nat>, j: nat)
    requires Antichain(order, live) && j >= 2
    requires forall a | a in live :: a >= 1
    ensures j in Embedded(live) <==> InLeft(j) && Origin(j) in live
  {
    GrownAntichain(order, live);
    if j in Embedded(live) {
      var a :| a in live && Embed(a) == j;
      EmbedBack(a);
    }
    if InLeft(j) {
      OriginBack(j);
    }
  }

  /** Below the new root every rule holds again. */
  lemma GrownRule(order: nat, live: set<nat>, st: map<nat, nat>, grown: map<nat, nat>, j: nat)
    requires Antichain(order, live) && Consistent(order, live, st) && IsGrown(order, st, grown)
    requires InTree(order + 1, j) && j >= 2
    requires forall a | a in live :: a >= 1
    ensures Rule(order + 1, Embedded(live), grown, j)
  {
    GrownMarked(order, live, j);
    ChildDepth(j);
    LeftOfChild(j);
    assert grown[j] == GrownStatus(st, j);
    if Depth(j) < order + 1 {
      assert grown[2 * j] == GrownStatus(st, 2 * j);
      assert grown[2 * j + 1] == GrownStatus(st, 2 * j + 1);
    }
    if InLeft(j) {
      OriginBack(j);
      ChildDepth(Origin(j));
      assert Rule(order, live, st, Origin(j));
    }
  }

  /** What the repair of the root finds. */
  lemma GrownConsistent(order: nat, live: set<nat>, st: map<nat, nat>, grown: map<nat, nat>)
    requires Antichain(order, live) && Consistent(order, live, st) && IsGrown(order, st, grown)
    requires order >= 1
    requires forall a | a in live :: a >= 1
    ensures InTree(order + 1, 3) && Depth(3) == 2 && grown[3] == 0
    ensures Antichain(order + 1, Embedded(live))
    ensures Repairable(order + 1, Embedded(live), grown, 3)
  {
    GrownAntichain(order, live);
    RootOfTree(order + 1);
    ChildDepth(1);
    assert Pow2(0) == 1;
    assert !InLeft(3);
    assert grown[3] == GrownStatus(st, 3);
    var up, marked := order + 1, Embedded(live);
    forall j | InTree(up, j) && j != 1 ensures Rule(up, marked, grown, j) {
      GrownRule(order, live, st, grown, j);
    }
    forall a | a in Embedded(live) ensures !IsAnc(a, 3) {
      var b :| b in live && Embed(b) == a;
      EmbedBack(b);
      assert IsAnc(a, 1) <==> a == 1;
    }
  }

  // ----- one row on its way -----

  /** The row of depth c: its first bit before and after the move, its width, its end. */
  ghost predicate Row(order: nat, c: nat, h: nat, width: nat, was: nat, now: nat) {
    && 1 <= c <= order && h == order - c + 1 && width == h * Pow2(c - 1)
    && was == SizeForOrder(order, h) && now == SizeForOrder(order + 1, h)
  }

  /** Rows lie behind one another, and each moves up by at least one bit. */
  lemma RowFacts(order: nat, c: nat, h: nat, width: nat, was: nat, now: nat)
    requires Row(order, c, h, width, was, now)
    ensures now == order + 1 + 2 * was
    ensures was + width == SizeForOrder(order, h - 1)
    ensures now + 2 * width == SizeForOrder(order + 1, h - 1) <= SizeForOrder(order + 1, 0)
    ensures width >= 1
  {
    var n := Pow2(c - 1);
    assert order - h == c - 1 && order + 1 - h == c && Pow2(c) == 2 * n;
    Doubled(h, n);
    NextRowStart(order, h);
    NextRowStart(order + 1, h);
    SizesShrink(order + 1, h - 1);
  }

  lemma Doubled(h: nat, n: nat)
    requires h >= 1
    ensures h * (2 * n) == 2 * (h * n) && h * n >= n
  {
  }

  lemma {:induction false} SizesShrink(order: nat, upTo: nat)
    requires upTo <= order
    ensures SizeForOrder(order, upTo) <= SizeForOrder(order, 0)
    decreases upTo
  {
    if upTo > 0 {
      NextRowStart(order, upTo);
      assert upTo * Pow2(order - upTo) >= 0;
      SizesShrink(order, upTo - 1);
    }
  }

  /** Where a node of depth c + 1 of the grown tree lies, counted from the start of its row. */
  lemma LeftInRow(order: nat, c: nat, h: nat, width: nat, was: nat, now: nat, j: nat)
    requires Row(order, c, h, width, was, now) && InTree(order + 1, j) && Depth(j) == c + 1
    requires j >= 2 && InLeft(j)
    ensures InTree(order, Origin(j)) && Height(order, Origin(j)) == h && Depth(Origin(j)) == c
    ensures was <= Location(order, Origin(j)) && Location(order, Origin(j)) + h <= was + width
    ensures Location(order + 1, j) == Location(order, Origin(j)) + (now - was)
  {
    RowFacts(order, c, h, width, was, now);
    RowBounds(j);
    OriginBack(j);
    var n := Pow2(c - 1);
    var k := j - 2 * n;
    LocationFormula(order + 1, j, h, k);
    LocationFormula(order, Origin(j), h, k);
    Within(h, k, n);
  }

  lemma RightInRow(order: nat, c: nat, h: nat, width: nat, was: nat, now: nat, j: nat)
    requires Row(order, c, h, width, was, now) && InTree(order + 1, j) && Depth(j) == c + 1
    requires j >= 2 && !InLeft(j)
    ensures now + width <= Location(order + 1, j) && Location(order + 1, j) + h <= now + 2 * width
  {
    RowBounds(j);
    var n := Pow2(c - 1);
    var k := j - 3 * n;
    Shares(h, n, k);
    LocationFormula(order + 1, j, h, k + n);
    Within(h, k, n);
  }

  lemma Shares(h: nat, n: nat, k: nat)
    ensures h * (k + n) == h * n + h * k
  {
  }

  lemma Within(h: nat, k: nat, n: nat)
    requires k < n
    ensures 0 <= h * k <= h * k + h <= h * n
  {
    var rest := n - k - 1;
    assert h * n == h * k + h + h * rest;
  }

  /** Rows not yet moved hold the old statuses, rows already moved hold those of the grown tree. */
  ghost predicate Halfway(bytes: seq<bv8>, order: nat, st: map<nat, nat>, c: nat) {
    && Domain(order, st)
    && (forall i {:trigger FieldHolds(bytes, order, st, i)} | InTree(order, i) && Depth(i) <= c ::
          FieldHolds(bytes, order, st, i))
    && (forall j {:trigger MovedHolds(bytes, order, st, j)} | InTree(order + 1, j) && Depth(j) > c + 1 ::
          MovedHolds(bytes, order, st, j))
  }

  ghost predicate MovedHolds(bytes: seq<bv8>, order: nat, st: map<nat, nat>, j: nat)
    requires InTree(order + 1, j)
  {
    Holds(bytes, Location(order + 1, j), Height(order + 1, j), GrownStatus(st, j))
  }

  /** One bit of the outcome, in terms of the bits before. */
  ghost predicate BitMoved(after: seq<bv8>, before: seq<bv8>, was: nat, now: nat, width: nat, k: nat)
    requires was < now && k < 8 * |after| && |after| == |before|
  {
    Bit(after, k) <==> if was <= k < now || now + width <= k < now + 2 * width then false
                       else if now <= k < now + width then Bit(before, k - (now - was))
                       else Bit(before, k)
  }

  /** What shifting a row and clearing the right half of its new place does to the bits. */
  ghost predicate RowMoved(after: seq<bv8>, before: seq<bv8>, was: nat, now: nat, width: nat) {
    && was < now
    && |after| == |before|
    && forall k {:trigger Bit(after, k)} | 0 <= k < 8 * |after| :: BitMoved(after, before, was, now, width, k)
  }

  lemma ShiftedThenCleared(s0: seq<bv8>, s1: seq<bv8>, s2: seq<bv8>, was: nat, now: nat, width: nat,
                           upTo: nat, distance: nat, first: nat, last: nat)
    requires was < now && width >= 1 && now + width < 8 * |s0|
    requires upTo == was + width && distance == now - was && first == now + width && last == now + 2 * width - 1
    requires Shifted(s1, s0, was, upTo, distance) && Filled(s2, s1, first, last, false)
    ensures RowMoved(s2, s0, was, now, width)
  {
    forall k | 0 <= k < 8 * |s2| ensures BitMoved(s2, s0, was, now, width, k) {
      FilledAt(s2, s1, first, last, false, k);
    }
  }

  lemma MovedField(after: seq<bv8>, before: seq<bv8>, was: nat, now: nat, width: nat, loc: nat, h: nat, v: nat)
    requires RowMoved(after, before, was, now, width)
    requires Holds(before, loc, h, v) && was <= loc && loc + h <= was + width
    requires loc + (now - was) + h <= 8 * |after|
    ensures Holds(after, loc + (now - was), h, v)
  {
    var gap := now - was;
    forall k | loc + gap <= k < loc + gap + h ensures Bit(after, k) <==> Bit(before, k - gap) {
      assert BitMoved(after, before, was, now, width, k);
    }
    assert Bit(after, loc + gap) <==> Bit(before, loc);
  }

  lemma OtherField(after: seq<bv8>, before: seq<bv8>, was: nat, now: nat, width: nat, loc: nat, h: nat, v: nat)
    requires RowMoved(after, before, was, now, width) && Holds(before, loc, h, v)
    requires loc + h <= was || now + 2 * width <= loc
    ensures Holds(after, loc, h, v)
  {
    forall k | loc <= k < loc + h ensures Bit(after, k) <==> Bit(before, k) {
      assert BitMoved(after, before, was, now, width, k);
    }
    assert Bit(after, loc) <==> Bit(before, loc);
  }

  lemma ClearedField(after: seq<bv8>, before: seq<bv8>, was: nat, now: nat, width: nat, loc: nat, h: nat)
    requires RowMoved(after, before, was, now, width)
    requires now + width <= loc && loc + h <= now + 2 * width && h >= 1 && loc + h <= 8 * |after|
    ensures Holds(after, loc, h, 0)
  {
    assert BitMoved(after, before, was, now, width, loc);
  }

  /** A row that has moved: its nodes, and those of every other row, hold what they should. */
  lemma RowArrived(after: seq<bv8>, before: seq<bv8>, order: nat, st: map<nat, nat>,
                   c: nat, h: nat, width: nat, was: nat, now: nat)
    requires Row(order, c, h, width, was, now) && Halfway(before, order, st, c)
    requires RowMoved(after, before, was, now, width)
    requires SizeForOrder(order + 1, 0) <= 8 * |after|
    ensures Halfway(after, order, st, c - 1)
  {
    forall i | InTree(order, i) && Depth(i) <= c - 1 ensures FieldHolds(after, order, st, i) {
      RowAbove(order, c, h, width, was, now, i);
      assert FieldHolds(before, order, st, i);
      OtherField(after, before, was, now, width, Location(order, i), Height(order, i), st[i]);
    }
    forall j | InTree(order + 1, j) && Depth(j) > c ensures MovedHolds(after, order, st, j) {
      ArrivedNode(after, before, order, st, c, h, width, was, now, j);
    }
  }

  lemma ArrivedNode(after: seq<bv8>, before: seq<bv8>, order: nat, st: map<nat, nat>,
                    c: nat, h: nat, width: nat, was: nat, now: nat, j: nat)
    requires Row(order, c, h, width, was, now) && Halfway(before, order, st, c)
    requires RowMoved(after, before, was, now, width)
    requires SizeForOrder(order + 1, 0) <= 8 * |after|
    requires InTree(order + 1, j) && Depth(j) > c
    ensures MovedHolds(after, order, st, j)
  {
    LocationInBitset(order + 1, j);
    RootOfTree(order);
    if Depth(j) > c + 1 {
      RowEnd(order, c, h, width, was, now);
      RowBelow(order + 1, c + 1, j);
      ArrivedBefore(after, before, order, st, c, was, now, width, j);
    } else if InLeft(j) {
      LeftInRow(order, c, h, width, was, now, j);
      ArrivedLeft(after, before, order, st, c, was, now, width, j);
    } else {
      RightInRow(order, c, h, width, was, now, j);
      ClearedField(after, before, was, now, width, Location(order + 1, j), Height(order + 1, j));
    }
  }

  lemma ArrivedBefore(after: seq<bv8>, before: seq<bv8>, order: nat, st: map<nat, nat>,
                      c: nat, was: nat, now: nat, width: nat, j: nat)
    requires Halfway(before, order, st, c) && RowMoved(after, before, was, now, width)
    requires InTree(order + 1, j) && Depth(j) > c + 1 && now + 2 * width <= Location(order + 1, j)
    ensures MovedHolds(after, order, st, j)
  {
    assert MovedHolds(before, order, st, j);
    OtherField(after, before, was, now, width, Location(order + 1, j), Height(order + 1, j), GrownStatus(st, j));
  }

  lemma ArrivedLeft(after: seq<bv8>, before: seq<bv8>, order: nat, st: map<nat, nat>,
                    c: nat, was: nat, now: nat, width: nat, j: nat)
    requires Halfway(before, order, st, c) && RowMoved(after, before, was, now, width)
    requires InTree(order + 1, j) && j >= 2 && InLeft(j)
    requires InTree(order, Origin(j)) && Depth(Origin(j)) == c && Height(order, Origin(j)) == Height(order + 1, j)
    requires was <= Location(order, Origin(j)) && Location(order, Origin(j)) + Height(order + 1, j) <= was + width
    requires Location(order + 1, j) == Location(order, Origin(j)) + (now - was)
    requires Location(order + 1, j) + Height(order + 1, j) <= 8 * |after|
    ensures MovedHolds(after, order, st, j)
  {
    var i := Origin(j);
    var from, h, v := Location(order, i), Height(order + 1, j), st[i];
    assert GrownStatus(st, j) == v;
    assert FieldHolds(before, order, st, i);
    MovedField(after, before, was, now, width, from, h, v);
  }

  /** The leftmost node of a row. */
  lemma FirstOfRow(order: nat, d: nat)
    requires 1 <= d <= order
    ensures InTree(order, Pow2(d - 1)) && Depth(Pow2(d - 1)) == d
    ensures Location(order, Pow2(d - 1)) == SizeForOrder(order, order - d + 1)
  {
    RowOf(Pow2(d - 1), d);
    LocationFormula(order, Pow2(d - 1), order - d + 1, 0);
  }

  lemma RowAbove(order: nat, c: nat, h: nat, width: nat, was: nat, now: nat, i: nat)
    requires Row(order, c, h, width, was, now) && InTree(order, i) && Depth(i) < c
    ensures Location(order, i) + Height(order, i) <= was
  {
    RowBounds(i);
    Pow2Monotone(Depth(i), c - 1);
    FirstOfRow(order, c);
    LocationsDisjoint(order, i, Pow2(c - 1));
  }

  lemma RowEnd(order: nat, c: nat, h: nat, width: nat, was: nat, now: nat)
    requires Row(order, c, h, width, was, now) && c < order
    ensures InTree(order + 1, Pow2(c + 1)) && Location(order + 1, Pow2(c + 1)) == now + 2 * width
  {
    RowFacts(order, c, h, width, was, now);
    FirstOfRow(order + 1, c + 2);
  }

  lemma RowBelow(order: nat, c: nat, j: nat)
    requires InTree(order, j) && Depth(j) > c && InTree(order, Pow2(c))
    ensures Location(order, Pow2(c)) <= Location(order, j)
  {
    RowBounds(j);
    Pow2Monotone(c, Depth(j) - 1);
    if Pow2(c) < j {
      LocationsDisjoint(order, Pow2(c), j);
    }
  }

  // ----- buddy_tree_grow -----

  /** The leftmost node of a row and what it tells about the row. */
  method RowStart(order: nat, c: nat, pos: Pos) returns (p: InternalPosition)
    requires 1 <= c <= order <= 63 && pos == Pos(Pow2(c - 1), c)
    ensures p == InternalPosition(order - c + 1, SizeForOrder(order, order - c + 1))
  {
    FirstOfRow(order, c);
    InternalPositionIsInternal(order, Pow2(c - 1));
    p := InternalPositionOrder(order, pos);
  }

  /** Where the row of depth c starts before and after the move, and how many bits it has. */
  method RowPlaces(order: nat, c: nat, currentPos: Pos, nextPos: Pos) returns (was: nat, now: nat, width: nat)
    requires 1 <= c <= order <= 62 && currentPos == Pos(Pow2(c - 1), c) && nextPos == Pos(Pow2(c), c + 1)
    ensures Row(order, c, order - c + 1, width, was, now)
    ensures was < now && width >= 1 && now + 2 * width <= SizeForOrder(order + 1, 0)
  {
    var currentInternal := RowStart(order, c, currentPos);
    var nextInternal := RowStart(order + 1, c + 1, nextPos);
    var nodeCount := Pow2(c - 1);
    was, now := currentInternal.bitsetLocation, nextInternal.bitsetLocation;
    width := currentInternal.localOffset * nodeCount;
    RowFacts(order, c, order - c + 1, width, was, now);
  }

  /** One turn of the inner loop: the row of depth c moves to its new place. */
  method MoveRow(bits: array<bv8>, order: nat, c: nat, currentPos: Pos, nextPos: Pos, ghost st: map<nat, nat>)
    requires 1 <= c <= order <= 62 && currentPos == Pos(Pow2(c - 1), c) && nextPos == Pos(Pow2(c), c + 1)
    requires Halfway(bits[..], order, st, c) && SizeForOrder(order + 1, 0) <= 8 * bits.Length
    modifies bits
    ensures Halfway(bits[..], order, st, c - 1)
    ensures c == 1 ==> !Bit(bits[..], 0)
  {
    var was, now, width := RowPlaces(order, c, currentPos, nextPos);
    ghost var before := bits[..];
    MoveBits(bits, was, now, width);
    RowArrived(bits[..], before, order, st, c, order - c + 1, width, was, now);
    if c == 1 {
      FirstBitCleared(bits[..], before, order, now, width);
    }
  }

  lemma FirstBitCleared(after: seq<bv8>, before: seq<bv8>, order: nat, now: nat, width: nat)
    requires RowMoved(after, before, SizeForOrder(order, order), now, width) && |after| > 0
    ensures !Bit(after, 0)
  {
    assert BitMoved(after, before, 0, now, width, 0);
  }

  /** The shift of a row and the clearing of the right half of its new place. */
  method MoveBits(bits: array<bv8>, was: nat, now: nat, width: nat)
    requires was < now && width >= 1 && now + 2 * width <= 8 * bits.Length
    modifies bits
    ensures RowMoved(bits[..], old(bits[..]), was, now, width)
  {
    ghost var before := bits[..];
    var upTo, distance, first, last := was + width, now - was, now + width, now + width * 2 - 1;
    ShiftBitsRight(bits, was, upTo, distance);
    ghost var shifted := bits[..];
    ClearRange(bits, first, last);
    ghost var after := bits[..];
    ShiftedThenCleared(before, shifted, after, was, now, width, upTo, distance, first, last);
  }

  ghost function GrownMap(order: nat, st: map<nat, nat>): (grown: map<nat, nat>)
    ensures IsGrown(order, st, grown)
  {
    var grown := map j | 0 <= j < Pow2(order + 1) && InTree(order + 1, j) :: GrownStatus(st, j);
    assert Domain(order + 1, grown) by {
      var up := order + 1;
      forall j ensures j in grown <==> InTree(up, j) {
        ValidIsInTree(up, j);
      }
    }
    grown
  }

  /** When the last row has moved every field of the grown tree holds its status. */
  lemma AllRowsMoved(bytes: seq<bv8>, order: nat, st: map<nat, nat>, grown: map<nat, nat>)
    requires Halfway(bytes, order, st, 0) && IsGrown(order, st, grown)
    requires SizeForOrder(order + 1, 0) <= 8 * |bytes| && !Bit(bytes, 0)
    ensures FieldsHold(bytes, order + 1, grown)
  {
    RootLocation(order + 1);
    LocationInBitset(order + 1, 1);
    RowBounds(1);
    var up := order + 1;
    forall j | InTree(up, j) ensures FieldHolds(bytes, up, grown, j) {
      assert grown[j] == GrownStatus(st, j);
      RowBounds(j);
      if j > 1 {
        DepthMonotone(2, j);
        ChildDepth(1);
        assert Depth(1) == 1 + Depth(0);
        assert MovedHolds(bytes, order, st, j);
      }
    }
  }

  /** The inner loop: from the leaves up, every row moves to its place in the grown tree. */
  method MoveRows(bits: array<bv8>, order: nat, ghost st: map<nat, nat>)
    requires 1 <= order <= 62 && FieldsHold(bits[..], order, st)
    requires SizeForOrder(order + 1, 0) <= 8 * bits.Length
    modifies bits
    ensures FieldsHold(bits[..], order + 1, GrownMap(order, st))
  {
    var currentOrder := order;
    var currentPos, nextPos := Pos(Pow2(order - 1), order), Pos(Pow2(order), order + 1);
    while currentOrder != 0
      invariant 0 <= currentOrder <= order
      invariant currentOrder > 0 ==>
                  && currentPos == Pos(Pow2(currentOrder - 1), currentOrder)
                  && nextPos == Pos(Pow2(currentOrder), currentOrder + 1)
      invariant Halfway(bits[..], order, st, currentOrder)
      invariant currentOrder == 0 ==> !Bit(bits[..], 0)
    {
      MoveRow(bits, order, currentOrder, currentPos, nextPos, st);
      currentOrder := currentOrder - 1;
      currentPos, nextPos := Parent(currentPos), Parent(nextPos);
    }
    AllRowsMoved(bits[..], order, st, GrownMap(order, st));
  }

  /** Every old status is found at the node's new place, and every other node is free. */
  lemma GrownKeeps(order: nat, st: map<nat, nat>, i: nat, j: nat)
    requires Domain(order, st) && InTree(order, i) && InTree(order + 1, j)
    ensures Embed(i) in GrownMap(order, st) && GrownMap(order, st)[Embed(i)] == st[i]
    ensures (forall k | k >= 1 :: Embed(k) != j) ==> GrownMap(order, st)[j] == 0
  {
    EmbedBack(i);
    assert GrownMap(order, st)[Embed(i)] == GrownStatus(st, Embed(i));
    assert GrownMap(order, st)[j] == GrownStatus(st, j);
    if j >= 2 && InLeft(j) {
      OriginBack(j);
    }
  }

  /** The statuses of the grown tree: the old ones on the left, zeros on the right. */
  lemma GrownExactly(order: nat, live: set<nat>, st: map<nat, nat>, after: map<nat, nat>)
    requires order >= 1 && Antichain(order, live) && Consistent(order, live, st)
    requires (forall a | a in live :: a >= 1) && Consistent(order + 1, Embedded(live), after)
    ensures 1 in st && after == GrownMap(order, st)[1 := Combine(st[1], 0)]
  {
    GrownConsistent(order, live, st, GrownMap(order, st));
    RootOfTree(order);
    NoMarkedRoot(live);
    var root, left, right := 1, 2, 3;
    LeftOfRoot(order, st, root, left);
    RootMended(order + 1, Embedded(live), GrownMap(order, st), after, root, left, right);
  }

  /** The old root's status is found at the new root's left child. */
  lemma LeftOfRoot(order: nat, st: map<nat, nat>, root: nat, left: nat)
    requires Domain(order, st) && root == 1 && left == 2 && InTree(order, root)
    ensures InTree(order + 1, left) && GrownMap(order, st)[left] == st[root]
  {
    EmbedRoot();
    EmbedBack(root);
    GrownKeeps(order, st, root, left);
  }

  lemma RootMended(order: nat, live: set<nat>, grown: map<nat, nat>, after: map<nat, nat>,
                   root: nat, left: nat, right: nat)
    requires root == 1 && left == 2 && right == 3 && InTree(order, left) && InTree(order, right)
    requires ConsistentBut(order, live, grown, right, 0) && root !in live && grown[right] == 0
    requires Consistent(order, live, after)
    ensures after == grown[root := Combine(grown[left], 0)]
  {
    RepairStep(order, live, grown, right, left, Combine(grown[right], grown[left]), 0);
    var repaired := grown[root := Combine(grown[right], grown[left])];
    RootRule(order, live, repaired, root);
    ConsistentUnique(order, live, after, repaired);
  }

  /** The root has no parent whose rule could be broken. */
  lemma RootRule(order: nat, live: set<nat>, st: map<nat, nat>, root: nat)
    requires root == 1 && ConsistentBut(order, live, st, root, 0)
    ensures Consistent(order, live, st)
  {
    forall i | InTree(order, i) ensures Rule(order, live, st, i) {
      assert i != root / 2;
    }
  }

  lemma NoMarkedRoot(live: set<nat>)
    requires forall a | a in live :: a >= 1
    ensures 1 !in Embedded(live)
  {
    forall a | a in live ensures Embed(a) != 1 {
      EmbedBack(a);
    }
  }

  /** One order more: the marked nodes keep their places under the new left child. */
  method GrowOnce(t: BuddyTree)
    requires t.Valid() && Pow2(t.order + 1) < UINT_LIMIT
    requires SizeForOrder(t.order + 1, 0) <= 8 * t.bits.Length
    modifies t, t.bits
    ensures t.Valid() && t.order == old(t.order) + 1
    ensures (forall a | a in old(t.live) :: a >= 1) && t.live == Embedded(old(t.live))
    ensures 1 in old(t.st) && t.st == GrownMap(old(t.order), old(t.st))[1 := Combine(old(t.st)[1], 0)]
  {
    ghost var order, live, st := t.order, t.live, t.st;
    LiveIsPositive(order, live);
    OrderLimit(order + 1);
    MoveRows(t.bits, t.order, st);
    GrownConsistent(order, live, st, GrownMap(order, st));
    AdvanceOrder(t, GrownMap(order, st), Embedded(live));
    RepairRoot(t);
    GrownExactly(order, live, st, t.st);
  }

  method AdvanceOrder(t: BuddyTree, ghost grown: map<nat, nat>, ghost marked: set<nat>)
    requires t.order >= 1 && Pow2(t.order + 1) < UINT_LIMIT
    requires SizeForOrder(t.order + 1, 0) <= 8 * t.bits.Length
    requires FieldsHold(t.bits[..], t.order + 1, grown)
    modifies t
    ensures t.Stored() && t.order == old(t.order) + 1 && t.st == grown && t.live == marked
  {
    t.order := t.order + 1;
    t.upperPosBound := Pow2(t.order);
    t.PopulateSizeForOrder();
    t.st := grown;
    t.live := marked;
  }

  /** update_parent_chain on the right child of the root, whose status is zero. */
  method RepairRoot(t: BuddyTree)
    requires t.Stored() && InTree(t.order, 3) && Depth(3) == 2 && t.st[3] == 0
    requires Repairable(t.order, t.live, t.st, 3)
    modifies t`st, t.bits
    ensures t.Stored() && Consistent(t.order, t.live, t.st)
  {
    var right := RightChild(Pos(1, 1));
    assert right == At(3);
    var internal := t.InternalPositionTree(right);
    ChainRepairs(t.order, t.live, t.st, right.index);
    t.UpdateParentChain(right, internal, 0);
  }

  ghost function EmbedAll(live: set<nat>, times: nat): set<nat>
    requires forall a | a in live :: a >= 1
    decreases times
  {
    if times == 0 then live else EmbedAll(Embedded(live), times - 1)
  }

  /** buddy_tree_grow */
  method Grow(t: BuddyTree, desiredOrder: nat)
    requires t.Valid() && t.order <= desiredOrder && Pow2(desiredOrder) < UINT_LIMIT
    requires SizeForOrder(desiredOrder, 0) <= 8 * t.bits.Length
    modifies t, t.bits
    ensures t.Valid() && t.order == desiredOrder
    ensures (forall a | a in old(t.live) :: a >= 1)
    ensures t.live == EmbedAll(old(t.live), desiredOrder - old(t.order))
  {
    LiveIsPositive(t.order, t.live);
    while t.order < desiredOrder
      invariant t.Valid() && t.order <= desiredOrder
      invariant forall a | a in t.live :: a >= 1
      invariant EmbedAll(t.live, desiredOrder - t.order)
             == EmbedAll(old(t.live), desiredOrder - old(t.order))
    {
      Pow2Monotone(t.order + 1, desiredOrder);
      LargerTree(t.order + 1, desiredOrder);
      GrowOnce(t);
      LiveIsPositive(t.order, t.live);
    }
  }

  lemma {:induction false} LargerTree(order: nat, larger: nat)
    requires order <= larger
    ensures SizeForOrder(order, 0) <= SizeForOrder(larger, 0)
    decreases larger
  {
    if order < larger {
      LargerTree(order, larger - 1);
    }
  }
}

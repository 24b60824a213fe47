/** From byte counts to tree orders and depths. */
module ArenaSizes {
  import opened PowersOfTwo
  import opened Bits
  import opened TreeShape
  import opened TreeStatus
  import opened TreeChoice
  import opened Slots
  import opened Bytes

  /** The largest arena whose tree order the code can hold: 1u << order must fit in 32 bits. */
  const MAX_MEMORY: nat := 0x10_0000_0000

  function TreeOrderForMemory(memorySize: nat): (order: nat)
    requires memorySize < WORD
  {
    var blocks := memorySize / ALIGN;
    BitLength(CeilingPowerOfTwo(blocks))
  }

  /** The bytes of a slot at the given depth. */
  ghost function DepthSize(order: nat, depth: nat): (size: nat)
    requires depth <= order
  {
    ALIGN * Pow2(if depth == 0 then order else order - depth)
  }

  /** A tree of this order has 64-byte leaves for the arena, and half as many would not do. */
  ghost predicate ArenaShape(order: nat, memorySize: nat) {
    && order >= 1 && Pow2(order) < UINT_LIMIT
    && memorySize % ALIGN == 0 && ALIGN <= memorySize <= MAX_MEMORY
    && memorySize <= DepthSize(order, 1) < 2 * memorySize
  }

  /** The tree is the smallest one that covers the arena. */
  lemma OrderCovers(memorySize: nat)
    requires memorySize % ALIGN == 0 && ALIGN <= memorySize <= MAX_MEMORY
    ensures ArenaShape(TreeOrderForMemory(memorySize), memorySize)
  {
    var blocks := memorySize / ALIGN;
    var k := CeilingShape(blocks);
    OrderOfPower(k);
    SmallArena(blocks, k);
    OrderLimit(k + 1);
  }

  /** The memory size rounded up to a power of two is the size of the whole tree. */
  lemma EffectiveSize(order: nat, memorySize: nat)
    requires ArenaShape(order, memorySize)
    ensures CeilingPowerOfTwo(memorySize) == DepthSize(order, 1)
  {
    SixtyFour(order - 1);
    CeilingExact(memorySize, order - 1 + 6);
  }

  lemma OrderOfPower(k: nat)
    ensures BitLength(Pow2(k)) == k + 1
  {
    BitLengthUnique(Pow2(k), k + 1);
  }

  lemma SixtyFour(k: nat)
    ensures Pow2(k + 6) == ALIGN * Pow2(k)
  {
    Pow2Add(k, 6);
    Pow2Add(4, 2);
    SmallPowers();
  }

  lemma SmallArena(blocks: nat, k: nat)
    requires blocks <= 0x4000_0000 && Pow2(k) < 2 * blocks
    ensures k <= 30
  {
    OrderLimit(k + 1);
  }

  // ----- the depth for a request -----

  function Padded(requested: nat): (r: nat) {
    if requested < ALIGN then ALIGN else requested
  }

  /** The slot of this depth holds the request and half of it would not. */
  ghost predicate FitsDepth(order: nat, requested: nat, depth: nat) {
    1 <= depth <= order && Padded(requested) <= DepthSize(order, depth) < 2 * Padded(requested)
  }

  lemma HalfSize(order: nat, depth: nat)
    requires depth < order
    ensures DepthSize(order, depth) == 2 * DepthSize(order, depth + 1)
  {
  }

  lemma SizeIsEven(order: nat, depth: nat)
    requires depth <= order
    ensures DepthSize(order, depth) % 2 == 0
  {
    var leaves := Pow2(order - depth);
    assert DepthSize(order, depth) == 2 * (32 * leaves);
  }

  lemma SizeMonotone(order: nat, shallow: nat, deep: nat)
    requires shallow <= deep <= order
    ensures DepthSize(order, deep) <= DepthSize(order, shallow)
    ensures shallow < deep ==> 2 * DepthSize(order, deep) <= DepthSize(order, shallow)
  {
    Pow2Monotone(order - deep, order - shallow);
  }

  /** The fitting depth is the deepest, so the smallest slot, that holds the request. */
  lemma FitsIsSmallest(order: nat, requested: nat, depth: nat, other: nat)
    requires FitsDepth(order, requested, depth) && 1 <= other <= order
    ensures DepthSize(order, other) >= Padded(requested) <==> other <= depth
    ensures FitsDepth(order, requested, other) ==> other == depth
  {
    if other <= depth {
      SizeMonotone(order, other, depth);
    } else {
      SizeMonotone(order, depth, other);
    }
  }

  lemma DivAtLeastTwo(a: nat, b: nat)
    requires b > 0
    ensures 0 <= a / b
    ensures a / b / 2 != 0 <==> a >= 2 * b
  {
    var q := a / b;
    assert a == b * q + a % b;
    Multiples(b, q);
  }

  lemma Multiples(b: int, q: int)
    requires b > 0
    ensures q >= 2 ==> b * q >= 2 * b
    ensures q <= 1 ==> b * q <= b
    ensures q <= -1 ==> b * q <= -b
  {
  }

  /** depth_for_size, for a request no larger than the arena rounded up. */
  method DepthForSize(requestedSize: nat, memorySize: nat, ghost order: nat) returns (depth: nat)
    requires ArenaShape(order, memorySize) && requestedSize <= memorySize
    ensures FitsDepth(order, requestedSize, depth)
  {
    var requested := if requestedSize < ALIGN then ALIGN else requestedSize;
    depth := 1;
    var effective := CeilingPowerOfTwoWord(memorySize);
    EffectiveSize(order, memorySize);
    SizeMonotone(order, 1, order);
    DivAtLeastTwo(effective, requested);
    while effective / requested / 2 != 0
      invariant 1 <= depth <= order
      invariant effective == DepthSize(order, depth) >= requested
      invariant effective / requested / 2 != 0 <==> effective >= 2 * requested
      decreases order - depth
    {
      assert depth == order ==> effective == ALIGN;
      HalfSize(order, depth);
      depth := depth + 1;
      effective := effective / 2;
      DivAtLeastTwo(effective, requested);
    }
  }

  // ----- masking the leaves behind the arena -----

  /** The last delta bytes of node i are still to be masked; everything behind node i is. */
  ghost predicate Masking(order: nat, virt: set<nat>, i: nat, delta: nat, limit: nat) {
    && InTree(order, i)
    && delta % ALIGN == 0 && 0 < delta <= DepthSize(order, Depth(i))
    && Behind(order, i) == limit + delta / ALIGN
    && CoversTail(order, virt, Behind(order, i))
  }

  lemma SlotIsDepthSize(order: nat, i: nat)
    requires InTree(order, i)
    ensures SlotSize(order, i) == DepthSize(order, Depth(i))
    ensures Behind(order, i) - First(order, i) == Pow2(order - Depth(i))
  {
    SpanBounds(order, i);
  }

  lemma MaskLast(order: nat, virt: set<nat>, i: nat, delta: nat, limit: nat)
    requires Masking(order, virt, i, delta, limit) && delta == DepthSize(order, Depth(i))
    ensures WhollyFree(order, virt, i) && CoversTail(order, virt + {i}, limit)
  {
    SlotIsDepthSize(order, i);
    ExtendTail(order, virt, i, Behind(order, i), limit);
  }

  lemma MaskMore(order: nat, depth: nat, delta: nat)
    requires depth <= order && delta % ALIGN == 0 && 0 < delta <= DepthSize(order, depth)
    requires delta != DepthSize(order, depth)
    ensures depth < order
  {
  }

  lemma MaskRight(order: nat, virt: set<nat>, i: nat, delta: nat, limit: nat)
    requires Masking(order, virt, i, delta, limit) && Depth(i) < order
    requires delta <= DepthSize(order, Depth(i)) / 2
    ensures Masking(order, virt, 2 * i + 1, delta, limit)
  {
    SplitSpan(order, i);
    ChildDepth(i);
    HalfSize(order, Depth(i));
  }

  lemma MaskLeft(order: nat, virt: set<nat>, i: nat, delta: nat, limit: nat)
    requires Masking(order, virt, i, delta, limit) && Depth(i) < order
    requires delta > DepthSize(order, Depth(i)) / 2
    ensures InTree(order, 2 * i + 1) && WhollyFree(order, virt, 2 * i + 1)
    ensures Masking(order, virt + {2 * i + 1}, 2 * i, delta - DepthSize(order, Depth(i)) / 2, limit)
  {
    var half := DepthSize(order, Depth(i) + 1);
    HalfSize(order, Depth(i));
    LeavesLeft(delta, half, Pow2(order - Depth(i) - 1), Behind(order, i), limit);
    MaskRightHalf(order, virt, i);
    LeftMasked(order, virt + {2 * i + 1}, 2 * i, delta - half, limit, half);
  }

  /** The bytes left over, in leaves. */
  lemma LeavesLeft(delta: nat, half: nat, leaves: nat, behind: nat, limit: nat)
    requires half == ALIGN * leaves && half < delta <= 2 * half && delta % ALIGN == 0
    requires behind == limit + delta / ALIGN
    ensures (delta - half) % ALIGN == 0 && 0 < delta - half <= half
    ensures behind - leaves == limit + (delta - half) / ALIGN
  {
    BytesToLeaves(delta, leaves);
  }

  lemma LeftMasked(order: nat, virt: set<nat>, i: nat, rest: nat, limit: nat, size: nat)
    requires InTree(order, i) && size == DepthSize(order, Depth(i))
    requires rest % ALIGN == 0 && 0 < rest <= size && Behind(order, i) == limit + rest / ALIGN
    requires CoversTail(order, virt, Behind(order, i))
    ensures Masking(order, virt, i, rest, limit)
  {
  }

  /** The three ways on from a node: mask it, go right, or mask the right child and go left. */
  lemma MaskNext(order: nat, virt: set<nat>, i: nat, size: nat, delta: nat, limit: nat)
    requires Masking(order, virt, i, delta, limit) && size == DepthSize(order, Depth(i))
    ensures delta == size ==> WhollyFree(order, virt, i) && CoversTail(order, virt + {i}, limit)
    ensures delta != size ==> Depth(i) < order
    ensures delta != size && delta <= size / 2 ==> Masking(order, virt, 2 * i + 1, delta, limit)
    ensures delta > size / 2 && delta != size ==>
              && InTree(order, 2 * i + 1) && WhollyFree(order, virt, 2 * i + 1)
              && Masking(order, virt + {2 * i + 1}, 2 * i, delta - size / 2, limit)
  {
    if delta == size {
      MaskLast(order, virt, i, delta, limit);
    } else {
      MaskMore(order, Depth(i), delta);
      if delta <= size / 2 {
        MaskRight(order, virt, i, delta, limit);
      } else {
        MaskLeft(order, virt, i, delta, limit);
      }
    }
  }

  lemma BytesToLeaves(delta: nat, leaves: nat)
    requires delta % ALIGN == 0 && delta >= ALIGN * leaves
    ensures (delta - ALIGN * leaves) % ALIGN == 0
    ensures (delta - ALIGN * leaves) / ALIGN == delta / ALIGN - leaves
  {
  }

  lemma MaskRightHalf(order: nat, virt: set<nat>, i: nat)
    requires InTree(order, i) && Depth(i) < order && CoversTail(order, virt, Behind(order, i))
    ensures InTree(order, 2 * i) && InTree(order, 2 * i + 1) && WhollyFree(order, virt, 2 * i + 1)
    ensures CoversTail(order, virt + {2 * i + 1}, Behind(order, 2 * i))
    ensures Behind(order, 2 * i) == Behind(order, i) - Pow2(order - Depth(i) - 1)
    ensures Depth(2 * i) == Depth(i) + 1
  {
    SplitSpan(order, i);
    ChildDepth(i);
    var right, behind, first := 2 * i + 1, Behind(order, i), Behind(order, 2 * i);
    ExtendTail(order, virt, right, behind, first);
    assert CoversTail(order, virt + {right}, first);
  }

  ghost function LimitLeaf(order: nat, memorySize: nat): nat
    requires order >= 1
  {
    Pow2(order - 1) + memorySize / ALIGN
  }

  lemma MaskNone(order: nat, memorySize: nat)
    requires ArenaShape(order, memorySize) && DepthSize(order, 1) == memorySize
    ensures CoversTail(order, {}, LimitLeaf(order, memorySize))
  {
    assert Pow2(order) == 2 * Pow2(order - 1);
    EmptyTail(order);
  }

  lemma MaskStart(order: nat, memorySize: nat)
    requires ArenaShape(order, memorySize) && DepthSize(order, 1) != memorySize
    ensures Masking(order, {}, 3, DepthSize(order, 1) - memorySize, LimitLeaf(order, memorySize))
  {
    TwoRows(order, memorySize);
    RootOfTree(order);
    ChildDepth(1);
    HalfSize(order, 1);
    EmptyTail(order);
    BehindThree(order);
  }

  lemma BehindThree(order: nat)
    requires order >= 2
    ensures InTree(order, 3) && Behind(order, 3) == Pow2(order) == 2 * Pow2(order - 1)
  {
    RootOfTree(order);
    SplitSpan(order, 1);
    FirstLeafProduct(2, order);
  }

  lemma TwoRows(order: nat, memorySize: nat)
    requires ArenaShape(order, memorySize) && DepthSize(order, 1) != memorySize
    ensures order >= 2
  {
    assert DepthSize(1, 1) == ALIGN;
  }

  // ----- where slots lie in the arena -----

  /** The marked nodes of an arena: handed out, or virtual and behind its end. */
  ghost predicate Arena(order: nat, live: set<nat>, virt: set<nat>, memorySize: nat) {
    && ArenaShape(order, memorySize)
    && Antichain(order, live)
    && virt <= live
    && CoversTail(order, virt, LimitLeaf(order, memorySize))
  }

  /** A slot that is handed out is aligned to its size and ends inside the arena. */
  lemma SlotInArena(order: nat, live: set<nat>, virt: set<nat>, memorySize: nat, u: nat)
    requires Arena(order, live, virt, memorySize) && u in live && u !in virt
    ensures InTree(order, u)
    ensures SlotOffset(order, u) % SlotSize(order, u) == 0
    ensures SlotOffset(order, u) + SlotSize(order, u) <= memorySize
  {
    BeforeTail(order, live, virt, LimitLeaf(order, memorySize), u);
    OrderLimit(order);
    SlotAligned(order, u);
    SpanBounds(order, u);
  }

  /** The position of the leaf a byte belongs to, which is one of the tree if the byte is not behind it. */
  lemma LeafPosition(order: nat, memorySize: nat, offset: nat)
    requires ArenaShape(order, memorySize)
    ensures LeafOfByte(order, offset) < Pow2(order) <==> offset < DepthSize(order, 1)
    ensures offset < DepthSize(order, 1) ==>
              && InTree(order, LeafOfByte(order, offset))
              && At(LeafOfByte(order, offset)) == Pos(Pow2(order - 1) + offset / ALIGN, order)
  {
    assert Pow2(order) == 2 * Pow2(order - 1);
    if offset < DepthSize(order, 1) {
      LeafOfByteInTree(order, offset);
    }
  }

  /** The search for a byte behind the end of the arena ends on a virtual node. */
  lemma BehindIsVirtual(order: nat, live: set<nat>, virt: set<nat>, memorySize: nat, st: map<nat, nat>, offset: nat)
    requires Arena(order, live, virt, memorySize) && Consistent(order, live, st)
    requires memorySize <= offset < DepthSize(order, 1)
    ensures Owner(order, st, offset) in virt
  {
    LeafOfByteInTree(order, offset);
    var leaf := LeafOfByte(order, offset);
    assert TailLeaf(order, LimitLeaf(order, memorySize), leaf);
    var v :| v in virt && IsAnc(v, leaf);
    ClimbFinds(order, live, st, v, leaf);
  }

  /** Without one of its virtual nodes the tail cannot be covered by nodes that are still marked. */
  lemma TailUncovered(order: nat, live: set<nat>, virt: set<nat>, limit: nat, v: nat, others: set<nat>)
    requires Antichain(order, live) && virt <= live && CoversTail(order, virt, limit) && v in virt
    requires others <= live - {v}
    ensures !CoversTail(order, others, limit)
  {
    assert InTree(order, v) && limit <= First(order, v);
    SpanBounds(order, v);
    var leaf := First(order, v);
    FirstLeafDepth(v, Height(order, v));
    assert TailLeaf(order, limit, leaf);
    if CoversTail(order, others, limit) {
      var w :| w in others && IsAnc(w, leaf);
      AncComparable(v, w, leaf);
    }
  }

  /** An arena that is no power of two always has a virtual slot, so something is always marked. */
  lemma TailIsMasked(order: nat, live: set<nat>, virt: set<nat>, memorySize: nat)
    requires Arena(order, live, virt, memorySize) && memorySize != DepthSize(order, 1)
    ensures virt != {} && live != {}
  {
    var last := Pow2(order) - 1;
    assert Pow2(order) == 2 * Pow2(order - 1);
    RowOf(last, order);
    assert TailLeaf(order, LimitLeaf(order, memorySize), last);
    var v :| v in virt && IsAnc(v, last);
  }

  /** A marked slot that ends behind the arena is a virtual one. */
  lemma VirtualOrInside(order: nat, live: set<nat>, virt: set<nat>, memorySize: nat, i: nat)
    requires Arena(order, live, virt, memorySize) && i in live
    ensures InTree(order, i)
    ensures i in virt <==> SlotOffset(order, i) + SlotSize(order, i) > memorySize
  {
    if i in virt {
      assert InTree(order, i);
      SpanBounds(order, i);
      assert First(order, i) >= LimitLeaf(order, memorySize);
      assert Pow2(Height(order, i) - 1) >= 1;
    } else {
      SlotInArena(order, live, virt, memorySize, i);
    }
  }

  /** Two slots that are handed out share no byte. */
  lemma SlotsApart(order: nat, live: set<nat>, u: nat, v: nat)
    requires Antichain(order, live) && u in live && v in live && u != v
    ensures InTree(order, u) && InTree(order, v)
    ensures || SlotOffset(order, u) + SlotSize(order, u) <= SlotOffset(order, v)
            || SlotOffset(order, v) + SlotSize(order, v) <= SlotOffset(order, u)
  {
    assert InTree(order, u) && InTree(order, v);
    assert !IsAnc(u, v) && !IsAnc(v, u);
    SlotsDisjoint(order, u, v);
  }

  // ----- what an allocation promises -----

  /** No wholly free slot of the size that fits the request. */
  ghost predicate NoRoom(order: nat, live: set<nat>, requested: nat) {
    forall d, q {:trigger FreeAtDepth(order, live, d, q)} ::
      FitsDepth(order, requested, d) ==> !FreeAtDepth(order, live, d, q)
  }

  /** The slot is free, fits the request as tightly as slots can, and is the one the bias asks for. */
  ghost predicate Granted(order: nat, live: set<nat>, requested: nat, leftBias: bool, slot: nat) {
    && InTree(order, slot)
    && FitsDepth(order, requested, Depth(slot))
    && FreeAtDepth(order, live, Depth(slot), slot)
    && (leftBias ==> forall f {:trigger FreeAtDepth(order, live, Depth(slot), f)} ::
          FreeAtDepth(order, live, Depth(slot), f) ==> slot <= f)
    && (!leftBias ==> forall f {:trigger FreeAtDepth(order, live, Depth(slot), f)} ::
          FreeAtDepth(order, live, Depth(slot), f) ==>
          Stat(live + {slot}, 1, order) <= Stat(live + {f}, 1, order))
    && (!leftBias ==> forall f, i {:trigger Prefers(order, live, i, slot, f)} ::
          FreeAtDepth(order, live, Depth(slot), f) && InTree(order, i) && Depth(i) < order ==>
          Prefers(order, live, i, slot, f))
  }

  /** No other slot meets the same demands. */
  lemma GrantedUnique(order: nat, live: set<nat>, requested: nat, leftBias: bool, slot: nat, other: nat)
    requires Granted(order, live, requested, leftBias, slot) && Granted(order, live, requested, leftBias, other)
    ensures slot == other
  {
    FitsIsSmallest(order, requested, Depth(slot), Depth(other));
    if !leftBias {
      OnlyOnePreferred(order, live, slot, other);
    }
  }

  lemma GrantedSize(order: nat, live: set<nat>, requested: nat, leftBias: bool, slot: nat)
    requires Granted(order, live, requested, leftBias, slot)
    ensures requested <= SlotSize(order, slot)
    ensures SlotSize(order, slot) < 2 * requested || SlotSize(order, slot) == ALIGN
  {
    SlotIsDepthSize(order, slot);
    assert Pow2(Height(order, slot) - 1) >= 1;
  }

  /** The outcome of the search at the depth that fits the request. */
  lemma SearchGrants(order: nat, live: set<nat>, st: map<nat, nat>, requested: nat, leftBias: bool,
                     depth: nat)
    requires Antichain(order, live) && Consistent(order, live, st) && FitsDepth(order, requested, depth)
    ensures InTree(order, 1) && Depth(1) == 1
    ensures var q := Descend(order, st, leftBias, 1, depth - 1);
            && (q == 0 <==> NoRoom(order, live, requested))
            && (q != 0 ==> Granted(order, live, requested, leftBias, q) && WhollyFree(order, live, q))
  {
    FindFreeFinds(order, live, st, leftBias, depth);
    var q := Descend(order, st, leftBias, 1, depth - 1);
    if q == 0 {
      forall d, f | FitsDepth(order, requested, d) ensures !FreeAtDepth(order, live, d, f) {
        FitsIsSmallest(order, requested, depth, d);
      }
    } else {
      forall f, i | !leftBias && FreeAtDepth(order, live, depth, f) && InTree(order, i) && Depth(i) < order
        ensures Prefers(order, live, i, q, f)
      {
        FindFreePrefers(order, live, st, 1, depth, q, f, i);
      }
      forall f | FreeAtDepth(order, live, depth, f)
        ensures leftBias ==> q <= f
        ensures !leftBias ==> Stat(live + {q}, 1, order) <= Stat(live + {f}, 1, order)
      {
        if leftBias {
          FindFreeLowest(order, live, st, depth, f);
        } else {
          FindFreeOptimal(order, live, st, depth, f);
        }
      }
    }
  }

  // ----- moving the contents of a slot -----

  /** The slot lies in both buffers and has the same bytes in both. */
  ghost predicate SameBytes(order: nat, u: nat, after: seq<bv8>, before: seq<bv8>)
    requires InTree(order, u)
  {
    var lo, hi := SlotOffset(order, u), SlotOffset(order, u) + SlotSize(order, u);
    hi <= |after| && hi <= |before| && after[lo..hi] == before[lo..hi]
  }

  ghost function SmallerSize(order: nat, s: nat, t: nat): nat
    requires InTree(order, s) && InTree(order, t)
  {
    if SlotSize(order, s) <= SlotSize(order, t) then SlotSize(order, s) else SlotSize(order, t)
  }

  /** The new slot starts with as much of the old one as fits. */
  ghost predicate KeepsBytes(order: nat, from: nat, dest: nat, after: seq<bv8>, before: seq<bv8>)
    requires InTree(order, from) && InTree(order, dest)
  {
    var n := SmallerSize(order, from, dest);
    && SlotOffset(order, dest) + n <= |after| && SlotOffset(order, from) + n <= |before|
    && after[SlotOffset(order, dest)..SlotOffset(order, dest) + n]
    == before[SlotOffset(order, from)..SlotOffset(order, from) + n]
  }

  lemma RemovedIsFree(order: nat, live: set<nat>, i: nat)
    requires Antichain(order, live) && i in live
    ensures Antichain(order, live - {i}) && WhollyFree(order, live - {i}, i)
    ensures live - {i} + {i} == live
  {
    assert InTree(order, i);
  }

  lemma AddedIsApart(order: nat, live: set<nat>, q: nat)
    requires Antichain(order, live) && WhollyFree(order, live, q)
    ensures Antichain(order, live + {q}) && q !in live
  {
    assert IsAnc(q, q);
  }

  /** size_for_depth at the larger of two depths is the smaller of the two slot sizes. */
  lemma DeeperIsSmaller(order: nat, s: nat, t: nat)
    requires InTree(order, s) && InTree(order, t)
    ensures DepthSize(order, if Depth(s) > Depth(t) then Depth(s) else Depth(t)) == SmallerSize(order, s, t)
  {
    SlotIsDepthSize(order, s);
    SlotIsDepthSize(order, t);
    if Depth(s) > Depth(t) {
      SizeMonotone(order, Depth(t), Depth(s));
    } else {
      SizeMonotone(order, Depth(s), Depth(t));
    }
  }

  /** A forward copy between two slots, over the smaller size, keeps the bytes. */
  lemma CopyKeeps(order: nat, from: nat, dest: nat, n: nat, after: seq<bv8>, before: seq<bv8>)
    requires InTree(order, from) && InTree(order, dest) && order <= 63 && |after| == |before|
    requires n == SmallerSize(order, from, dest)
    requires SlotOffset(order, dest) + n <= |before| && SlotOffset(order, from) + n <= |before|
    requires Moved(after, before, SlotOffset(order, dest), SlotOffset(order, from), n)
    ensures KeepsBytes(order, from, dest, after, before)
  {
    StartsEqualOrApart(order, from, dest, n);
    MovedExactly(after, before, SlotOffset(order, dest), SlotOffset(order, from), n);
  }

  /** The copy touches no slot that stays handed out. */
  lemma CopySpares(order: nat, dest: nat, from: nat, n: nat, u: nat, after: seq<bv8>, before: seq<bv8>)
    requires InTree(order, u) && InTree(order, dest) && |after| == |before|
    requires !IsAnc(u, dest) && !IsAnc(dest, u) && n <= SlotSize(order, dest)
    requires SlotOffset(order, u) + SlotSize(order, u) <= |before|
    requires SlotOffset(order, dest) + n <= |before| && from + n <= |before|
    requires Moved(after, before, SlotOffset(order, dest), from, n)
    ensures SameBytes(order, u, after, before)
  {
    SlotsDisjoint(order, u, dest);
  }

  /** The slots of a set keep their bytes. */
  ghost predicate AllKept(order: nat, slots: set<nat>, after: seq<bv8>, before: seq<bv8>) {
    forall u {:trigger InTree(order, u)} | u in slots ::
      InTree(order, u) && SameBytes(order, u, after, before)
  }

  lemma UnchangedKeepsAll(order: nat, live: set<nat>, virt: set<nat>, memorySize: nat, bytes: seq<bv8>)
    requires Arena(order, live, virt, memorySize) && memorySize <= |bytes|
    ensures AllKept(order, live - virt, bytes, bytes)
  {
    forall u | u in live - virt ensures InTree(order, u) && SameBytes(order, u, bytes, bytes) {
      SlotInArena(order, live, virt, memorySize, u);
    }
  }

  lemma CopySparesAll(order: nat, live: set<nat>, virt: set<nat>, memorySize: nat,
                      dest: nat, from: nat, n: nat, after: seq<bv8>, before: seq<bv8>)
    requires Arena(order, live, virt, memorySize) && memorySize <= |before| == |after|
    requires WhollyFree(order, live, dest) && n <= SlotSize(order, dest)
    requires SlotOffset(order, dest) + n <= |before| && from + n <= |before|
    requires Moved(after, before, SlotOffset(order, dest), from, n)
    ensures AllKept(order, live - virt, after, before)
  {
    forall u | u in live - virt ensures InTree(order, u) && SameBytes(order, u, after, before) {
      SlotInArena(order, live, virt, memorySize, u);
      CopySpares(order, dest, from, n, u, after, before);
    }
  }

  /** A move between two free slots keeps the bytes moved and spares every slot handed out. */
  lemma CopyEffect(order: nat, live: set<nat>, virt: set<nat>, memorySize: nat, origin: nat, dest: nat,
                   from: nat, n: nat, after: seq<bv8>, before: seq<bv8>)
    requires Arena(order, live, virt, memorySize) && memorySize <= |before| == |after|
    requires InTree(order, origin) && from == SlotOffset(order, origin) && WhollyFree(order, live, dest)
    requires n == SmallerSize(order, origin, dest)
    requires SlotOffset(order, dest) + n <= |before| && from + n <= |before|
    requires Moved(after, before, SlotOffset(order, dest), from, n)
    ensures KeepsBytes(order, origin, dest, after, before)
    ensures AllKept(order, live - virt, after, before)
  {
    OrderLimit(order);
    CopyKeeps(order, origin, dest, n, after, before);
    CopySparesAll(order, live, virt, memorySize, dest, from, n, after, before);
  }

  /**
   What reallocating the slot `origin` does when the other marked nodes are `others`: with no room
   left the slot stays as it was; otherwise the granted slot replaces it, starts with the old
   bytes, and no slot of `users` loses a byte.
   */
  ghost predicate Reallocated(order: nat, leftBias: bool, main: nat, others: set<nat>, users: set<nat>,
                              origin: nat, address: nat, requested: nat, slot: nat, r: nat,
                              marked: set<nat>, after: seq<bv8>, before: seq<bv8>)
    requires InTree(order, origin)
  {
    if NoRoom(order, others, requested)
    then r == 0 && marked == others + {origin} && after == before
    else
      && r != 0
      && Granted(order, others, requested, leftBias, slot)
      && r == (if slot == origin then address else main + SlotOffset(order, slot))
      && marked == others + {slot}
      && KeepsBytes(order, origin, slot, after, before)
      && AllKept(order, users, after, before)
  }

  /** The cases of buddy_realloc; `origin` is the slot of the pointer, or 0 when there is none. */
  ghost predicate ReallocOutcome(order: nat, leftBias: bool, main: nat, memorySize: nat,
                                 live: set<nat>, virt: set<nat>, origin: nat, address: nat, requested: nat,
                                 slot: nat, r: nat, marked: set<nat>, after: seq<bv8>, before: seq<bv8>)
  {
    if address == 0 then
      && after == before
      && (r == 0 <==> requested > memorySize || NoRoom(order, live, requested))
      && (if r == 0 then marked == live
          else Granted(order, live, requested, leftBias, slot)
               && marked == live + {slot} && r == main + SlotOffset(order, slot))
    else if origin == 0 || requested > memorySize then
      r == 0 && marked == live && after == before
    else
      && origin in live - virt && InTree(order, origin)
      && if requested == 0 then r == 0 && marked == live - {origin} && after == before
         else Reallocated(order, leftBias, main, live - {origin}, live - virt - {origin}, origin,
                          address, requested, slot, r, marked, after, before)
  }

  /** Reallocation as the holder of the pointer to the slot sees it. */
  lemma ReallocatedSlots(order: nat, leftBias: bool, main: nat, memorySize: nat,
                         live: set<nat>, virt: set<nat>, origin: nat, address: nat, requested: nat, slot: nat, r: nat,
                         marked: set<nat>, after: seq<bv8>, before: seq<bv8>)
    requires virt <= live && origin != 0 && address != 0
    requires ReallocOutcome(order, leftBias, main, memorySize, live, virt, origin, address, requested,
                            slot, r, marked, after, before)
    requires InTree(order, origin) && address == main + SlotOffset(order, origin)
    ensures requested == 0 ==> marked - virt == live - virt - {origin}
    ensures requested != 0 && r == 0 ==> marked - virt == live - virt
    ensures requested != 0 && r != 0 ==>
              && marked - virt == live - virt - {origin} + {slot}
              && slot !in live - virt - {origin}
              && InTree(order, slot) && FitsDepth(order, requested, Depth(slot))
              && r == main + SlotOffset(order, slot)
  {
    if requested == 0 {
    } else if r != 0 {
      assert FreeAtDepth(order, live - {origin}, Depth(slot), slot);
      assert slot !in live - {origin};
      assert marked - virt == live - virt - {origin} + {slot};
    } else {
      assert marked == live - {origin} + {origin} == live || marked == live;
    }
  }
}

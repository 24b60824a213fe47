/** Starting an allocator, and whole runs of allocations and releases. */
module BuddyRuns {
  import opened PowersOfTwo
  import opened TreeShape
  import opened TreeStatus
  import opened Slots
  import opened Sequences
  import opened Bits
  import opened ArenaSizes
  import opened Buddy

  /** __alignof__ of struct buddy and of size_t. */
  const STRUCT_ALIGN: nat := 8

  /** What buddy_init refuses. */
  predicate Refused(at: nat, main: nat, memorySize: nat) {
    || at == 0 || main == 0 || at == main
    || at % 8 != 0 || main % 8 != 0
    || memorySize < 64
  }

  /** buddy_init with the header at address `at`. */
  method Init(at: nat, main: nat, memorySize: nat, arena: array<bv8>) returns (buddy: Buddy?)
    requires memorySize < MAX_MEMORY + ALIGN && main + memorySize <= WORD && arena.Length >= memorySize
    ensures buddy == null <==> Refused(at, main, memorySize)
    ensures buddy != null ==>
              && buddy.Valid()
              && fresh(buddy) && fresh(buddy.tree) && fresh(buddy.tree.bits)
              && buddy.main == main && buddy.arena == arena && !buddy.leftBias
              && buddy.memorySize == memorySize - memorySize % ALIGN
              && buddy.User() == {}
  {
    if at == NULL || main == NULL || at == main || at % STRUCT_ALIGN != 0 || main % STRUCT_ALIGN != 0 {
      return null;
    }
    var size := memorySize;
    if size % ALIGN != 0 {
      size := size - size % ALIGN;
    }
    if size < ALIGN {
      return null;
    }
    buddy := new Buddy(main, size, arena);
  }

  ghost predicate StartOf(order: nat, main: nat, user: set<nat>, pointer: nat, slot: nat) {
    slot in user && InTree(order, slot) && pointer == main + SlotOffset(order, slot)
  }

  /** A pointer to the first byte of a slot that is handed out. */
  ghost predicate PointsTo(b: Buddy, pointer: nat, slot: nat)
    reads b, b.tree
  {
    StartOf(b.tree.order, b.main, b.User(), pointer, slot)
  }

  /** Such a pointer may be freed, and freeing it is about this very slot. */
  lemma PointerIsLive(b: Buddy, pointer: nat, slot: nat)
    requires b.Valid() && PointsTo(b, pointer, slot)
    ensures b.IsLive(pointer) && b.Origin(pointer) == slot
  {
    SlotInArena(b.tree.order, b.tree.live, b.virt, b.memorySize, slot);
    SpanBounds(b.tree.order, slot);
    assert b.InRange(pointer) && b.Holds(slot, pointer);
    b.OriginOfLive(pointer, slot);
  }

  method FreePointer(b: Buddy, pointer: nat, ghost slot: nat)
    requires b.Valid() && PointsTo(b, pointer, slot)
    modifies b.tree`st, b.tree`live, b.tree.bits
    ensures b.Valid() && b.tree.live == old(b.tree.live) - {slot}
    ensures WhollyFree(b.tree.order, b.tree.live, slot)
  {
    PointerIsLive(b, pointer, slot);
    RemovedIsFree(b.tree.order, b.tree.live, slot);
    var panicked, released := b.Free(pointer);
  }

  /**
   A pointer freed twice. The second time the search passes the slot, now free, and ends on a partly
   taken node above it: the allocator stays in order only when nothing else was marked at all.
   */
  method FreeTwice(b: Buddy, pointer: nat, ghost slot: nat) returns (panicked: bool)
    requires b.Valid() && PointsTo(b, pointer, slot)
    modifies b.tree`st, b.tree`live, b.tree.bits
    ensures panicked <==> old(b.tree.live) == {slot}
    ensures b.Valid() <==> old(b.tree.live) == {slot}
  {
    PointerIsLive(b, pointer, slot);
    FreePointer(b, pointer, slot);
    NoLongerLive(b, pointer, slot);
    ghost var found;
    panicked, found := b.Free(pointer);
  }

  /** No other slot holds the address of a slot that has just been given back. */
  lemma NoLongerLive(b: Buddy, pointer: nat, slot: nat)
    requires b.Valid() && WhollyFree(b.tree.order, b.tree.live, slot) && b.Holds(slot, pointer)
    ensures !b.IsLive(pointer)
  {
    if b.IsLive(pointer) {
      var u :| u in b.User() && b.Holds(u, pointer);
      AddedIsApart(b.tree.order, b.tree.live, slot);
      SlotsApart(b.tree.order, b.tree.live + {slot}, slot, u);
    }
  }

  /** In an arena that is no power of two freeing a pointer twice always leaves disorder. */
  method FreeTwiceMasked(b: Buddy, pointer: nat, ghost slot: nat) returns (panicked: bool)
    requires b.Valid() && PointsTo(b, pointer, slot) && b.memorySize != DepthSize(b.tree.order, 1)
    modifies b.tree`st, b.tree`live, b.tree.bits
    ensures !panicked && !b.Valid()
  {
    TailIsMasked(b.tree.order, b.tree.live, b.virt, b.memorySize);
    ghost var v :| v in b.virt;
    panicked := FreeTwice(b, pointer, slot);
  }

  /** A fresh allocator, whatever its arena, has a leaf to give. */
  lemma FreshHasRoom(b: Buddy, size: nat)
    requires b.Valid() && b.User() == {} && size <= ALIGN
    ensures !NoRoom(b.tree.order, b.tree.live, size)
  {
    var order := b.tree.order;
    var leaf := Pow2(order - 1);
    RowOf(leaf, order);
    SpanBounds(order, leaf);
    AllVirtual(b);
    forall v | v in b.tree.live ensures !IsAnc(v, leaf) && !IsAnc(leaf, v) {
      assert InTree(order, v) && First(order, v) >= LimitLeaf(order, b.memorySize);
      AncestorsSpan(order, v, leaf);
      AncestorsSpan(order, leaf, v);
    }
    assert FreeAtDepth(order, b.tree.live, order, leaf);
  }

  /** Three leaves do not make a tree. */
  lemma ThreeLeavesAreMasked(b: Buddy)
    requires b.Valid() && b.memorySize == 3 * ALIGN
    ensures b.memorySize != DepthSize(b.tree.order, 1)
  {
    var k := b.tree.order - 1;
    assert Pow2(k) == if k == 0 then 1 else 2 * Pow2(k - 1);
  }

  /** In a fresh allocator an allocation of a leaf is granted; freed twice it leaves disorder. */
  method AllocatedAndFreedTwice(b: Buddy, size: nat) returns (panicked: bool)
    requires b.Valid() && b.User() == {} && size <= ALIGN && size <= b.memorySize
    requires b.memorySize != DepthSize(b.tree.order, 1)
    modifies b.tree`st, b.tree`live, b.tree.bits
    ensures !panicked && !b.Valid()
  {
    FreshHasRoom(b, size);
    var pointer;
    ghost var slot;
    pointer, slot := b.Malloc(size);
    SlotInArena(b.tree.order, b.tree.live, b.virt, b.memorySize, slot);
    panicked := FreeTwiceMasked(b, pointer, slot);
  }

  /** Such a run from the start: three leaves, one allocation, and two calls of free. */
  method StartedAndFreedTwice(arena: array<bv8>) returns (b: Buddy, panicked: bool)
    requires arena.Length >= 3 * ALIGN
    ensures !panicked && !b.Valid()
  {
    b := Init(8, 16, 3 * ALIGN, arena);
    ThreeLeavesAreMasked(b);
    panicked := AllocatedAndFreedTwice(b, ALIGN);
  }

  /** An allocation taken back leaves every status as it was, merged all the way up. */
  method MallocThenFree(b: Buddy, size: nat) returns (r: nat, ghost between: set<nat>)
    requires b.Valid()
    modifies b.tree`st, b.tree`live, b.tree.bits
    ensures b.Valid() && b.tree.live == old(b.tree.live) && b.tree.st == old(b.tree.st)
    ensures Given(b.tree.order, b.leftBias, b.main, b.memorySize, old(b.tree.live), size, r, between)
  {
    ghost var order, live, st := b.tree.order, b.tree.live, b.tree.st;
    ghost var slot;
    r, slot := b.Malloc(size);
    between := b.tree.live;
    assert r != NULL ==> GivenSlot(order, b.leftBias, b.main, live, size, r, between, slot);
    if r != NULL {
      FreePointer(b, r, slot);
      assert b.tree.live == live;
    }
    ConsistentUnique(order, live, st, b.tree.st);
  }

  // ----- runs -----

  datatype Request =
    | Allocate(size: nat)
    | Store(which: nat, data: seq<bv8>)
    | Resize(which: nat, newSize: nat)
    | Release(which: nat)

  /** A pointer held by the client, the size it asked for last, and the bytes it relies on. */
  datatype Held = Held(pointer: nat, size: nat, data: seq<bv8>)

  /** What the client holds after a request, which was answered with r. */
  function Reply(held: seq<Held>, request: Request, r: nat): seq<Held> {
    match request
    case Allocate(size) => if r == NULL then held else held + [Held(r, size, [])]
    case Store(k, data) =>
      if k < |held| && |data| <= held[k].size then held[k := Held(held[k].pointer, held[k].size, data)] else held
    case Resize(k, size) =>
      if k >= |held| then held
      else if size == 0 then Without(held, k)
      else if r == NULL then held
      else held[k := Held(r, size, Cut(held[k].data, size))]
    case Release(k) => if k < |held| then Without(held, k) else held
  }

  /** What it holds after all of them, starting with nothing. */
  function HeldAfter(requests: seq<Request>, answers: seq<nat>): seq<Held>
    requires |requests| == |answers|
  {
    if requests == [] then []
    else
      var n := |requests| - 1;
      Reply(HeldAfter(requests[..n], answers[..n]), requests[n], answers[n])
  }

  /** What is written to a block and then cut by a resize is what the block starts with afterwards. */
  lemma StoredThenCut(requests: seq<Request>, answers: seq<nat>, k: nat, data: seq<bv8>, size: nat, s: nat, r: nat)
    requires |requests| == |answers| && k < |HeldAfter(requests, answers)|
    requires |data| <= HeldAfter(requests, answers)[k].size && size != 0 && r != NULL
    ensures var stored := HeldAfter(requests + [Store(k, data)], answers + [s]);
            |stored| == |HeldAfter(requests, answers)| && stored[k].data == data
    ensures var cut := HeldAfter(requests + [Store(k, data)] + [Resize(k, size)], answers + [s] + [r]);
            |cut| == |HeldAfter(requests, answers)|
            && cut[k] == Held(r, size, if |data| <= size then data else data[..size])
  {
    HeldOneMore(requests, answers, Store(k, data), s);
    HeldOneMore(requests + [Store(k, data)], answers + [s], Resize(k, size), r);
  }

  lemma HeldOneMore(requests: seq<Request>, answers: seq<nat>, request: Request, r: nat)
    requires |requests| == |answers|
    ensures HeldAfter(requests + [request], answers + [r]) == Reply(HeldAfter(requests, answers), request, r)
  {
    assert (requests + [request])[..|requests|] == requests && (answers + [r])[..|answers|] == answers;
  }

  ghost predicate GivenSlot(order: nat, leftBias: bool, main: nat, live: set<nat>, size: nat, r: nat,
                            live': set<nat>, slot: nat)
  {
    Granted(order, live, size, leftBias, slot) && r == main + SlotOffset(order, slot) && live' == live + {slot}
  }

  /** Null when there is no room, and else the slot the allocator grants, when `live` are the marked nodes. */
  ghost predicate Given(order: nat, leftBias: bool, main: nat, memorySize: nat, live: set<nat>, size: nat, r: nat,
                        live': set<nat>)
  {
    if size > memorySize || NoRoom(order, live, size) then r == NULL && live' == live
    else r != NULL && exists slot :: GivenSlot(order, leftBias, main, live, size, r, live', slot)
  }

  /** As Given, with the old slot given back first, and kept when there is no room. */
  ghost predicate Regiven(order: nat, leftBias: bool, main: nat, memorySize: nat, live: set<nat>, slot: nat,
                          size: nat, r: nat, live': set<nat>)
  {
    if size == 0 then r == NULL && live' == live - {slot}
    else if size > memorySize || NoRoom(order, live - {slot}, size) then r == NULL && live' == live
    else Given(order, leftBias, main, memorySize, live - {slot}, size, r, live')
  }

  /** The answer to a request and the marked nodes after it; a request for a block not held is passed over. */
  ghost predicate Answered(order: nat, leftBias: bool, main: nat, memorySize: nat, virt: set<nat>, live: set<nat>,
                           held: seq<Held>, request: Request, r: nat, live': set<nat>)
  {
    match request
    case Allocate(size) => Given(order, leftBias, main, memorySize, live, size, r, live')
    case Store(_, _) => r == NULL && live' == live
    case Resize(k, size) =>
      if k >= |held| then r == NULL && live' == live
      else exists slot ::
        && StartOf(order, main, live - virt, held[k].pointer, slot)
        && Regiven(order, leftBias, main, memorySize, live, slot, size, r, live')
    case Release(k) =>
      if k >= |held| then r == NULL && live' == live
      else exists slot ::
        StartOf(order, main, live - virt, held[k].pointer, slot) && r == NULL && live' == live - {slot}
  }

  lemma GivenOnce(order: nat, leftBias: bool, main: nat, memorySize: nat, live: set<nat>, size: nat,
                  r: nat, live': set<nat>, s: nat, live'': set<nat>)
    requires Given(order, leftBias, main, memorySize, live, size, r, live')
    requires Given(order, leftBias, main, memorySize, live, size, s, live'')
    ensures r == s && live' == live''
  {
    if !(size > memorySize || NoRoom(order, live, size)) {
      var p :| GivenSlot(order, leftBias, main, live, size, r, live', p);
      var q :| GivenSlot(order, leftBias, main, live, size, s, live'', q);
      GrantedUnique(order, live, size, leftBias, p, q);
    }
  }

  /** A pointer is the start of one slot only. */
  lemma StartOfOne(order: nat, main: nat, live: set<nat>, virt: set<nat>, pointer: nat, u: nat, v: nat)
    requires Antichain(order, live)
    requires StartOf(order, main, live - virt, pointer, u) && StartOf(order, main, live - virt, pointer, v)
    ensures u == v
  {
    SpanBounds(order, u);
    SpanBounds(order, v);
    if u != v {
      SlotsApart(order, live, u, v);
    }
  }

  /** The requests leave no choice: the answer and what is marked afterwards are determined. */
  lemma AnsweredOnce(order: nat, leftBias: bool, main: nat, memorySize: nat, virt: set<nat>, live: set<nat>,
                     held: seq<Held>, request: Request, r: nat, live': set<nat>, s: nat, live'': set<nat>)
    requires Antichain(order, live)
    requires Answered(order, leftBias, main, memorySize, virt, live, held, request, r, live')
    requires Answered(order, leftBias, main, memorySize, virt, live, held, request, s, live'')
    ensures r == s && live' == live''
  {
    match request {
      case Allocate(size) => GivenOnce(order, leftBias, main, memorySize, live, size, r, live', s, live'');
      case Resize(k, size) =>
        if k < |held| {
          var p :| && StartOf(order, main, live - virt, held[k].pointer, p)
                   && Regiven(order, leftBias, main, memorySize, live, p, size, r, live');
          var q :| && StartOf(order, main, live - virt, held[k].pointer, q)
                   && Regiven(order, leftBias, main, memorySize, live, q, size, s, live'');
          StartOfOne(order, main, live, virt, held[k].pointer, p, q);
          if size != 0 && !(size > memorySize || NoRoom(order, live - {p}, size)) {
            GivenOnce(order, leftBias, main, memorySize, live - {p}, size, r, live', s, live'');
          }
        }
      case Release(k) =>
        if k < |held| {
          var p :| StartOf(order, main, live - virt, held[k].pointer, p) && live' == live - {p};
          var q :| StartOf(order, main, live - virt, held[k].pointer, q) && live'' == live - {q};
          StartOfOne(order, main, live, virt, held[k].pointer, p, q);
        }
      case Store(_, _) =>
    }
  }

  /** The start of the data, as much of it as the size allows. */
  function Cut(data: seq<bv8>, size: nat): (r: seq<bv8>)
    ensures |r| <= size && r <= data
    ensures |data| <= size ==> r == data
  {
    if |data| <= size then data else data[..size]
  }

  /** The slot starts with the data. */
  ghost predicate StartsWith(order: nat, bytes: seq<bv8>, slot: nat, data: seq<bv8>)
    requires InTree(order, slot)
  {
    var start := SlotOffset(order, slot);
    start + |data| <= |bytes| && bytes[start..start + |data|] == data
  }

  /** A held pointer is the start of a slot that fits its size as tightly as slots can, with its data. */
  ghost predicate Backed(order: nat, main: nat, bytes: seq<bv8>, h: Held, slot: nat) {
    && InTree(order, slot)
    && h.pointer == main + SlotOffset(order, slot)
    && FitsDepth(order, h.size, Depth(slot))
    && |h.data| <= h.size && StartsWith(order, bytes, slot, h.data)
  }

  /** The pointers held are those of all slots handed out, each slot once. */
  ghost predicate Tracks(order: nat, main: nat, user: set<nat>, bytes: seq<bv8>, held: seq<Held>, slots: seq<nat>) {
    && |held| == |slots|
    && (forall k | 0 <= k < |slots| :: slots[k] in user && Backed(order, main, bytes, held[k], slots[k]))
    && (forall k, l | 0 <= k < l < |slots| :: slots[k] != slots[l])
    && (forall u | u in user :: u in slots)
  }

  lemma TracksMore(order: nat, main: nat, user: set<nat>, bytes: seq<bv8>, held: seq<Held>, slots: seq<nat>,
                   h: Held, slot: nat)
    requires Tracks(order, main, user, bytes, held, slots)
    requires Backed(order, main, bytes, h, slot) && slot !in user
    ensures Tracks(order, main, user + {slot}, bytes, held + [h], slots + [slot])
  {
  }

  lemma TracksLess(order: nat, main: nat, user: set<nat>, bytes: seq<bv8>, held: seq<Held>, slots: seq<nat>, k: nat)
    requires Tracks(order, main, user, bytes, held, slots) && k < |slots|
    ensures Tracks(order, main, user - {slots[k]}, bytes, Without(held, k), Without(slots, k))
  {
    var rest := Without(slots, k);
    forall j | 0 <= j < |rest|
      ensures rest[j] in user - {slots[k]} && Backed(order, main, bytes, Without(held, k)[j], rest[j])
    {
      LessBacked(order, main, user, bytes, held, slots, k, j);
    }
    WithoutDistinct(slots, k);
    forall u | u in user - {slots[k]} ensures u in rest {
      var j :| 0 <= j < |slots| && slots[j] == u;
      WithoutAt(slots, k, if j < k then j else j - 1);
    }
  }

  lemma LessBacked(order: nat, main: nat, user: set<nat>, bytes: seq<bv8>, held: seq<Held>, slots: seq<nat>,
                   k: nat, j: nat)
    requires Tracks(order, main, user, bytes, held, slots) && k < |slots| && j < |slots| - 1
    ensures Without(slots, k)[j] in user - {slots[k]}
    ensures Backed(order, main, bytes, Without(held, k)[j], Without(slots, k)[j])
  {
    WithoutAt(slots, k, j);
    WithoutAt(held, k, j);
    var i := if j < k then j else j + 1;
    assert Backed(order, main, bytes, held[i], slots[i]) && slots[i] in user && slots[i] != slots[k];
  }

  lemma WithoutDistinct(slots: seq<nat>, k: nat)
    requires k < |slots| && forall i, j | 0 <= i < j < |slots| :: slots[i] != slots[j]
    ensures forall i, j | 0 <= i < j < |slots| - 1 :: Without(slots, k)[i] != Without(slots, k)[j]
  {
    forall i, j | 0 <= i < j < |slots| - 1 ensures Without(slots, k)[i] != Without(slots, k)[j] {
      WithoutAt(slots, k, i);
      WithoutAt(slots, k, j);
    }
  }

  /** The other slots keep their bytes, and so their holders what they rely on. */
  lemma TracksOther(order: nat, main: nat, user: set<nat>, bytes: seq<bv8>, held: seq<Held>, slots: seq<nat>,
                    k: nat, h: Held, slot: nat, after: seq<bv8>)
    requires Tracks(order, main, user, bytes, held, slots) && k < |slots|
    requires Backed(order, main, after, h, slot) && slot !in user - {slots[k]}
    requires AllKept(order, user - {slots[k]}, after, bytes)
    ensures Tracks(order, main, user - {slots[k]} + {slot}, after, held[k := h], slots[k := slot])
  {
    var now := slots[k := slot];
    forall j | 0 <= j < |slots| && j != k ensures Backed(order, main, after, held[j], slots[j]) {
      assert slots[j] in user - {slots[k]};
      StillStarts(order, main, bytes, after, held[j], slots[j]);
    }
    forall u | u in user - {slots[k]} + {slot} ensures u in now {
      StillListed(slots, k, slot, u);
    }
  }

  lemma StillListed(slots: seq<nat>, k: nat, slot: nat, u: nat)
    requires k < |slots| && (u == slot || (u in slots && u != slots[k]))
    ensures u in slots[k := slot]
  {
    var now := slots[k := slot];
    if u == slot {
      assert now[k] == u;
    } else {
      var j :| 0 <= j < |slots| && slots[j] == u;
      assert now[j] == u;
    }
  }

  lemma StillStarts(order: nat, main: nat, bytes: seq<bv8>, after: seq<bv8>, h: Held, slot: nat)
    requires Backed(order, main, bytes, h, slot) && SameBytes(order, slot, after, bytes)
    ensures Backed(order, main, after, h, slot)
  {
    SlotIsDepthSize(order, slot);
    var lo, n := SlotOffset(order, slot), SlotSize(order, slot);
    Prefix(after, bytes, lo, n, lo, |h.data|);
  }

  /** What two equal stretches of bytes have in common at their start. */
  lemma Prefix(after: seq<bv8>, bytes: seq<bv8>, there: nat, n: nat, here: nat, m: nat)
    requires m <= n && there + n <= |after| && here + n <= |bytes|
    requires after[there..there + n] == bytes[here..here + n]
    ensures after[there..there + m] == bytes[here..here + m]
  {
    assert after[there..there + n][..m] == after[there..there + m];
    assert bytes[here..here + n][..m] == bytes[here..here + m];
  }

  /** A block that has moved starts with its data, cut to the new size. */
  lemma MovedStarts(order: nat, main: nat, bytes: seq<bv8>, after: seq<bv8>, h: Held, slot: nat, moved: Held,
                    newSlot: nat)
    requires Backed(order, main, bytes, h, slot) && InTree(order, newSlot)
    requires FitsDepth(order, moved.size, Depth(newSlot))
    requires moved.pointer == main + SlotOffset(order, newSlot) && moved.data == Cut(h.data, moved.size)
    requires KeepsBytes(order, slot, newSlot, after, bytes)
    ensures Backed(order, main, after, moved, newSlot)
  {
    SlotIsDepthSize(order, slot);
    SlotIsDepthSize(order, newSlot);
    var n, m := SmallerSize(order, slot, newSlot), |moved.data|;
    Prefix(after, bytes, SlotOffset(order, newSlot), n, SlotOffset(order, slot), m);
    Prefix(bytes, bytes, SlotOffset(order, slot), |h.data|, SlotOffset(order, slot), m);
    assert h.data[..m] == bytes[SlotOffset(order, slot)..SlotOffset(order, slot) + |h.data|][..m];
  }

  /** The bytes asked for with one pointer lie in the arena, apart from those of any other. */
  lemma HeldApart(b: Buddy, held: seq<Held>, slots: seq<nat>, k: nat, l: nat)
    requires b.Valid() && Tracked(b, held, slots) && k < |held| && l < |held| && k != l
    ensures b.main <= held[k].pointer && held[k].pointer + held[k].size <= b.main + b.memorySize
    ensures || held[k].pointer + held[k].size <= held[l].pointer
            || held[l].pointer + held[l].size <= held[k].pointer
  {
    var order := b.tree.order;
    assert Backed(order, b.main, b.arena[..], held[k], slots[k]);
    assert Backed(order, b.main, b.arena[..], held[l], slots[l]);
    SlotsApart(order, b.tree.live, slots[k], slots[l]);
    SlotInArena(order, b.tree.live, b.virt, b.memorySize, slots[k]);
    SlotIsDepthSize(order, slots[k]);
    SlotIsDepthSize(order, slots[l]);
  }

  ghost predicate Tracked(b: Buddy, held: seq<Held>, slots: seq<nat>)
    reads b, b.tree, b.arena
  {
    Tracks(b.tree.order, b.main, b.User(), b.arena[..], held, slots)
  }

  method Append(b: Buddy, size: nat, held: seq<Held>, ghost slots: seq<nat>)
    returns (r: nat, newHeld: seq<Held>, ghost newSlots: seq<nat>)
    requires b.Valid() && Tracked(b, held, slots)
    modifies b.tree`st, b.tree`live, b.tree.bits
    ensures b.Valid() && Tracked(b, newHeld, newSlots)
    ensures newHeld == Reply(held, Allocate(size), r)
    ensures Given(b.tree.order, b.leftBias, b.main, b.memorySize, old(b.tree.live), size, r, b.tree.live)
  {
    ghost var live := b.tree.live;
    ghost var slot;
    r, slot := b.Malloc(size);
    newHeld, newSlots := held, slots;
    if r != NULL {
      var h := Held(r, size, []);
      SlotInArena(b.tree.order, b.tree.live, b.virt, b.memorySize, slot);
      TracksMore(b.tree.order, b.main, old(b.User()), b.arena[..], held, slots, h, slot);
      assert b.User() == old(b.User()) + {slot};
      assert GivenSlot(b.tree.order, b.leftBias, b.main, live, size, r, b.tree.live, slot);
      newHeld, newSlots := held + [h], slots + [slot];
    }
  }

  /** The client writes into one of its blocks. */
  method Write(b: Buddy, k: nat, data: seq<bv8>, held: seq<Held>, ghost slots: seq<nat>)
    returns (newHeld: seq<Held>)
    requires b.Valid() && Tracked(b, held, slots) && k < |held| && |data| <= held[k].size
    modifies b.arena
    ensures b.Valid() && Tracked(b, newHeld, slots)
    ensures newHeld == Reply(held, Store(k, data), NULL)
  {
    ghost var order, before := b.tree.order, b.arena[..];
    assert Backed(order, b.main, before, held[k], slots[k]);
    WriteBytes(b, held[k].pointer, data, held[k].size, slots[k]);
    newHeld := held[k := Held(held[k].pointer, held[k].size, data)];
    TracksWritten(order, b.main, b.User(), before, held, slots, k, newHeld[k], b.arena[..]);
  }

  lemma TracksWritten(order: nat, main: nat, user: set<nat>, bytes: seq<bv8>, held: seq<Held>, slots: seq<nat>,
                      k: nat, h: Held, after: seq<bv8>)
    requires Tracks(order, main, user, bytes, held, slots) && k < |slots|
    requires Backed(order, main, after, h, slots[k]) && AllKept(order, user - {slots[k]}, after, bytes)
    ensures Tracks(order, main, user, after, held[k := h], slots)
  {
    TracksOther(order, main, user, bytes, held, slots, k, h, slots[k], after);
    assert user - {slots[k]} + {slots[k]} == user && slots[k := slots[k]] == slots;
  }

  method WriteBytes(b: Buddy, pointer: nat, data: seq<bv8>, ghost size: nat, ghost slot: nat)
    requires b.Valid() && PointsTo(b, pointer, slot)
    requires |data| <= size && FitsDepth(b.tree.order, size, Depth(slot))
    modifies b.arena
    ensures b.Valid() && InTree(b.tree.order, slot) && StartsWith(b.tree.order, b.arena[..], slot, data)
    ensures AllKept(b.tree.order, b.User() - {slot}, b.arena[..], old(b.arena[..]))
  {
    ghost var before := b.arena[..];
    SlotInArena(b.tree.order, b.tree.live, b.virt, b.memorySize, slot);
    SlotIsDepthSize(b.tree.order, slot);
    CopyIn(b.arena, pointer - b.main, data);
    CopySparesOthers(b.tree.order, b.tree.live, b.virt, b.memorySize, slot, |data|, b.arena[..], before);
  }

  method CopyIn(bytes: array<bv8>, start: nat, data: seq<bv8>)
    requires start + |data| <= bytes.Length
    modifies bytes
    ensures bytes[start..start + |data|] == data
    ensures forall j | 0 <= j < bytes.Length && !(start <= j < start + |data|) :: bytes[j] == old(bytes[j])
  {
    for i := 0 to |data|
      invariant bytes[start..start + i] == data[..i]
      invariant forall j | 0 <= j < bytes.Length && !(start <= j < start + i) :: bytes[j] == old(bytes[j])
    {
      bytes[start + i] := data[i];
      assert bytes[start..start + i + 1] == bytes[start..start + i] + [data[i]];
    }
  }

  lemma CopySparesOthers(order: nat, live: set<nat>, virt: set<nat>, memorySize: nat, slot: nat, n: nat,
                         after: seq<bv8>, before: seq<bv8>)
    requires Arena(order, live, virt, memorySize) && memorySize <= |before| == |after|
    requires slot in live && InTree(order, slot) && n <= SlotSize(order, slot)
    requires var lo := SlotOffset(order, slot);
             forall j | 0 <= j < |before| && !(lo <= j < lo + n) :: after[j] == before[j]
    ensures AllKept(order, live - virt - {slot}, after, before)
  {
    forall u | u in live - virt - {slot} ensures InTree(order, u) && SameBytes(order, u, after, before) {
      SlotInArena(order, live, virt, memorySize, u);
      SlotsApart(order, live, u, slot);
    }
  }

  method Drop(b: Buddy, k: nat, held: seq<Held>, ghost slots: seq<nat>)
    returns (newHeld: seq<Held>, ghost newSlots: seq<nat>)
    requires b.Valid() && Tracked(b, held, slots) && k < |held|
    modifies b.tree`st, b.tree`live, b.tree.bits
    ensures b.Valid() && Tracked(b, newHeld, newSlots)
    ensures newHeld == Reply(held, Release(k), NULL)
    ensures Answered(b.tree.order, b.leftBias, b.main, b.memorySize, b.virt, old(b.tree.live), held, Release(k), NULL,
                     b.tree.live)
  {
    assert Backed(b.tree.order, b.main, b.arena[..], held[k], slots[k]);
    TracksLess(b.tree.order, b.main, b.User(), b.arena[..], held, slots, k);
    ghost var user := b.User();
    assert StartOf(b.tree.order, b.main, b.tree.live - b.virt, held[k].pointer, slots[k]);
    FreePointer(b, held[k].pointer, slots[k]);
    assert b.User() == user - {slots[k]};
    newHeld, newSlots := Without(held, k), Without(slots, k);
  }

  /** Reallocation as a holder of a pointer sees it. */
  method ReallocPointer(b: Buddy, pointer: nat, size: nat, ghost slot: nat)
    returns (r: nat, ghost newSlot: nat)
    requires b.Valid() && PointsTo(b, pointer, slot)
    modifies b.tree`st, b.tree`live, b.tree.bits, b.arena
    ensures b.Valid() && InTree(b.tree.order, slot)
    ensures size == 0 ==> b.User() == old(b.User()) - {slot}
    ensures size != 0 && r == NULL ==> b.User() == old(b.User())
    ensures size == 0 || r == NULL ==> b.arena[..] == old(b.arena[..])
    ensures Regiven(b.tree.order, b.leftBias, b.main, b.memorySize, old(b.tree.live), slot, size, r, b.tree.live)
    ensures size != 0 && r != NULL ==>
              && InTree(b.tree.order, newSlot) && r == b.main + SlotOffset(b.tree.order, newSlot)
              && FitsDepth(b.tree.order, size, Depth(newSlot))
              && newSlot !in old(b.User()) - {slot}
              && b.User() == old(b.User()) - {slot} + {newSlot}
              && KeepsBytes(b.tree.order, slot, newSlot, b.arena[..], old(b.arena[..]))
              && AllKept(b.tree.order, old(b.User()) - {slot}, b.arena[..], old(b.arena[..]))
  {
    PointerIsLive(b, pointer, slot);
    ghost var order, live, before := b.tree.order, b.tree.live, b.arena[..];
    ghost var origin;
    var wild;
    r, origin, newSlot, wild := b.Realloc(pointer, size);
    ReallocatedSlots(order, b.leftBias, b.main, b.memorySize, live, b.virt, slot, pointer, size, newSlot, r,
                     b.tree.live, b.arena[..], before);
    OutcomeIsRegiven(order, b.leftBias, b.main, b.memorySize, live, b.virt, slot, pointer, size, newSlot, r,
                     b.tree.live, b.arena[..], before);
  }

  lemma OutcomeIsRegiven(order: nat, leftBias: bool, main: nat, memorySize: nat, live: set<nat>, virt: set<nat>,
                         origin: nat, address: nat, size: nat, slot: nat, r: nat, live': set<nat>,
                         after: seq<bv8>, before: seq<bv8>)
    requires origin in live && origin != 0 && address != 0 && InTree(order, origin)
    requires ReallocOutcome(order, leftBias, main, memorySize, live, virt, origin, address, size, slot, r, live',
                            after, before)
    requires address == main + SlotOffset(order, origin) && memorySize > 0
    ensures Regiven(order, leftBias, main, memorySize, live, origin, size, r, live')
  {
    assert live - {origin} + {origin} == live;
    if size != 0 && !(size > memorySize || NoRoom(order, live - {origin}, size)) {
      assert GivenSlot(order, leftBias, main, live - {origin}, size, r, live', slot);
    }
  }

  method Replace(b: Buddy, k: nat, size: nat, held: seq<Held>, ghost slots: seq<nat>)
    returns (r: nat, newHeld: seq<Held>, ghost newSlots: seq<nat>)
    requires b.Valid() && Tracked(b, held, slots) && k < |held|
    modifies b.tree`st, b.tree`live, b.tree.bits, b.arena
    ensures b.Valid() && Tracked(b, newHeld, newSlots)
    ensures newHeld == Reply(held, Resize(k, size), r)
    ensures Answered(b.tree.order, b.leftBias, b.main, b.memorySize, b.virt, old(b.tree.live), held, Resize(k, size), r,
                     b.tree.live)
  {
    ghost var order, user, before := b.tree.order, b.User(), b.arena[..];
    assert Backed(order, b.main, before, held[k], slots[k]);
    assert StartOf(order, b.main, b.tree.live - b.virt, held[k].pointer, slots[k]);
    ghost var slot;
    r, slot := ReallocPointer(b, held[k].pointer, size, slots[k]);
    newHeld, newSlots := held, slots;
    if size == 0 {
      TracksLess(order, b.main, user, before, held, slots, k);
      newHeld, newSlots := Without(held, k), Without(slots, k);
    } else if r != NULL {
      var h := Held(r, size, Cut(held[k].data, size));
      MovedStarts(order, b.main, before, b.arena[..], held[k], slots[k], h, slot);
      TracksOther(order, b.main, user, before, held, slots, k, h, slot, b.arena[..]);
      newHeld, newSlots := held[k := h], slots[k := slot];
    }
  }

  lemma AllVirtual(b: Buddy)
    requires b.Valid() && b.User() == {}
    ensures b.tree.live == b.virt
  {
    forall u | u in b.tree.live ensures u in b.virt {
      assert u !in b.User();
    }
  }

  /** One request, answered. */
  method Serve(b: Buddy, request: Request, held: seq<Held>, ghost slots: seq<nat>)
    returns (answer: nat, newHeld: seq<Held>, ghost newSlots: seq<nat>)
    requires b.Valid() && Tracked(b, held, slots)
    modifies b.tree`st, b.tree`live, b.tree.bits, b.arena
    ensures b.Valid() && Tracked(b, newHeld, newSlots)
    ensures newHeld == Reply(held, request, answer)
    ensures Answered(b.tree.order, b.leftBias, b.main, b.memorySize, b.virt, old(b.tree.live), held, request, answer,
                     b.tree.live)
  {
    answer, newHeld, newSlots := NULL, held, slots;
    match request {
      case Allocate(size) => answer, newHeld, newSlots := Append(b, size, held, slots);
      case Store(k, data) =>
        if k < |held| && |data| <= held[k].size {
          newHeld := Write(b, k, data, held, slots);
        }
      case Resize(k, size) =>
        if k < |held| {
          answer, newHeld, newSlots := Replace(b, k, size, held, slots);
        }
      case Release(k) =>
        if k < |held| {
          newHeld, newSlots := Drop(b, k, held, slots);
        }
    }
  }

  /** How the requests were answered, `marks` being the marked nodes before each and after the last. */
  ghost predicate AllAnswered(order: nat, leftBias: bool, main: nat, memorySize: nat, virt: set<nat>,
                              requests: seq<Request>, answers: seq<nat>, marks: seq<set<nat>>)
  {
    && |answers| == |requests| && |marks| == |requests| + 1
    && forall n | 0 <= n < |requests| ::
         AnsweredInTurn(order, leftBias, main, memorySize, virt, requests, answers, marks, n)
  }

  ghost predicate AnsweredInTurn(order: nat, leftBias: bool, main: nat, memorySize: nat, virt: set<nat>,
                                 requests: seq<Request>, answers: seq<nat>, marks: seq<set<nat>>, n: nat)
    requires |answers| == |requests| && |marks| == |requests| + 1 && n < |requests|
  {
    Answered(order, leftBias, main, memorySize, virt, marks[n], HeldAfter(requests[..n], answers[..n]), requests[n],
             answers[n], marks[n + 1])
  }

  /** The run so far, from the marks at its start to those now and what is held now. */
  ghost predicate RunSoFar(order: nat, leftBias: bool, main: nat, memorySize: nat, virt: set<nat>,
                           requests: seq<Request>, answers: seq<nat>, marks: seq<set<nat>>,
                           start: set<nat>, live: set<nat>, held: seq<Held>)
  {
    && AllAnswered(order, leftBias, main, memorySize, virt, requests, answers, marks)
    && marks[0] == start && marks[|requests|] == live
    && held == HeldAfter(requests, answers)
  }

  lemma AnsweredOn(order: nat, leftBias: bool, main: nat, memorySize: nat, virt: set<nat>, requests: seq<Request>,
                   answers: seq<nat>, marks: seq<set<nat>>, start: set<nat>, live: set<nat>, held: seq<Held>,
                   request: Request, r: nat, live': set<nat>)
    requires RunSoFar(order, leftBias, main, memorySize, virt, requests, answers, marks, start, live, held)
    requires Answered(order, leftBias, main, memorySize, virt, live, held, request, r, live')
    ensures RunSoFar(order, leftBias, main, memorySize, virt, requests + [request], answers + [r], marks + [live'],
                     start, live', Reply(held, request, r))
  {
    var requests', answers', marks' := requests + [request], answers + [r], marks + [live'];
    assert requests'[..|requests|] == requests && answers'[..|requests|] == answers;
    forall n | 0 <= n < |requests'|
      ensures AnsweredInTurn(order, leftBias, main, memorySize, virt, requests', answers', marks', n)
    {
      if n < |requests| {
        assert requests'[..n] == requests[..n] && answers'[..n] == answers[..n];
        assert AnsweredInTurn(order, leftBias, main, memorySize, virt, requests, answers, marks, n);
      }
    }
  }

  lemma AnsweredKeepsApart(order: nat, leftBias: bool, main: nat, memorySize: nat, virt: set<nat>, live: set<nat>,
                           held: seq<Held>, request: Request, r: nat, live': set<nat>)
    requires Antichain(order, live)
    requires Answered(order, leftBias, main, memorySize, virt, live, held, request, r, live')
    ensures Antichain(order, live')
  {
    match request {
      case Allocate(size) => GivenKeepsApart(order, leftBias, main, memorySize, live, size, r, live');
      case Resize(k, size) =>
        if k < |held| {
          var p :| && StartOf(order, main, live - virt, held[k].pointer, p)
                   && Regiven(order, leftBias, main, memorySize, live, p, size, r, live');
          RemovedIsFree(order, live, p);
          if size != 0 && !(size > memorySize || NoRoom(order, live - {p}, size)) {
            GivenKeepsApart(order, leftBias, main, memorySize, live - {p}, size, r, live');
          }
        }
      case Release(k) =>
        if k < |held| {
          var p :| StartOf(order, main, live - virt, held[k].pointer, p) && live' == live - {p};
          RemovedIsFree(order, live, p);
        }
      case Store(_, _) =>
    }
  }

  lemma GivenKeepsApart(order: nat, leftBias: bool, main: nat, memorySize: nat, live: set<nat>, size: nat, r: nat,
                        live': set<nat>)
    requires Antichain(order, live) && Given(order, leftBias, main, memorySize, live, size, r, live')
    ensures Antichain(order, live')
  {
    if !(size > memorySize || NoRoom(order, live, size)) {
      var p :| GivenSlot(order, leftBias, main, live, size, r, live', p);
      assert FreeAtDepth(order, live, Depth(p), p);
      AddedIsApart(order, live, p);
    }
  }

  /** From the same start the same requests have the same answers, pointer by pointer. */
  lemma {:induction false} RunOnce(order: nat, leftBias: bool, main: nat, memorySize: nat, virt: set<nat>,
                                   requests: seq<Request>, answers: seq<nat>, marks: seq<set<nat>>,
                                   answers': seq<nat>, marks': seq<set<nat>>, n: nat)
    requires AllAnswered(order, leftBias, main, memorySize, virt, requests, answers, marks)
    requires AllAnswered(order, leftBias, main, memorySize, virt, requests, answers', marks')
    requires marks[0] == marks'[0] && Antichain(order, marks[0]) && n <= |requests|
    ensures answers[..n] == answers'[..n] && marks[n] == marks'[n] && Antichain(order, marks[n])
    decreases n
  {
    if n > 0 {
      RunOnce(order, leftBias, main, memorySize, virt, requests, answers, marks, answers', marks', n - 1);
      assert AnsweredInTurn(order, leftBias, main, memorySize, virt, requests, answers, marks, n - 1);
      assert AnsweredInTurn(order, leftBias, main, memorySize, virt, requests, answers', marks', n - 1);
      var held := HeldAfter(requests[..n - 1], answers[..n - 1]);
      AnsweredOnce(order, leftBias, main, memorySize, virt, marks[n - 1], held, requests[n - 1],
                   answers[n - 1], marks[n], answers'[n - 1], marks'[n]);
      AnsweredKeepsApart(order, leftBias, main, memorySize, virt, marks[n - 1], held, requests[n - 1],
                         answers[n - 1], marks[n]);
      assert answers[..n] == answers[..n - 1] + [answers[n - 1]];
      assert answers'[..n] == answers'[..n - 1] + [answers'[n - 1]];
    }
  }

  /** One turn of a run. */
  method ServeNext(b: Buddy, requests: seq<Request>, n: nat, answers: seq<nat>, held: seq<Held>,
                   ghost slots: seq<nat>, ghost marks: seq<set<nat>>, ghost start: set<nat>)
    returns (newAnswers: seq<nat>, newHeld: seq<Held>, ghost newSlots: seq<nat>, ghost newMarks: seq<set<nat>>)
    requires b.Valid() && Tracked(b, held, slots) && n < |requests|
    requires RunSoFar(b.tree.order, b.leftBias, b.main, b.memorySize, b.virt, requests[..n], answers, marks, start,
                      b.tree.live, held)
    modifies b.tree`st, b.tree`live, b.tree.bits, b.arena
    ensures b.Valid() && Tracked(b, newHeld, newSlots)
    ensures RunSoFar(b.tree.order, b.leftBias, b.main, b.memorySize, b.virt, requests[..n + 1], newAnswers, newMarks,
                     start, b.tree.live, newHeld)
  {
    ghost var live := b.tree.live;
    var answer;
    answer, newHeld, newSlots := Serve(b, requests[n], held, slots);
    AnsweredOn(b.tree.order, b.leftBias, b.main, b.memorySize, b.virt, requests[..n], answers, marks, start, live, held,
               requests[n], answer, b.tree.live);
    assert requests[..n] + [requests[n]] == requests[..n + 1];
    newAnswers, newMarks := answers + [answer], marks + [b.tree.live];
  }

  /**
   Any run of requests: what is held afterwards is what the requests and their answers make of it, and
   exactly what is handed out; null is answered exactly when there is no room; every block still
   starts with what was written to it, cut to the sizes it has had since; and when nothing is held
   any more every status is as it was before the run.
   */
  method Run(b: Buddy, requests: seq<Request>)
    returns (answers: seq<nat>, held: seq<Held>, ghost slots: seq<nat>, ghost marks: seq<set<nat>>)
    requires b.Valid() && b.User() == {}
    modifies b.tree`st, b.tree`live, b.tree.bits, b.arena
    ensures b.Valid() && Tracked(b, held, slots)
    ensures RunSoFar(b.tree.order, b.leftBias, b.main, b.memorySize, b.virt, requests, answers, marks,
                     old(b.tree.live), b.tree.live, held)
    ensures held == [] ==> b.tree.live == old(b.tree.live) && b.tree.st == old(b.tree.st)
  {
    ghost var order, live, st := b.tree.order, b.tree.live, b.tree.st;
    ghost var virt, leftBias, main, memorySize := b.virt, b.leftBias, b.main, b.memorySize;
    assert live == b.virt by { AllVirtual(b); }
    answers, held, slots, marks := [], [], [], [live];
    for n := 0 to |requests|
      invariant b.Valid() && Tracked(b, held, slots)
      invariant RunSoFar(order, leftBias, main, memorySize, virt, requests[..n], answers, marks, live, b.tree.live,
                         held)
    {
      answers, held, slots, marks := ServeNext(b, requests, n, answers, held, slots, marks, live);
    }
    assert requests[..|requests|] == requests;
    if held == [] {
      AllVirtual(b);
      ConsistentUnique(order, live, st, b.tree.st);
    }
  }
}

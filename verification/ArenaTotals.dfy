/** Conservation of the arena's bytes, and the slots handed out in address order. */
module ArenaTotals {
  import opened TreeShape
  import opened TreeStatus
  import opened TreeTotals
  import opened TreeWalk
  import opened Slots
  import opened ArenaSizes

  ghost predicate NoneAbove(virt: set<nat>, i: nat) {
    forall v {:trigger IsAnc(v, i)} | v in virt && IsAnc(v, i) :: v == i
  }

  /** The leaves of lo..hi-1 that are not before the limit. */
  ghost function TailPart(lo: nat, hi: nat, limit: nat): nat
    requires lo <= hi
  {
    if hi <= limit then 0 else if lo <= limit then hi - limit else hi - lo
  }

  /** The virtual nodes take exactly the leaves of the tail. */
  lemma {:induction false} TakenOfTail(order: nat, virt: set<nat>, i: nat, h: nat, limit: nat)
    requires CoversTail(order, virt, limit) && InTree(order, i) && h == Height(order, i)
    requires NoneAbove(virt, i)
    ensures First(order, i) <= Behind(order, i)
    ensures TakenLeaves(virt, i, h) == TailPart(First(order, i), Behind(order, i), limit)
    decreases h
  {
    SpanBounds(order, i);
    if i in virt {
      assert First(order, i) >= limit;
    } else if h == 1 {
      assert limit <= i ==> TailLeaf(order, limit, i) && Covered(virt, i);
    } else {
      SplitSpan(order, i);
      ChildDepth(i);
      NoneAboveChildren(virt, i);
      TakenOfTail(order, virt, 2 * i, h - 1, limit);
      TakenOfTail(order, virt, 2 * i + 1, h - 1, limit);
    }
  }

  lemma NoneAboveChildren(virt: set<nat>, i: nat)
    requires i >= 1 && i !in virt && NoneAbove(virt, i)
    ensures NoneAbove(virt, 2 * i) && NoneAbove(virt, 2 * i + 1)
  {
    ChildDepth(i);
    forall v, c | v in virt && (c == 2 * i || c == 2 * i + 1) ensures IsAnc(v, c) ==> v == c {
      assert c / 2 == i;
      assert IsAnc(v, c) ==> v == c || IsAnc(v, i);
    }
  }

  /** Free leaves and leaves handed out make up the arena; the virtual ones count for neither. */
  lemma Conservation(order: nat, live: set<nat>, virt: set<nat>, st: map<nat, nat>, memorySize: nat)
    requires Arena(order, live, virt, memorySize) && Consistent(order, live, st)
    requires forall a | a in live - virt :: InTree(order, a)
    ensures InTree(order, 1) && Height(order, 1) == order
    ensures ALIGN * FreeLeaves(order, st, 1, order) + ALIGN * SumLeaves(order, live - virt) == memorySize
  {
    RootOfTree(order);
    var user := live - virt;
    var limit := LimitLeaf(order, memorySize);
    assert live == user + virt;
    FreePlusTaken(order, live, st, 1, order);
    TakenUnion(order, user, virt, 1, order);
    SubAntichain(order, live, user);
    TakenIsSum(order, user);
    forall v | v in virt && IsAnc(v, 1) ensures v == 1 {
      AncDepth(v, 1);
      assert InTree(order, v);
    }
    TakenOfTail(order, virt, 1, order, limit);
    FirstLeafProduct(1, order);
    FirstLeafProduct(2, order);
  }

  /** The same, for the subtrees a walk from the root has to enter. */
  lemma ConservationOfWalk(order: nat, live: set<nat>, virt: set<nat>, st: map<nat, nat>,
                           memorySize: nat) returns (todo: seq<nat>)
    requires Arena(order, live, virt, memorySize) && Consistent(order, live, st)
    requires forall a | a in live - virt :: InTree(order, a)
    ensures AllInTree(order, todo) && Arrived(order, Pos(1, 1), todo)
    ensures ALIGN * FreeOf(order, st, todo) + ALIGN * SumLeaves(order, live - virt) == memorySize
  {
    todo := [1];
    RootOfTree(order);
    FreeOfRoot(order, st);
    Conservation(order, live, virt, st, memorySize);
  }

  lemma SubAntichain(order: nat, live: set<nat>, some: set<nat>)
    requires Antichain(order, live) && some <= live
    ensures Antichain(order, some)
  {
  }

  // ----- the slots handed out come first in the list of blocks -----

  lemma {:induction false} UserBlocksFirst(order: nat, live: set<nat>, virt: set<nat>, limit: nat,
                                           i: nat, h: nat)
    requires Antichain(order, live) && virt <= live && CoversTail(order, virt, limit)
    requires i >= 1 && Depth(i) + h == order + 1
    ensures Blocks(live, i, h) == Blocks(live - virt, i, h) + Blocks(virt, i, h)
    decreases h
  {
    var user := live - virt;
    if h > 0 {
      if i in user {
        NoBlocksUnder(order, live, virt, i, h);
      } else if i in virt {
        NoBlocksUnder(order, live, user, i, h);
      } else {
        ChildDepth(i);
        UserBlocksFirst(order, live, virt, limit, 2 * i, h - 1);
        UserBlocksFirst(order, live, virt, limit, 2 * i + 1, h - 1);
        if h > 1 {
          UsersLeftOrVirtualsRight(order, live, virt, limit, i, h);
        }
      }
    }
  }

  lemma NoBlocksUnder(order: nat, live: set<nat>, others: set<nat>, i: nat, h: nat)
    requires i >= 1 && h >= 1 && Antichain(order, live) && i in live && others <= live - {i}
    ensures Blocks(others, i, h) == []
  {
    SubAntichain(order, live, others);
    if Blocks(others, i, h) != [] {
      BlocksAreMarked(order, others, i, h, Blocks(others, i, h)[0]);
    }
  }

  lemma InTail(order: nat, virt: set<nat>, limit: nat, v: nat)
    requires CoversTail(order, virt, limit) && v in virt
    ensures InTree(order, v) && limit <= First(order, v)
  {
    assert InTree(order, v);
    assert limit <= First(order, v);
  }

  lemma VirtualBehindUser(order: nat, live: set<nat>, virt: set<nat>, limit: nat, u: nat, v: nat)
    requires Antichain(order, live) && virt <= live && CoversTail(order, virt, limit)
    requires u in live - virt && v in virt
    ensures InTree(order, u) && InTree(order, v)
    ensures First(order, u) < Behind(order, u) <= First(order, v) < Behind(order, v)
  {
    BeforeTail(order, live, virt, limit, u);
    InTail(order, virt, limit, v);
    SpanBounds(order, u);
    SpanBounds(order, v);
  }

  /** No virtual node on the left while a slot is handed out on the right. */
  lemma UsersLeftOrVirtualsRight(order: nat, live: set<nat>, virt: set<nat>, limit: nat, i: nat, h: nat)
    requires Antichain(order, live) && virt <= live && CoversTail(order, virt, limit)
    requires i >= 1 && Depth(i) + h == order + 1 && h > 1
    ensures Blocks(virt, 2 * i, h - 1) == [] || Blocks(live - virt, 2 * i + 1, h - 1) == []
  {
    ChildDepth(i);
    var user := live - virt;
    var left, right := Blocks(virt, 2 * i, h - 1), Blocks(user, 2 * i + 1, h - 1);
    SubAntichain(order, live, virt);
    SubAntichain(order, live, user);
    if left != [] && right != [] {
      var v, u := left[0], right[0];
      BlocksAreMarked(order, virt, 2 * i, h - 1, v);
      BlocksAreMarked(order, user, 2 * i + 1, h - 1, u);
      BlockWithin(order, virt, 2 * i, h - 1, v);
      BlockWithin(order, user, 2 * i + 1, h - 1, u);
      VirtualBehindUser(order, live, virt, limit, u, v);
    }
  }

  /** A block under a node lies within the node's span. */
  lemma BlockWithin(order: nat, live: set<nat>, i: nat, h: nat, x: nat)
    requires i >= 1 && h >= 1 && Depth(i) + h == order + 1 && x in Blocks(live, i, h)
    ensures InTree(order, x) && FirstLeaf(i, h) <= First(order, x) && Behind(order, x) <= FirstLeaf(i + 1, h)
  {
    BlocksInOrder(order, live, i, h);
    var k :| 0 <= k < |Blocks(live, i, h)| && Blocks(live, i, h)[k] == x;
  }

  // ----- what a callback is shown -----

  /** The address and size of each node of a list. */
  ghost function Calls(order: nat, main: nat, nodes: seq<nat>): (calls: seq<(nat, nat)>)
    requires AllInTree(order, nodes)
    ensures |calls| == |nodes|
  {
    if nodes == [] then []
    else
      var (before, last) := (nodes[..|nodes| - 1], nodes[|nodes| - 1]);
      Calls(order, main, before) + [(main + SlotOffset(order, last), SlotSize(order, last))]
  }

  /** What a callback has made of its context after some calls; each call returns it and an answer. */
  ghost function ContextAfter<C>(callback: (C, nat, nat) -> (C, nat), context: C, made: seq<(nat, nat)>): C {
    if made == [] then context
    else
      var (address, size) := made[|made| - 1];
      callback(ContextAfter(callback, context, made[..|made| - 1]), address, size).0
  }

  /** What the callback answers to a call after the calls made. */
  ghost function Answer<C>(callback: (C, nat, nat) -> (C, nat), context: C, made: seq<(nat, nat)>,
                           call: (nat, nat)): nat
  {
    callback(ContextAfter(callback, context, made), call.0, call.1).1
  }

  ghost predicate Silent<C>(callback: (C, nat, nat) -> (C, nat), context: C, made: seq<(nat, nat)>) {
    made == []
    || (var before := made[..|made| - 1];
        Silent(callback, context, before) && Answer(callback, context, before, made[|made| - 1]) == 0)
  }

  /** The calls were made in order up to the first one that answered, and that is the result. */
  ghost predicate StopsAtFirstAnswer<C>(callback: (C, nat, nat) -> (C, nat), context: C, all: seq<(nat, nat)>,
                                        made: seq<(nat, nat)>, result: nat, final: C)
  {
    && made <= all && final == ContextAfter(callback, context, made)
    && (result == 0 ==> made == all && Silent(callback, context, made))
    && (result != 0 ==>
          && made != []
          && Silent(callback, context, made[..|made| - 1])
          && Answer(callback, context, made[..|made| - 1], made[|made| - 1]) == result)
  }

  lemma OneMoreCall<C>(callback: (C, nat, nat) -> (C, nat), context: C, made: seq<(nat, nat)>, call: (nat, nat))
    requires Silent(callback, context, made)
    ensures ContextAfter(callback, context, made + [call])
         == callback(ContextAfter(callback, context, made), call.0, call.1).0
    ensures Answer(callback, context, made, call) == 0 ==> Silent(callback, context, made + [call])
  {
    var more := made + [call];
    assert more[..|more| - 1] == made;
  }

  // ----- how far a walk over the blocks has come -----

  /** Listed so far and still to come are, in order, the slots handed out and then the virtual ones. */
  ghost predicate Halfway(users: seq<nat>, virtuals: seq<nat>, virt: set<nat>, listed: seq<nat>, rest: seq<nat>) {
    && users + virtuals == listed + rest
    && (forall x | x in users :: x !in virt)
    && (forall x | x in virtuals :: x in virt)
    && (forall x | x in listed :: x !in virt)
  }

  lemma ListedFirst(users: seq<nat>, virtuals: seq<nat>, virt: set<nat>, listed: seq<nat>, rest: seq<nat>)
    requires Halfway(users, virtuals, virt, listed, rest)
    ensures listed <= users
    ensures rest == [] || rest[0] in virt ==> listed == users
  {
    var all := users + virtuals;
    assert forall k | 0 <= k < |users| :: all[k] == users[k] && users[k] in users;
    assert forall k | |users| <= k < |all| :: all[k] == virtuals[k - |users|] && virtuals[k - |users|] in virtuals;
    assert forall k | 0 <= k < |listed| :: all[k] == listed[k] && listed[k] in listed;
    assert rest != [] ==> all[|listed|] == rest[0];
    assert |listed| <= |users| by {
      assert |users| < |all| ==> all[|users|] in virt;
    }
  }

  lemma ListOne(users: seq<nat>, virtuals: seq<nat>, virt: set<nat>, listed: seq<nat>, i: nat, rest: seq<nat>)
    requires Halfway(users, virtuals, virt, listed, [i] + rest) && i !in virt
    ensures Halfway(users, virtuals, virt, listed + [i], rest)
  {
    assert listed + ([i] + rest) == listed + [i] + rest;
  }

  lemma {:induction false} CallsOfPrefix(order: nat, main: nat, nodes: seq<nat>, all: seq<nat>)
    requires AllInTree(order, all) && nodes <= all
    ensures AllInTree(order, nodes) && Calls(order, main, nodes) <= Calls(order, main, all)
    decreases |all|
  {
    assert forall k | 0 <= k < |nodes| :: nodes[k] == all[k];
    if |nodes| < |all| {
      CallsOfPrefix(order, main, nodes, all[..|all| - 1]);
    } else {
      assert nodes == all;
    }
  }

  lemma CallsAppend(order: nat, main: nat, nodes: seq<nat>, i: nat)
    requires AllInTree(order, nodes) && InTree(order, i)
    ensures AllInTree(order, nodes + [i])
    ensures Calls(order, main, nodes + [i])
         == Calls(order, main, nodes) + [(main + SlotOffset(order, i), SlotSize(order, i))]
  {
    assert (nodes + [i])[..|nodes + [i]| - 1] == nodes;
  }

  /** The invariant of a walk whose callback has been shown the listed slots and never answered. */
  ghost predicate Shown<C>(callback: (C, nat, nat) -> (C, nat), context: C, now: C, order: nat, main: nat,
                           users: seq<nat>, virtuals: seq<nat>, virt: set<nat>, listed: seq<nat>,
                           rest: seq<nat>, visited: seq<(nat, nat)>)
  {
    && Halfway(users, virtuals, virt, listed, rest)
    && AllInTree(order, users) && AllInTree(order, listed)
    && visited == Calls(order, main, listed)
    && now == ContextAfter(callback, context, visited) && Silent(callback, context, visited)
  }

  lemma ShownAll<C>(callback: (C, nat, nat) -> (C, nat), context: C, now: C, order: nat, main: nat,
                    users: seq<nat>, virtuals: seq<nat>, virt: set<nat>, listed: seq<nat>,
                    rest: seq<nat>, visited: seq<(nat, nat)>)
    requires Shown(callback, context, now, order, main, users, virtuals, virt, listed, rest, visited)
    requires rest == [] || rest[0] in virt
    ensures StopsAtFirstAnswer(callback, context, Calls(order, main, users), visited, 0, now)
  {
    ListedFirst(users, virtuals, virt, listed, rest);
  }

  lemma ShowOne<C>(callback: (C, nat, nat) -> (C, nat), context: C, now: C, order: nat, main: nat,
                   users: seq<nat>, virtuals: seq<nat>, virt: set<nat>, listed: seq<nat>, i: nat,
                   rest: seq<nat>, visited: seq<(nat, nat)>,
                   call: (nat, nat), next: C, answer: nat, seen: seq<(nat, nat)>, nowListed: seq<nat>)
    requires Shown(callback, context, now, order, main, users, virtuals, virt, listed, [i] + rest, visited)
    requires i !in virt && InTree(order, i)
    requires call == (main + SlotOffset(order, i), SlotSize(order, i))
    requires (next, answer) == callback(now, call.0, call.1)
    requires seen == visited + [call] && nowListed == listed + [i]
    ensures answer == 0 ==>
              Shown(callback, context, next, order, main, users, virtuals, virt, nowListed, rest, seen)
    ensures answer != 0 ==>
              StopsAtFirstAnswer(callback, context, Calls(order, main, users), seen, answer, next)
  {
    ListOne(users, virtuals, virt, listed, i, rest);
    ListedFirst(users, virtuals, virt, nowListed, rest);
    CallsAppend(order, main, listed, i);
    CallsOfPrefix(order, main, nowListed, users);
    OneMoreCall(callback, context, visited, call);
    assert seen[..|seen| - 1] == visited;
  }

  /** What the walk makes of one marked node: it stops at a virtual slot and at an answer. */
  method Record<C>(ghost callback: (C, nat, nat) -> (C, nat), ghost context: C, ghost now: C,
                   ghost order: nat, ghost main: nat, ghost users: seq<nat>, ghost virtuals: seq<nat>,
                   ghost virt: set<nat>, ghost listed: seq<nat>, ghost i: nat, ghost rest: seq<nat>,
                   visited: seq<(nat, nat)>, virtual: bool, call: (nat, nat), ghost next: C, answer: nat)
    returns (stop: bool, seen: seq<(nat, nat)>, ghost nowListed: seq<nat>)
    requires Shown(callback, context, now, order, main, users, virtuals, virt, listed, [i] + rest, visited)
    requires InTree(order, i) && (virtual <==> i in virt)
    requires call == (main + SlotOffset(order, i), SlotSize(order, i))
    requires (next, answer) == if virtual then (now, 0) else callback(now, call.0, call.1)
    ensures !stop ==>
              Shown(callback, context, next, order, main, users, virtuals, virt, nowListed, rest, seen)
    ensures stop ==>
              StopsAtFirstAnswer(callback, context, Calls(order, main, users), seen, answer, next)
  {
    seen, nowListed, stop := visited, listed, true;
    if virtual {
      ShownAll(callback, context, now, order, main, users, virtuals, virt, listed, [i] + rest, visited);
    } else {
      seen, nowListed, stop := visited + [call], listed + [i], answer != 0;
      ShowOne(callback, context, now, order, main, users, virtuals, virt, listed, i, rest, visited,
              call, next, answer, seen, nowListed);
    }
  }

  lemma BlocksInTree(order: nat, live: set<nat>, virt: set<nat>, memorySize: nat)
    requires Arena(order, live, virt, memorySize)
    ensures AllInTree(order, Blocks(live - virt, 1, order))
  {
    RootOfTree(order);
    BlocksInOrder(order, live - virt, 1, order);
  }

  /** The walk may start at the root: everything is still to come. */
  lemma NothingListed(order: nat, live: set<nat>, virt: set<nat>, memorySize: nat)
    returns (todo: seq<nat>, users: seq<nat>, virtuals: seq<nat>)
    requires Arena(order, live, virt, memorySize)
    ensures AllInTree(order, todo) && Arrived(order, Pos(1, 1), todo)
    ensures users == Blocks(live - virt, 1, order) && AllInTree(order, users)
    ensures Halfway(users, virtuals, virt, [], BlocksOf(order, live, todo))
  {
    todo := [1];
    RootOfTree(order);
    BlocksOfRoot(order, live);
    users, virtuals := Blocks(live - virt, 1, order), Blocks(virt, 1, order);
    UserBlocksFirst(order, live, virt, LimitLeaf(order, memorySize), 1, order);
    SubAntichain(order, live, virt);
    SubAntichain(order, live, live - virt);
    forall x ensures (x in users ==> x !in virt) && (x in virtuals ==> x in virt) {
      BlocksAreMarked(order, virt, 1, order, x);
      BlocksAreMarked(order, live - virt, 1, order, x);
    }
    BlocksInOrder(order, live - virt, 1, order);
  }
}

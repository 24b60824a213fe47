/**
 The 4 x 21 running queues and the sleeping queue of src/Core.cpp, all of them ArrayLists. Ghost
 fields say what each holds, so that the scheduler can be reasoned about on values.
 */
module Queues {
  import opened Sorting
  import opened Sequences
  import opened ArrayList

  const CORES: nat := 4
  const PRIORITIES: nat := 21

  /** Queue 21 * core + priority is that core's running queue; the last one is the sleeping queue. */
  const SLEEPING: nat := 84
  const QUEUES: nat := 85

  type TaskId = int

  function RunningQueue(core: nat, priority: nat): (q: nat)
    requires core < CORES && priority < PRIORITIES
    ensures q < SLEEPING && q / PRIORITIES == core && q % PRIORITIES == priority
  {
    21 * core + priority
  }

  class QueueSet {
    const lists: seq<ArrayList>
    ghost var stores: seq<array<int>>
    ghost var contents: seq<seq<TaskId>>
    ghost var sorted: seq<bool>
    ghost var repr: set<object>

    ghost predicate Sizes()
      reads this
    {
      |lists| == |stores| == |contents| == |sorted| == QUEUES
    }

    ghost predicate ListOk(q: nat)
      requires Sizes() && q < QUEUES
      reads this, repr
    {
      && lists[q] in repr && stores[q] in repr
      && lists[q].store == stores[q]
      && lists[q].Valid()
      && lists[q].Contents() == contents[q] && lists[q].sorted == sorted[q]
    }

    ghost predicate Valid()
      reads this, repr
    {
      && this !in repr && Sizes()
      && (forall q | 0 <= q < QUEUES :: ListOk(q))
      && (forall q, r | 0 <= q < r < QUEUES :: lists[q] != lists[r])
      && (forall q, r | 0 <= q < r < QUEUES :: stores[q] != stores[r])
    }

    constructor ()
      ensures Valid() && fresh(repr)
      ensures contents == seq(QUEUES, _ => [])
    {
      var ls: seq<ArrayList> := [];
      ghost var arrays: seq<array<int>> := [];
      ghost var objects: set<object> := {};
      while |ls| < QUEUES
        invariant |ls| == |arrays| <= QUEUES
        invariant fresh(objects)
        invariant forall q | 0 <= q < |ls| ::
                    && ls[q] in objects && arrays[q] in objects && ls[q].store == arrays[q]
                    && ls[q].Valid() && ls[q].Contents() == [] && !ls[q].sorted
        invariant forall q, r | 0 <= q < r < |ls| :: ls[q] != ls[r]
        invariant forall q, r | 0 <= q < r < |ls| :: arrays[q] != arrays[r]
        decreases QUEUES - |ls|
      {
        var l := new ArrayList(false);
        ls, arrays := ls + [l], arrays + [l.store];
        objects := objects + {l, l.store};
      }
      lists := ls;
      stores, contents, sorted := arrays, seq(QUEUES, _ => []), seq(QUEUES, _ => false);
      repr := objects;
    }

    method Size(q: nat) returns (n: nat)
      requires Valid() && q < QUEUES
      ensures n == |contents[q]|
    {
      assert ListOk(q);
      lists[q].Roomy();
      n := lists[q].size;
    }

    method Get(q: nat, k: nat) returns (t: TaskId)
      requires Valid() && q < QUEUES && k < |contents[q]|
      ensures t == contents[q][k]
    {
      assert ListOk(q);
      lists[q].Roomy();
      t := lists[q].store[k];
    }

    method Add(q: nat, t: TaskId)
      requires Valid() && q < QUEUES
      modifies this, repr
      ensures Valid() && fresh(repr - old(repr))
      ensures contents == old(contents)[q := old(contents)[q] + [t]]
      ensures sorted == old(sorted)[q := false]
    {
      assert ListOk(q);
      lists[q].Add(t);
      stores := stores[q := lists[q].store];
      repr := repr + {lists[q].store};
      contents := contents[q := contents[q] + [t]];
      sorted := sorted[q := false];
      forall r | 0 <= r < QUEUES && r != q ensures ListOk(r) {
        assert old(ListOk(r));
      }
    }

    method Sort(q: nat)
      requires Valid() && q < QUEUES
      modifies this, repr
      ensures Valid() && fresh(repr - old(repr))
      ensures contents == old(contents)[q := contents[q]]
      ensures Sorted(contents[q]) && multiset(contents[q]) == multiset(old(contents)[q])
      ensures sorted == old(sorted)[q := true]
    {
      assert ListOk(q);
      lists[q].QuickSort();
      contents := contents[q := lists[q].Contents()];
      sorted := sorted[q := true];
      forall r | 0 <= r < QUEUES && r != q ensures ListOk(r) {
        assert old(ListOk(r));
      }
    }

    lemma SortedContents(q: nat)
      requires Valid() && q < QUEUES && sorted[q]
      ensures Sorted(contents[q])
    {
      assert ListOk(q);
    }

    /** A task that is in a sorted queue is found and taken out. */
    method Remove(q: nat, t: TaskId) returns (found: bool, ghost index: nat)
      requires Valid() && q < QUEUES && sorted[q] && t in contents[q]
      modifies this, repr
      ensures Valid() && fresh(repr - old(repr))
      ensures found && index < |old(contents)[q]| && old(contents)[q][index] == t
      ensures contents == old(contents)[q := Without(old(contents)[q], index)]
      ensures sorted == old(sorted)
    {
      assert ListOk(q);
      ghost var at;
      found, at := lists[q].RemoveElement(t);
      index := at;
      contents := contents[q := Without(contents[q], index)];
      forall r | 0 <= r < QUEUES && r != q ensures ListOk(r) {
        assert old(ListOk(r));
      }
    }
  }
}

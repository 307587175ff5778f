/**
  The thread arena: a vector of slots whose empty slots are linked into a
  free list, so that a thread's index is its id for as long as it lives.
 */
module ThreadArena {
  import opened Options
  import opened SchedView
  import opened Sequences

  datatype Slot = Empty(nextFree: Option<nat>) | Occupied(task: Thread)

  /** The live threads by id. */
  function Tasks(slots: seq<Slot>): map<nat, Thread> {
    map i: nat | 0 <= i < |slots| && slots[i].Occupied? :: slots[i].task
  }

  predicate Full(slots: seq<Slot>) {
    forall i :: 0 <= i < |slots| ==> slots[i].Occupied?
  }

  function Link(free: seq<nat>, i: nat): Option<nat> {
    if i < |free| then Some(free[i]) else None
  }

  /** `free` is the list that starts at `head`, and it holds exactly the empty slots. */
  ghost predicate FreeSlots(slots: seq<Slot>, head: Option<nat>, free: seq<nat>) {
    && NoDup(free)
    && head == Link(free, 0)
    && (forall i :: 0 <= i < |free| ==> FreeAt(slots, free, i))
    && (forall i :: 0 <= i < |slots| && slots[i].Empty? ==> i in free)
  }

  /** Entry `i` of the list is an empty slot that points at the next one. */
  ghost predicate FreeAt(slots: seq<Slot>, free: seq<nat>, i: nat)
    requires i < |free|
  {
    free[i] < |slots| && slots[free[i]] == Empty(Link(free, i + 1))
  }

  lemma TakeFree(slots: seq<Slot>, head: Option<nat>, free: seq<nat>, t: Thread)
    requires FreeSlots(slots, head, free) && free != []
    ensures free[0] < |slots| && slots[free[0]].Empty?
    ensures FreeSlots(slots[free[0] := Occupied(t)], slots[free[0]].nextFree, free[1..])
  {
    assert FreeAt(slots, free, 0) && free == [free[0]] + free[1..];
    var slots', rest := slots[free[0] := Occupied(t)], free[1..];
    forall i | 0 <= i < |rest| ensures FreeAt(slots', rest, i) {
      assert FreeAt(slots, free, i + 1);
    }
  }

  lemma GiveFree(slots: seq<Slot>, head: Option<nat>, free: seq<nat>, id: nat)
    requires FreeSlots(slots, head, free) && id < |slots| && slots[id].Occupied?
    ensures FreeSlots(slots[id := Empty(head)], Some(id), [id] + free)
  {
    var free', slots' := [id] + free, slots[id := Empty(head)];
    forall i | 0 <= i < |free'| ensures FreeAt(slots', free', i) {
      if i > 0 {
        assert free'[i] == free[i - 1] && FreeAt(slots, free, i - 1);
      }
    }
    forall i | 0 <= i < |free| ensures free[i] != id {
      assert FreeAt(slots, free, i);
    }
    forall i | 0 <= i < |slots'| && slots'[i].Empty? ensures i in free' {
      assert i == id || slots[i].Empty?;
    }
  }

  lemma GrowFree(slots: seq<Slot>, free: seq<nat>, t: Thread)
    requires FreeSlots(slots, None, free)
    ensures FreeSlots(slots + [Occupied(t)], None, free) && Full(slots)
    ensures |slots| !in Tasks(slots) && Tasks(slots + [Occupied(t)]) == Tasks(slots)[|slots| := t]
  {
    var slots' := slots + [Occupied(t)];
    assert free == [];
    assert forall i :: 0 <= i < |slots| ==> slots'[i] == slots[i];
  }

  lemma TasksPut(slots: seq<Slot>, id: nat, t: Thread)
    requires id < |slots|
    ensures Tasks(slots[id := Occupied(t)]) == Tasks(slots)[id := t]
  {
  }

  class ThreadArena {
    var slots: seq<Slot>
    var freeHead: Option<nat>
    ghost var free: seq<nat>

    ghost predicate Valid()
      reads this
    {
      FreeSlots(slots, freeHead, free)
    }

    constructor ()
      ensures Valid() && Tasks(slots) == map[] && slots == []
    {
      slots, freeHead, free := [], None, [];
    }

    method IsEmpty() returns (b: bool)
      requires Valid()
      ensures b ==> Tasks(slots) == map[]
      ensures b <==> |slots| == 0
    {
      b := |slots| == 0;
    }

    /** An id is never handed out while its slot is occupied, and the vector
        grows only when no slot is empty. */
    method Insert(task: Thread) returns (id: nat)
      requires Valid()
      modifies this
      ensures Valid() && id !in Tasks(old(slots)) && Tasks(slots) == Tasks(old(slots))[id := task]
      ensures |slots| == if Full(old(slots)) then |old(slots)| + 1 else |old(slots)|
    {
      match freeHead
      case Some(idx) =>
        TakeFree(slots, freeHead, free, task);
        TasksPut(slots, idx, task);
        assert !slots[idx].Occupied?;
        freeHead := slots[idx].nextFree;
        slots := slots[idx := Occupied(task)];
        free := free[1..];
        id := idx;
      case None =>
        GrowFree(slots, free, task);
        id := |slots|;
        slots := slots + [Occupied(task)];
    }

    /** The thread and its id, or nothing at all for an id that is not live. */
    method Remove(id: nat) returns (r: Option<Thread>)
      requires Valid()
      modifies this
      ensures Valid() && Tasks(slots) == Tasks(old(slots)) - {id} && |slots| == |old(slots)|
      ensures r == if id in Tasks(old(slots)) then Some(Tasks(old(slots))[id]) else None
    {
      if id >= |slots| {
        return None;
      }
      var slot := slots[id];
      slots := slots[id := Empty(freeHead)];
      match slot
      case Occupied(task) =>
        GiveFree(old(slots), freeHead, free, id);
        freeHead := Some(id);
        free := [id] + free;
        r := Some(task);
      case Empty(_) =>
        slots := slots[id := slot];
        assert slots == old(slots);
        r := None;
    }

    method Get(id: nat) returns (r: Option<Thread>)
      requires Valid()
      ensures r == if id in Tasks(slots) then Some(Tasks(slots)[id]) else None
    {
      r := if id < |slots| && slots[id].Occupied? then Some(slots[id].task) else None;
    }

    /** A write through the reference that get_mut returns. */
    method Put(id: nat, task: Thread)
      requires Valid() && id in Tasks(slots)
      modifies this`slots
      ensures Valid() && Tasks(slots) == Tasks(old(slots))[id := task] && |slots| == |old(slots)|
    {
      slots := slots[id := Occupied(task)];
      forall i | 0 <= i < |free| ensures FreeAt(slots, free, i) {
        assert FreeAt(old(slots), free, i);
      }
      assert forall i :: 0 <= i < |slots| && slots[i].Empty? ==> old(slots)[i].Empty?;
    }
  }
}

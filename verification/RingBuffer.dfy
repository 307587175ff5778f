/**
  The single-producer single-consumer ring buffer, with the two sides
  interleaved at every load, slot access and index store.
 */
module RingBuffer {
  import opened Options

  /** The producer: idle, or in push with what it has read so far. */
  datatype Producer<T> =
    | PIdle
    | PHead(item: T, head: nat)                         // head is loaded
    | PTail(item: T, head: nat, tail: nat, seen: nat)   // and tail, when `seen` items had been popped
    | PWritten(item: T, head: nat)                      // the slot is written

  datatype Consumer<T> =
    | CIdle
    | CTail(tail: nat)                                  // tail is loaded
    | CHead(tail: nat, head: nat, seen: nat)            // and head, when `seen` items had been pushed
    | CTaken(tail: nat, item: Option<T>)                // the slot is taken
    | CCleared(tail: nat, item: Option<T>)              // and cleared once more

  datatype State<T> = State(
    buffer: seq<Option<T>>, head: nat, tail: nat, producer: Producer<T>, consumer: Consumer<T>,
    pushed: seq<T>,   // items whose push has stored the head
    popped: seq<T>)   // items whose pop has stored the tail

  datatype Step<T> =
    | CallPush(item: T) | LoadTail | WriteSlot | StoreHead
    | CallPop | LoadHead | TakeSlot | ClearSlot | StoreTail

  predicate Enabled<T>(s: State<T>, e: Step<T>) {
    match e
    case CallPush(_) => s.producer.PIdle?
    case LoadTail => s.producer.PHead?
    case WriteSlot => s.producer.PTail? && s.producer.head < |s.buffer|
    case StoreHead => s.producer.PWritten? && 0 < |s.buffer|
    case CallPop => s.consumer.CIdle?
    case LoadHead => s.consumer.CTail?
    case TakeSlot => s.consumer.CHead? && s.consumer.tail < |s.buffer|
    case ClearSlot => s.consumer.CTaken? && s.consumer.tail < |s.buffer|
    case StoreTail => s.consumer.CCleared? && 0 < |s.buffer|
  }

  function Do<T>(s: State<T>, e: Step<T>): State<T>
    requires Enabled(s, e)
  {
    var n := |s.buffer|;
    match e
    case CallPush(item) => s.(producer := PHead(item, s.head))
    case LoadTail => s.(producer := PTail(s.producer.item, s.producer.head, s.tail, |s.popped|))
    case WriteSlot =>
      var p := s.producer;
      if PushFails(s) then s.(producer := PIdle)
      else s.(buffer := s.buffer[p.head := Some(p.item)], producer := PWritten(p.item, p.head))
    case StoreHead =>
      s.(head := (s.producer.head + 1) % n, pushed := s.pushed + [s.producer.item], producer := PIdle)
    case CallPop => s.(consumer := CTail(s.tail))
    case LoadHead => s.(consumer := CHead(s.consumer.tail, s.head, |s.pushed|))
    case TakeSlot =>
      var c := s.consumer;
      if c.tail == c.head then s.(consumer := CIdle)
      else s.(buffer := s.buffer[c.tail := None], consumer := CTaken(c.tail, s.buffer[c.tail]))
    case ClearSlot =>
      var c := s.consumer;
      s.(buffer := s.buffer[c.tail := None], consumer := CCleared(c.tail, c.item))
    case StoreTail =>
      var c := s.consumer;
      s.(tail := (c.tail + 1) % n, consumer := CIdle,
         popped := if c.item.Some? then s.popped + [c.item.value] else s.popped)
  }

  /** push returns the item to its caller. */
  predicate PushFails<T>(s: State<T>)
    requires s.producer.PTail? && |s.buffer| > 0
  {
    (s.producer.head + 1) % |s.buffer| == s.producer.tail
  }

  // ----- invariant -----

  /** Where the `k`-th item goes: `k` modulo the size. */
  function Place(k: nat, n: nat): (i: nat)
    requires n >= 1
    ensures i < n
  {
    if k < n then k else Place(k - n, n)
  }

  /** The queue that the buffer implements. */
  function Queue<T>(s: State<T>): seq<T>
    requires |s.popped| <= |s.pushed|
  {
    s.pushed[|s.popped|..]
  }

  /** The consumer has taken the front item out of its slot but not yet stored the tail. */
  predicate Taking<T>(s: State<T>) {
    s.consumer.CTaken? || s.consumer.CCleared?
  }

  /** Indices count pushes and pops modulo the size; one slot stays free. */
  ghost predicate Indices<T>(s: State<T>) {
    var n, p, c := |s.buffer|, |s.pushed|, |s.popped|;
    n >= 1 && c <= p && p - c <= n - 1 && s.head == Place(p, n) && s.tail == Place(c, n) && s.popped <= s.pushed
  }

  /** The slot of the `k`-th item. */
  function Slot<T>(buffer: seq<Option<T>>, k: nat): Option<T>
    requires |buffer| >= 1
  {
    buffer[Place(k, |buffer|)]
  }

  /** What belongs in the slot of the `k`-th item. */
  function Expected<T>(s: State<T>, k: nat): Option<T> {
    if k == |s.popped| && Taking(s) then None
    else if k < |s.pushed| then Some(s.pushed[k])
    else if k == |s.pushed| && s.producer.PWritten? then Some(s.producer.item)
    else None
  }

  /** Queued items are in their slots; every other slot is empty, so a write loses nothing. */
  ghost predicate Slots<T(!new)>(s: State<T>)
    requires |s.buffer| >= 1
  {
    forall k :: |s.popped| <= k < |s.popped| + |s.buffer| ==> Slot(s.buffer, k) == Expected(s, k)
  }

  /** What each side has loaded may be stale, but only in the safe direction. */
  ghost predicate Loaded<T>(s: State<T>)
    requires |s.buffer| >= 1
  {
    var n, p, c := |s.buffer|, |s.pushed|, |s.popped|;
    && (match s.producer
        case PIdle => true
        case PHead(_, h) => h == s.head
        case PTail(_, h, t, seen) => h == s.head && seen <= c && p - seen <= n - 1 && t == Place(seen, n)
        case PWritten(_, h) => h == s.head && p - c < n - 1)
    && (match s.consumer
        case CIdle => true
        case CTail(t) => t == s.tail
        case CHead(t, h, seen) => t == s.tail && c <= seen <= p && h == Place(seen, n)
        case CTaken(t, item) => t == s.tail && c < p && item == Some(s.pushed[c])
        case CCleared(t, item) => t == s.tail && c < p && item == Some(s.pushed[c]))
  }

  ghost predicate Inv<T(!new)>(s: State<T>) {
    Indices(s) && Loaded(s) && Slots(s)
  }

  /** Numbers less than `n` apart have different places. */
  lemma {:induction false} Apart(a: nat, b: nat, n: nat)
    requires a < b < a + n
    ensures Place(a, n) != Place(b, n)
  {
    if a >= n {
      Apart(a - n, b - n, n);
    }
  }

  lemma {:induction false} NextPlace(a: nat, n: nat)
    requires n >= 1
    ensures (Place(a, n) + 1) % n == Place(a + 1, n)
  {
    Successor(Place(a, n), n);
    if a >= n {
      NextPlace(a - n, n);
    } else if a + 1 < n {
      assert Place(a + 1, n) == a + 1;
    } else {
      assert Place(a + 1, n) == Place(0, n);
    }
  }

  lemma Successor(i: nat, n: nat)
    requires i < n
    ensures (i + 1) % n == if i + 1 < n then i + 1 else 0
  {
  }

  /** push fails exactly when the queue was full as the tail was loaded. */
  lemma FailsIffFull<T(!new)>(s: State<T>)
    requires Inv(s) && s.producer.PTail?
    ensures PushFails(s) <==> |s.pushed| - s.producer.seen == |s.buffer| - 1
  {
    var n, p, seen := |s.buffer|, |s.pushed|, s.producer.seen;
    NextPlace(p, n);
    if p - seen == n - 1 {
      assert p + 1 == seen + n;
    } else {
      Apart(seen, p + 1, n);
    }
  }

  /** pop finds nothing exactly when the queue was empty as the head was loaded. */
  lemma NothingIffEmpty<T(!new)>(s: State<T>)
    requires Inv(s) && s.consumer.CHead?
    ensures s.consumer.tail == s.consumer.head <==> s.consumer.seen == |s.popped|
  {
    var c, seen := |s.popped|, s.consumer.seen;
    if c < seen {
      Apart(c, seen, |s.buffer|);
    }
  }

  // ----- steps -----

  /** A written slot changes no other slot of the window. */
  lemma SlotWrite<T(!new)>(buffer: seq<Option<T>>, c: nat, k: nat, x: Option<T>)
    requires |buffer| >= 1 && c <= k < c + |buffer|
    ensures forall j :: c <= j < c + |buffer| ==>
      Slot(buffer[Place(k, |buffer|) := x], j) == if j == k then x else Slot(buffer, j)
  {
    forall j | c <= j < c + |buffer|
      ensures Slot(buffer[Place(k, |buffer|) := x], j) == if j == k then x else Slot(buffer, j)
    {
      if j == k {
      } else if j < k {
        Apart(j, k, |buffer|);
      } else {
        Apart(k, j, |buffer|);
      }
    }
  }

  lemma WriteSlotKeeps<T(!new)>(s: State<T>)
    requires Inv(s) && s.producer.PTail?
    ensures Enabled(s, WriteSlot) && Inv(Do(s, WriteSlot))
  {
    FailsIffFull(s);
    SlotWrite(s.buffer, |s.popped|, |s.pushed|, Some(s.producer.item));
    var s' := Do(s, WriteSlot);
    forall k | |s.popped| <= k < |s.popped| + |s.buffer| ensures Slot(s'.buffer, k) == Expected(s', k) {
      assert Slot(s.buffer, k) == Expected(s, k);
    }
  }

  lemma StoreHeadKeeps<T(!new)>(s: State<T>)
    requires Inv(s) && s.producer.PWritten?
    ensures Inv(Do(s, StoreHead))
  {
    NextPlace(|s.pushed|, |s.buffer|);
  }

  lemma TakeSlotKeeps<T(!new)>(s: State<T>)
    requires Inv(s) && s.consumer.CHead?
    ensures Enabled(s, TakeSlot) && Inv(Do(s, TakeSlot))
  {
    NothingIffEmpty(s);
    SlotWrite(s.buffer, |s.popped|, |s.popped|, None);
    var s' := Do(s, TakeSlot);
    assert Slot(s.buffer, |s.popped|) == s.buffer[s.tail];
    forall k | |s.popped| <= k < |s.popped| + |s.buffer| ensures Slot(s'.buffer, k) == Expected(s', k) {
      assert Slot(s.buffer, k) == Expected(s, k);
    }
  }

  lemma ClearSlotKeeps<T(!new)>(s: State<T>)
    requires Inv(s) && s.consumer.CTaken?
    ensures Enabled(s, ClearSlot) && Inv(Do(s, ClearSlot))
  {
    SlotWrite(s.buffer, |s.popped|, |s.popped|, None);
    var s' := Do(s, ClearSlot);
    forall k | |s.popped| <= k < |s.popped| + |s.buffer| ensures Slot(s'.buffer, k) == Expected(s', k) {
      assert Slot(s.buffer, k) == Expected(s, k);
    }
  }

  lemma StoreTailKeeps<T(!new)>(s: State<T>)
    requires Inv(s) && s.consumer.CCleared?
    ensures Inv(Do(s, StoreTail))
  {
    var c, n := |s.popped|, |s.buffer|;
    NextPlace(c, n);
    assert Slot(s.buffer, c + n) == Slot(s.buffer, c);
  }

  lemma StepKeeps<T(!new)>(s: State<T>, e: Step<T>)
    requires Inv(s) && Enabled(s, e)
    ensures Inv(Do(s, e))
  {
    match e
    case WriteSlot => WriteSlotKeeps(s);
    case StoreHead => StoreHeadKeeps(s);
    case TakeSlot => TakeSlotKeeps(s);
    case ClearSlot => ClearSlotKeeps(s);
    case StoreTail => StoreTailKeeps(s);
    case CallPush(_) =>
    case LoadTail =>
    case CallPop =>
    case LoadHead =>
  }

  /** Each step of the buffer is a step of a first-in first-out queue of
      capacity N - 1, or changes the queue not at all. */
  lemma RefinesQueue<T(!new)>(s: State<T>, e: Step<T>)
    requires Inv(s) && Enabled(s, e)
    ensures Inv(Do(s, e)) && |Queue(s)| <= |s.buffer| - 1
    ensures match e
      case StoreHead => |Queue(s)| < |s.buffer| - 1 && Queue(Do(s, e)) == Queue(s) + [s.producer.item]
      case StoreTail => Queue(s) != [] && s.consumer.item == Some(Queue(s)[0]) && Queue(Do(s, e)) == Queue(s)[1..]
      case LoadTail => Queue(Do(s, e)) == Queue(s) && (PushFails(Do(s, e)) <==> |Queue(s)| == |s.buffer| - 1)
      case LoadHead => Queue(Do(s, e)) == Queue(s) && (Do(s, e).consumer.tail == Do(s, e).consumer.head <==> Queue(s) == [])
      case _ => Queue(Do(s, e)) == Queue(s)
  {
    StepKeeps(s, e);
    if e.LoadTail? {
      FailsIffFull(Do(s, e));
    } else if e.LoadHead? {
      NothingIffEmpty(Do(s, e));
    }
  }

  /** The slot a side is about to access or has accessed, if any. */
  function Writing<T>(s: State<T>): Option<nat> {
    if s.producer.PTail? && |s.buffer| > 0 && !PushFails(s) then Some(s.producer.head)
    else if s.producer.PWritten? then Some(s.producer.head) else None
  }

  function Reading<T>(s: State<T>): Option<nat> {
    if s.consumer.CHead? && s.consumer.tail != s.consumer.head then Some(s.consumer.tail)
    else if Taking(s) then Some(s.consumer.tail) else None
  }

  /** The two sides are never at the same slot, and a write never drops an item. */
  lemma NeverSameSlot<T(!new)>(s: State<T>)
    requires Inv(s)
    ensures Writing(s).Some? && Reading(s).Some? ==> Writing(s) != Reading(s)
    ensures s.producer.PTail? && !PushFails(s) ==> s.producer.head < |s.buffer| && s.buffer[s.producer.head] == None
  {
    var n, p, c := |s.buffer|, |s.pushed|, |s.popped|;
    if s.producer.PTail? {
      FailsIffFull(s);
      assert Slot(s.buffer, p) == s.buffer[s.head];
    }
    if s.consumer.CHead? {
      NothingIffEmpty(s);
    }
    if Writing(s).Some? && Reading(s).Some? {
      Apart(c, p, n);
    }
  }

  // ----- runs -----

  function Start<T>(n: nat): State<T> {
    State(seq(n, _ => None), 0, 0, PIdle, CIdle, [], [])
  }

  ghost predicate Execution<T(!new)>(states: seq<State<T>>, steps: seq<Step<T>>) {
    && |states| == |steps| + 1
    && forall i :: 0 <= i < |steps| ==> Enabled(states[i], steps[i]) && states[i + 1] == Do(states[i], steps[i])
  }

  /** Under every interleaving: nothing lost, duplicated or reordered. */
  lemma {:induction false} Always<T(!new)>(states: seq<State<T>>, steps: seq<Step<T>>, n: nat, i: nat)
    requires n >= 1 && Execution(states, steps) && states[0] == Start(n) && i < |states|
    ensures Inv(states[i]) && |states[i].buffer| == n && states[i].popped <= states[i].pushed
  {
    if i > 0 {
      Always(states, steps, n, i - 1);
      StepKeeps(states[i - 1], steps[i - 1]);
    }
  }

  /** The item of the last call of push. */
  function LastItem<T>(steps: seq<Step<T>>): Option<T> {
    if steps == [] then None
    else
      var e := steps[|steps| - 1];
      if e.CallPush? then Some(e.item) else LastItem(steps[..|steps| - 1])
  }

  /** The items of the pushes that got through, in order. */
  function Items<T>(steps: seq<Step<T>>): seq<Option<T>> {
    if steps == [] then []
    else
      var init, e := steps[..|steps| - 1], steps[|steps| - 1];
      Items(init) + if e.StoreHead? then [LastItem(init)] else []
  }

  /** What the pops that got through returned, in order. */
  function Results<T>(states: seq<State<T>>, steps: seq<Step<T>>, i: nat): seq<Option<T>>
    requires i <= |steps| < |states|
  {
    if i == 0 then []
    else
      Results(states, steps, i - 1) +
      if steps[i - 1].StoreTail? && states[i - 1].consumer.CCleared? then [states[i - 1].consumer.item] else []
  }

  lemma {:induction false} PushedItems<T(!new)>(states: seq<State<T>>, steps: seq<Step<T>>, n: nat, i: nat)
    requires n >= 1 && Execution(states, steps) && states[0] == Start(n) && i < |states|
    ensures Values(states[i].pushed) == Items(steps[..i])
    ensures !states[i].producer.PIdle? ==> LastItem(steps[..i]) == Some(states[i].producer.item)
  {
    if i > 0 {
      PushedItems(states, steps, n, i - 1);
      assert steps[..i][..i - 1] == steps[..i - 1];
    }
  }

  lemma {:induction false} PoppedItems<T(!new)>(states: seq<State<T>>, steps: seq<Step<T>>, n: nat, i: nat)
    requires n >= 1 && Execution(states, steps) && states[0] == Start(n) && i < |states|
    ensures Values(states[i].popped) == Results(states, steps, i)
  {
    if i > 0 {
      PoppedItems(states, steps, n, i - 1);
      Always(states, steps, n, i - 1);
    }
  }

  /** Under every interleaving, the pops return the first items that were
      pushed, in the order in which they were pushed. */
  lemma FirstInFirstOut<T(!new)>(states: seq<State<T>>, steps: seq<Step<T>>, n: nat, i: nat)
    requires n >= 1 && Execution(states, steps) && states[0] == Start(n) && i < |states|
    ensures Results(states, steps, i) <= Items(steps[..i])
  {
    Always(states, steps, n, i);
    PushedItems(states, steps, n, i);
    PoppedItems(states, steps, n, i);
  }

  // ----- the object -----

  /** The buffer in memory; `state` is what the step machine says of it. */
  class Ring<T(!new)> {
    const buffer: array<Option<T>>
    var head: nat
    var tail: nat
    ghost var state: State<T>

    ghost predicate Valid()
      reads this, buffer
    {
      Inv(state) && buffer[..] == state.buffer && head == state.head && tail == state.tail
    }

    constructor (n: nat)
      requires n >= 1
      ensures Valid() && fresh(buffer) && state == Start(n)
    {
      buffer := new Option<T>[n](_ => None);
      head, tail, state := 0, 0, Start(n);
      new;
      assert buffer[..] == state.buffer;
    }

    /** A whole push, with the consumer stopped at any point of a pop. */
    method Push(item: T) returns (back: Option<T>)
      requires Valid() && state.producer.PIdle?
      modifies this, buffer
      ensures Valid() && state.producer.PIdle? && state.consumer == old(state.consumer)
      ensures if |Queue(old(state))| == buffer.Length - 1 then back == Some(item) && Queue(state) == Queue(old(state))
              else back == None && Queue(state) == Queue(old(state)) + [item]
    {
      var h := head;
      Advance(CallPush(item));
      var t := tail;
      Advance(LoadTail);
      var next := (h + 1) % buffer.Length;
      if next == t {
        RefinesQueue(state, WriteSlot);
        state := Do(state, WriteSlot);
        return Some(item);
      }
      WriteItem(h, item);
      RefinesQueue(state, StoreHead);
      head := next;
      state := Do(state, StoreHead);
      back := None;
    }

    /** A step that touches neither the slots nor the indices. */
    ghost method Advance(e: Step<T>)
      requires Valid() && Enabled(state, e) && (e.CallPush? || e.LoadTail? || e.CallPop? || e.LoadHead?)
      modifies this`state
      ensures Valid() && state == Do(old(state), e) && Queue(state) == Queue(old(state))
      ensures e.LoadTail? ==> (PushFails(state) <==> |Queue(state)| == buffer.Length - 1)
      ensures e.LoadHead? ==> (state.consumer.tail == state.consumer.head <==> Queue(state) == [])
    {
      RefinesQueue(state, e);
      state := Do(state, e);
    }

    method WriteItem(h: nat, item: T)
      requires Valid() && state.producer.PTail? && !PushFails(state) && h == state.producer.head && item == state.producer.item
      modifies this`state, buffer
      ensures Valid() && state == Do(old(state), WriteSlot) && Queue(state) == Queue(old(state))
    {
      RefinesQueue(state, WriteSlot);
      buffer[h] := Some(item);
      state := Do(state, WriteSlot);
    }

    /** Takes the item out of its slot and clears the slot again. */
    method TakeItem(t: nat) returns (item: Option<T>)
      requires Valid() && state.consumer.CHead? && state.consumer.tail != state.consumer.head && t == state.consumer.tail
      modifies this`state, buffer
      ensures Valid() && state.consumer == CCleared(t, item) && Queue(state) == Queue(old(state))
      ensures state.producer == old(state.producer)
    {
      RefinesQueue(state, TakeSlot);
      item := buffer[t];
      buffer[t] := None;
      state := Do(state, TakeSlot);
      RefinesQueue(state, ClearSlot);
      buffer[t] := None;
      state := Do(state, ClearSlot);
    }

    /** A whole pop, with the producer stopped at any point of a push. */
    method Pop() returns (item: Option<T>)
      requires Valid() && state.consumer.CIdle?
      modifies this, buffer
      ensures Valid() && state.consumer.CIdle? && state.producer == old(state.producer)
      ensures if Queue(old(state)) == [] then item == None && Queue(state) == []
              else item == Some(Queue(old(state))[0]) && Queue(state) == Queue(old(state))[1..]
    {
      var t := tail;
      Advance(CallPop);
      var h := head;
      Advance(LoadHead);
      var next := (t + 1) % buffer.Length;
      if t == h {
        RefinesQueue(state, TakeSlot);
        state := Do(state, TakeSlot);
        return None;
      }
      item := TakeItem(t);
      RefinesQueue(state, StoreTail);
      tail := next;
      state := Do(state, StoreTail);
    }
  }
}

// The single-producer, single-consumer queue of WebRtc_AMP_Port/webrtc/base/atomicops.h:
// every interleaving of the two threads' memory accesses, with 32-bit counters that wrap.
module LockFreeQueue {

  import Arith
  import opened Wrappers

  const WRAP: nat := 0x1_0000_0000

  /** A 32-bit counter's value after `n` increments from zero. */
  function Count32(n: nat): (r: nat)
    ensures r < WRAP
  {
    n % WRAP
  }

  function Slot(count: nat, capacity: nat): (r: nat)
    requires capacity > 0
    ensures r < capacity
  {
    count % capacity
  }

  // Where the producer stands in PushBack: before the tests, after them, after the slot is written.
  datatype Producer<T> = Idle | Admitted(value: T) | Stored(value: T)

  // Where the consumer stands in PeekFront or PopFront: before the tests, after them, value copied.
  datatype Consumer<T> = Ready | Waiting | Peeked(value: T)

  /** The shared memory, the two threads, and the values pushed and popped so far. */
  datatype Queue<T> = Queue(
    capacity: nat, data: seq<T>, pushed: nat, popped: nat,
    producer: Producer<T>, consumer: Consumer<T>,
    put: seq<T>, got: seq<T>)
  {
    predicate Shape() {
      |data| == capacity < WRAP && pushed < WRAP && popped < WRAP
      && (capacity == 0 ==> producer.Idle? && consumer.Ready?)
    }

    predicate IsFull() {
      pushed == Count32(popped + capacity)
    }

    predicate IsEmpty() {
      pushed == popped
    }

    function Size(): nat {
      (pushed - popped) % WRAP
    }

    // Pushes begun, including one under way.
    function Begun(): nat {
      |put| + if producer.Idle? then 0 else 1
    }

    /** Values come out in the order they went in, unaltered, none twice and none skipped. */
    ghost predicate Fifo() {
      got <= put
    }

    function Contents(): seq<T>
      requires |got| <= |put|
    {
      put[|got|..]
    }

    // What every access keeps while slots are numbered consistently.
    ghost predicate Inv() {
      && Shape()
      && pushed == Count32(|put|) && popped == Count32(|got|)
      && |got| <= |put| <= |got| + capacity
      && Fifo()
      && (capacity > 0 ==> forall k :: |got| <= k < |put| ==> data[Slot(k, capacity)] == put[k])
      && (!producer.Idle? ==> |put| < |got| + capacity)
      && (producer.Stored? ==> data[Slot(|put|, capacity)] == producer.value)
      && (!consumer.Ready? ==> |got| < |put|)
      && (consumer.Peeked? ==> consumer.value == put[|got|])
    }
  }

  function Empty<T>(data: seq<T>): Queue<T> {
    Queue(|data|, data, 0, 0, Idle, Ready, [], [])
  }

  /** One access to shared memory by one of the threads. */
  datatype Event<T> =
    | Push(value: T)   // PushBack: the tests for capacity and room
    | Smear(value: T)  // PushBack: the copy under way leaves anything in the slot
    | Store            // PushBack: the copy done
    | Commit           // PushBack: the count incremented
    | Peek             // PeekFront: the tests for capacity and content
    | Fetch            // PeekFront: the front value copied out
    | Leave            // PeekFront returns
    | Release          // PopFront: the count incremented

  function Next<T>(q: Queue<T>, e: Event<T>): (r: Queue<T>)
    requires q.Shape()
    ensures r.Shape() && r.capacity == q.capacity
  {
    match e
    case Push(v) =>
      if q.producer.Idle? && q.capacity != 0 && !q.IsFull() then q.(producer := Admitted(v)) else q
    case Smear(v) =>
      if q.producer.Admitted? then q.(data := q.data[Slot(q.pushed, q.capacity) := v]) else q
    case Store =>
      if q.producer.Admitted?
      then q.(data := q.data[Slot(q.pushed, q.capacity) := q.producer.value], producer := Stored(q.producer.value))
      else q
    case Commit =>
      if q.producer.Stored?
      then q.(pushed := Count32(q.pushed + 1), put := q.put + [q.producer.value], producer := Idle)
      else q
    case Peek =>
      if q.consumer.Ready? && q.capacity != 0 && !q.IsEmpty() then q.(consumer := Waiting) else q
    case Fetch =>
      if q.consumer.Waiting? then q.(consumer := Peeked(q.data[Slot(q.popped, q.capacity)])) else q
    case Leave =>
      if q.consumer.Peeked? then q.(consumer := Ready) else q
    case Release =>
      if q.consumer.Peeked?
      then q.(popped := Count32(q.popped + 1), got := q.got + [q.consumer.value], consumer := Ready)
      else q
  }

  function Run<T>(q: Queue<T>, events: seq<Event<T>>): (r: Queue<T>)
    requires q.Shape()
    ensures r.Shape() && r.capacity == q.capacity
    decreases |events|
  {
    if events == [] then q else Run(Next(q, events[0]), events[1..])
  }

  // ---- slot numbers ----

  lemma SlotsDiffer(i: nat, j: nat, capacity: nat)
    requires i < j < i + capacity
    ensures Slot(i, capacity) != Slot(j, capacity)
  {
    if i % capacity == j % capacity {
      var q := j / capacity - i / capacity;
      assert j - i == capacity * q by {
        assert j == capacity * (j / capacity) + j % capacity;
        assert i == capacity * (i / capacity) + i % capacity;
        Arith.MulDistributes(capacity, j / capacity, i / capacity);
      }
      Arith.MulBounds(capacity, q);
    }
  }

  // Wrapped counts number the slots like true counts, below the wrap or when the capacity divides it.
  lemma SlotOfWrapped(i: nat, capacity: nat)
    requires capacity >= 1 && (i < WRAP || WRAP % capacity == 0)
    ensures Slot(Count32(i), capacity) == Slot(i, capacity)
  {
    if i >= WRAP {
      Arith.ModOfMod(i, WRAP, capacity);
    }
  }

  // The wrapped counts tell full from empty, and the true size.
  lemma Wrapped(put: nat, got: nat, capacity: nat)
    requires got <= put <= got + capacity && capacity < WRAP
    ensures Count32(put) == Count32(Count32(got) + capacity) <==> put == got + capacity
    ensures Count32(put) == Count32(got) <==> put == got
    ensures (Count32(put) - Count32(got)) % WRAP == put - got
  {}

  lemma CountNext(n: nat)
    ensures Count32(Count32(n) + 1) == Count32(n + 1)
  {}

  // ---- safety of every interleaving ----

  lemma ProducerInv<T>(q: Queue<T>, e: Event<T>)
    requires q.Inv() && (e.Push? || e.Smear? || e.Store? || e.Commit?)
    requires q.capacity == 0 || WRAP % q.capacity == 0 || Next(q, e).Begun() <= WRAP
    ensures Next(q, e).Inv()
  {
    hide Slot, Count32;
    Wrapped(|q.put|, |q.got|, q.capacity);
    CountNext(|q.put|);
    if !q.producer.Idle? {
      SlotOfWrapped(|q.put|, q.capacity);
      forall k | |q.got| <= k < |q.put|
        ensures Slot(k, q.capacity) != Slot(|q.put|, q.capacity)
      {
        SlotsDiffer(k, |q.put|, q.capacity);
      }
    }
  }

  lemma ConsumerInv<T>(q: Queue<T>, e: Event<T>)
    requires q.Inv() && (e.Peek? || e.Fetch? || e.Leave? || e.Release?)
    requires q.capacity == 0 || WRAP % q.capacity == 0 || q.Begun() <= WRAP
    ensures Next(q, e).Inv()
  {
    hide Slot, Count32;
    Wrapped(|q.put|, |q.got|, q.capacity);
    CountNext(|q.got|);
    if !q.consumer.Ready? {
      SlotOfWrapped(|q.got|, q.capacity);
    }
  }

  lemma NextBegun<T>(q: Queue<T>, e: Event<T>)
    requires q.Shape()
    ensures Next(q, e).Begun() >= q.Begun()
  {}

  lemma {:induction false} RunBegun<T>(q: Queue<T>, events: seq<Event<T>>)
    requires q.Shape()
    ensures Run(q, events).Begun() >= q.Begun()
    decreases |events|
  {
    if events != [] {
      NextBegun(q, events[0]);
      RunBegun(Next(q, events[0]), events[1..]);
    }
  }

  lemma {:induction false} RunInv<T>(q: Queue<T>, events: seq<Event<T>>)
    requires q.Inv()
    requires q.capacity == 0 || WRAP % q.capacity == 0 || Run(q, events).Begun() <= WRAP
    ensures Run(q, events).Inv()
    decreases |events|
  {
    hide Queue.Begun, Next;
    if events != [] {
      var e := events[0];
      NextBegun(q, e);
      RunBegun(Next(q, e), events[1..]);
      if e.Push? || e.Smear? || e.Store? || e.Commit? {
        ProducerInv(q, e);
      } else {
        ConsumerInv(q, e);
      }
      RunInv(Next(q, e), events[1..]);
    }
  }

  /** Every interleaving, from an empty queue, delivers the pushed values in order, and the size
      reported at any moment is the number of values waiting, between 0 and the capacity. */
  lemma Interleavings<T>(data: seq<T>, events: seq<Event<T>>)
    requires |data| < WRAP
    requires |data| == 0 || WRAP % |data| == 0 || Run(Empty(data), events).Begun() <= WRAP
    ensures var q := Run(Empty(data), events);
      q.Fifo() && q.Size() == |q.Contents()| <= q.capacity
      && (q.IsFull() <==> q.Size() == q.capacity) && (q.IsEmpty() <==> q.Contents() == [])
  {
    assert Empty(data).Inv();
    RunInv(Empty(data), events);
    var q := Run(Empty(data), events);
    Wrapped(|q.put|, |q.got|, q.capacity);
  }

  // ---- the size, read one count at a time ----

  predicate OfConsumer<T>(e: Event<T>) {
    e.Peek? || e.Fetch? || e.Leave? || e.Release?
  }

  lemma {:induction false} OwnCount<T>(q: Queue<T>, events: seq<Event<T>>)
    requires q.Shape()
    ensures (forall i :: 0 <= i < |events| ==> OfConsumer(events[i])) ==>
              Run(q, events).pushed == q.pushed && Run(q, events).put == q.put
    ensures (forall i :: 0 <= i < |events| ==> !OfConsumer(events[i])) ==>
              Run(q, events).popped == q.popped && Run(q, events).got == q.got
    decreases |events|
  {
    if events != [] {
      var e, rest := events[0], events[1..];
      assert forall i :: 0 <= i < |rest| ==> rest[i] == events[i + 1];
      OwnCount(Next(q, e), rest);
    }
  }

  /** Size reads the two counts one after the other, in either order, and the other thread may go on
      in between. To the producer as to the consumer it gives the number of values waiting at one of
      the two readings, so never more than the capacity. */
  lemma SizeAsked<T>(data: seq<T>, before: seq<Event<T>>, between: seq<Event<T>>)
    requires |data| < WRAP
    requires |data| == 0 || WRAP % |data| == 0 || Run(Run(Empty(data), before), between).Begun() <= WRAP
    requires (forall i :: 0 <= i < |between| ==> OfConsumer(between[i]))
          || (forall i :: 0 <= i < |between| ==> !OfConsumer(between[i]))
    ensures var p, q := Run(Empty(data), before), Run(Run(Empty(data), before), between);
      && p.Fifo() && q.Fifo() && |p.Contents()| <= |data| && |q.Contents()| <= |data|
      && (p.pushed - q.popped) % WRAP in {|p.Contents()|, |q.Contents()|}
      && (q.pushed - p.popped) % WRAP in {|p.Contents()|, |q.Contents()|}
  {
    hide Run, Queue.Begun;
    var p, q := Run(Empty(data), before), Run(Run(Empty(data), before), between);
    RunJoin(Empty(data), before, between);
    RunBegun(p, between);
    Interleavings(data, before);
    Interleavings(data, before + between);
    OwnCount(p, between);
  }

  /** A third thread may be told a size of 2^32 - 1: the count of pushes read before a value went
      through an empty queue, the count of pops after it. */
  lemma ThirdThread<T>(data: seq<T>, v: T)
    requires 0 < |data| < WRAP
    ensures var q := Run(Empty(data), Cycle(v)); (Empty(data).pushed - q.popped) % WRAP == WRAP - 1
  {
    hide Run, Slot;
    var p := Empty(data);
    PushRuns(p, v);
    RunJoin(p, [Push(v), Store, Commit], [Peek, Fetch, Release]);
    PopRuns(Pushed(p, v));
  }

  /** No slot is written while the consumer may be copying it. */
  lemma NoRace<T>(data: seq<T>, events: seq<Event<T>>)
    requires 0 < |data| < WRAP
    requires WRAP % |data| == 0 || Run(Empty(data), events).Begun() <= WRAP
    ensures var q := Run(Empty(data), events);
      q.producer.Admitted? && q.consumer.Waiting? ==> Slot(q.pushed, q.capacity) != Slot(q.popped, q.capacity)
  {
    hide Slot, Count32;
    assert Empty(data).Inv() by { assert Count32(0) == 0 by { CountZero(); } }
    RunInv(Empty(data), events);
    var q := Run(Empty(data), events);
    if q.producer.Admitted? && q.consumer.Waiting? {
      SlotsDiffer(|q.got|, |q.put|, q.capacity);
      SlotOfWrapped(|q.put|, q.capacity);
      SlotOfWrapped(|q.got|, q.capacity);
    }
  }

  lemma CountZero()
    ensures Count32(0) == 0
  {}

  // ---- the capacities for which no number of pushes is too many ----

  lemma {:induction false} RunJoin<T>(q: Queue<T>, x: seq<Event<T>>, y: seq<Event<T>>)
    requires q.Shape()
    ensures Run(q, x + y) == Run(Run(q, x), y)
    decreases |x|
  {
    hide Next;
    if x == [] {
      assert x + y == y;
    } else {
      assert (x + y)[1..] == x[1..] + y;
      RunJoin(Next(q, x[0]), x[1..], y);
    }
  }

  lemma RunFirst<T>(q: Queue<T>, e: Event<T>, rest: seq<Event<T>>)
    requires q.Shape()
    ensures Run(q, [e] + rest) == Run(Next(q, e), rest)
  {
    hide Next;
    assert ([e] + rest)[1..] == rest;
  }

  lemma RunThree<T>(q: Queue<T>, d: Event<T>, e: Event<T>, f: Event<T>)
    requires q.Shape()
    ensures Run(q, [d, e, f]) == Next(Next(Next(q, d), e), f)
  {
    hide Next, Run, Queue.Shape;
    assert [d, e, f] == [d] + [e, f] && [e, f] == [e] + [f] && [f] == [f] + [];
    RunFirst(q, d, [e, f]);
    RunFirst(Next(q, d), e, [f]);
    RunFirst(Next(Next(q, d), e), f, []);
    RunNothing(Next(Next(Next(q, d), e), f));
  }

  predicate Quiet<T>(q: Queue<T>) {
    q.Shape() && q.producer.Idle? && q.consumer.Ready?
  }

  function Pushed<T>(q: Queue<T>, v: T): Queue<T>
    requires q.Shape() && q.capacity > 0
  {
    q.(data := q.data[Slot(q.pushed, q.capacity) := v], pushed := Count32(q.pushed + 1), put := q.put + [v])
  }

  function Popped<T>(q: Queue<T>): Queue<T>
    requires q.Shape() && q.capacity > 0
  {
    q.(popped := Count32(q.popped + 1), got := q.got + [q.data[Slot(q.popped, q.capacity)]])
  }

  lemma PushRuns<T>(q: Queue<T>, v: T)
    requires Quiet(q) && q.capacity > 0 && !q.IsFull()
    ensures Run(q, [Push(v), Store, Commit]) == Pushed(q, v) && Quiet(Pushed(q, v))
  {
    hide Slot, Count32, Run, Queue.IsFull;
    RunThree(q, Push(v), Store, Commit);
  }

  lemma PopRuns<T>(q: Queue<T>)
    requires Quiet(q) && q.capacity > 0 && !q.IsEmpty()
    ensures Run(q, [Peek, Fetch, Release]) == Popped(q) && Quiet(Popped(q))
  {
    hide Slot, Count32, Run, Queue.IsFull;
    RunThree(q, Peek, Fetch, Release);
  }

  function Cycle<T>(v: T): seq<Event<T>> {
    [Push(v), Store, Commit] + [Peek, Fetch, Release]
  }

  function Cycles<T>(v: T, n: nat): seq<Event<T>> {
    if n == 0 then [] else Cycle(v) + Cycles(v, n - 1)
  }

  function Pushes<T>(v: T, n: nat): seq<Event<T>> {
    if n == 0 then [] else Pushes(v, n - 1) + [Push(v), Store, Commit]
  }

  // Idle, with every value pushed also popped, `n` of them.
  ghost predicate Drained<T>(q: Queue<T>, n: nat) {
    Quiet(q) && q.Inv() && |q.put| == |q.got| == n
  }

  lemma CycleDrains<T>(q: Queue<T>, v: T, n: nat)
    requires Drained(q, n) && q.capacity > 0 && n < WRAP
    ensures Drained(Run(q, Cycle(v)), n + 1)
  {
    hide Slot, Count32, Run, Next;
    Wrapped(n, n, q.capacity);
    PushRuns(q, v);
    var r := Pushed(q, v);
    CountNext(n);
    Wrapped(n + 1, n, q.capacity);
    RunJoin(q, [Push(v), Store, Commit], [Peek, Fetch, Release]);
    PopRuns(r);
    RunInv(q, Cycle(v));
  }

  lemma {:induction false} CyclesDrain<T>(q: Queue<T>, v: T, m: nat, n: nat)
    requires Drained(q, m) && q.capacity > 0 && m + n <= WRAP
    ensures Drained(Run(q, Cycles(v, n)), m + n)
    decreases n
  {
    hide Queue.Inv, Run, Cycle;
    if n > 0 {
      CycleDrains(q, v, m);
      RunJoin(q, Cycle(v), Cycles(v, n - 1));
      CyclesDrain(Run(q, Cycle(v)), v, m + 1, n - 1);
    } else {
      RunNothing(q);
    }
  }

  lemma RunNothing<T>(q: Queue<T>)
    requires q.Shape()
    ensures Run(q, []) == q
  {}

  // The producer's counter has wrapped and numbered `j` more slots, all filled with `b`, while
  // the oldest value, `a`, is still waiting under the last number before the wrap.
  ghost predicate Turned<T>(q: Queue<T>, j: nat, a: T, b: T) {
    Quiet(q) && q.popped == WRAP - 1 && q.pushed == j < q.capacity
    && |q.got| == WRAP - 1 < |q.put| && q.put[WRAP - 1] == a
    && forall k :: 0 <= k < j ==> q.data[k] == b
  }

  lemma TurnedStep<T>(q: Queue<T>, j: nat, a: T, b: T)
    requires Turned(q, j, a, b) && j + 1 < q.capacity
    ensures Turned(Run(q, [Push(b), Store, Commit]), j + 1, a, b)
  {
    hide Run, Slot, Count32;
    TurnedRoom(j, q.capacity);
    PushRuns(q, b);
    var r := Pushed(q, b);
    assert r.data == q.data[j := b] && r.put == q.put + [b];
  }

  // After the wrap a number below the capacity is its own slot and its own count, and not the full one.
  lemma TurnedRoom(j: nat, capacity: nat)
    requires j + 1 < capacity < WRAP
    ensures Slot(j, capacity) == j && Count32(j + 1) == j + 1 && Count32(WRAP - 1 + capacity) == capacity - 1
  {
    Arith.ModUnique(j, capacity, 0, j);
    Arith.ModUnique(WRAP - 1 + capacity, WRAP, 1, capacity - 1);
  }

  lemma {:induction false} TurnedRun<T>(q: Queue<T>, n: nat, a: T, b: T)
    requires Turned(q, 0, a, b) && n < q.capacity
    ensures Turned(Run(q, Pushes(b, n)), n, a, b)
    decreases n
  {
    hide Run;
    if n > 0 {
      TurnedRun(q, n - 1, a, b);
      RunJoin(q, Pushes(b, n - 1), [Push(b), Store, Commit]);
      TurnedStep(Run(q, Pushes(b, n - 1)), n - 1, a, b);
    } else {
      RunNothing(q);
    }
  }

  lemma TurnedPop<T>(q: Queue<T>, j: nat, a: T, b: T)
    requires Turned(q, j, a, b) && a != b && (WRAP - 1) % q.capacity < j
    ensures !Run(q, [Peek, Fetch, Release]).Fifo()
  {
    hide Run;
    PopRuns(q);
    assert Popped(q).got[WRAP - 1] == b;
  }

  lemma LastSlot(capacity: nat)
    requires 0 < capacity < WRAP && WRAP % capacity != 0
    ensures (WRAP - 1) % capacity + 1 < capacity
  {
    Arith.AddMod(WRAP - 1, 1, capacity);
  }

  // The run that loses a value when the capacity does not divide 2^32.
  function LosingRun<T>(a: T, b: T, capacity: nat): seq<Event<T>>
    requires capacity > 0
  {
    Cycles(a, WRAP - 1) + [Push(a), Store, Commit] + Pushes(b, (WRAP - 1) % capacity + 1) + [Peek, Fetch, Release]
  }

  lemma Loses<T>(data: seq<T>, a: T, b: T)
    requires a != b && 0 < |data| < WRAP && WRAP % |data| != 0
    ensures !Run(Empty(data), LosingRun(a, b, |data|)).Fifo()
  {
    hide Run, Queue.Fifo, Cycles, Pushes, Turned, Pushed, Queue.Inv;
    var c, q := |data|, Empty(data);
    var x, y, z := Cycles(a, WRAP - 1), [Push(a), Store, Commit], Pushes(b, (WRAP - 1) % c + 1);
    LastSlot(c);
    assert Drained(q, 0) by { hide *; StartDrained(data); }
    CyclesDrain(q, a, 0, WRAP - 1);
    var r := Run(q, x);
    var t := Pushed(r, a);
    FirstTurn(r, a, b);
    TurnedRun(t, (WRAP - 1) % c + 1, a, b);
    TurnedPop(Run(t, z), (WRAP - 1) % c + 1, a, b);
    RunJoin(q, x, y);
    RunJoin(q, x + y, z);
    RunJoin(q, x + y + z, [Peek, Fetch, Release]);
  }

  // The push that wraps the counter.
  lemma FirstTurn<T>(r: Queue<T>, a: T, b: T)
    requires Drained(r, WRAP - 1) && r.capacity > 0
    ensures Run(r, [Push(a), Store, Commit]) == Pushed(r, a) && Turned(Pushed(r, a), 0, a, b)
  {
    hide Run, Slot;
    Wrapped(WRAP - 1, WRAP - 1, r.capacity);
    PushRuns(r, a);
  }

  lemma StartDrained<T>(data: seq<T>)
    requires |data| < WRAP
    ensures Drained(Empty(data), 0)
  {}

  /** Order is kept over runs of any length exactly for the capacities that divide 2^32 (and for none at all). */
  lemma FifoForever<T>(data: seq<T>, a: T, b: T)
    requires a != b && |data| < WRAP
    ensures (forall events :: Run(Empty(data), events).Fifo()) <==> |data| == 0 || WRAP % |data| == 0
  {
    if |data| == 0 || WRAP % |data| == 0 {
      forall events
        ensures Run(Empty(data), events).Fifo()
      {
        Interleavings(data, events);
      }
    } else {
      Loses(data, a, b);
    }
  }

  // ---- the code, one thread at a time ----

  class FixedSizeLockFreeQueue<T(0)> {
    var capacity: nat
    var data: array<T>
    var pushedCount: nat
    var poppedCount: nat
    ghost var put: seq<T>
    ghost var got: seq<T>

    ghost function State(): Queue<T>
      reads this, data
    {
      Queue(capacity, data[..], pushedCount, poppedCount, Idle, Ready, put, got)
    }

    ghost predicate Valid()
      reads this, data
    {
      State().Inv() && (capacity == 0 || WRAP % capacity == 0 || |put| <= WRAP)
    }

    // Slots are numbered consistently for one more push.
    ghost predicate Numbered()
      reads this
    {
      capacity == 0 || WRAP % capacity == 0 || |put| < WRAP
    }

    ghost function Contents(): seq<T>
      reads this, data
      requires Valid()
    {
      State().Contents()
    }

    constructor (size: nat)
      requires size < WRAP
      ensures Valid() && capacity == size && Contents() == [] && fresh(data)
    {
      capacity, pushedCount, poppedCount := size, 0, 0;
      data := new T[size];
      put, got := [], [];
    }

    method ClearAndResizeUnsafe(size: nat)
      requires size < 0x8000_0000
      modifies this
      ensures Valid() && capacity == size && Contents() == [] && fresh(data)
    {
      capacity, pushedCount, poppedCount := size, 0, 0;
      data := new T[size];
      put, got := [], [];
    }

    method PushBack(value: T) returns (ok: bool)
      requires Valid() && Numbered()
      modifies this, data
      ensures Valid() && capacity == old(capacity) && data == old(data) && got == old(got)
      ensures ok == (|old(Contents())| < capacity)
      ensures Contents() == if ok then old(Contents()) + [value] else old(Contents())
      ensures State() == Run(old(State()), [Push(value), Store, Commit])
    {
      hide Slot, Count32, Run;
      ghost var q := State();
      Wrapped(|put|, |got|, capacity);
      if capacity == 0 {
        Refused(q, value);
        return false;
      }
      if pushedCount == Count32(poppedCount + capacity) {
        Refused(q, value);
        return false;
      }
      PushRuns(q, value);
      RunInv(q, [Push(value), Store, Commit]);
      data[Slot(pushedCount, capacity)] := value;
      pushedCount := Count32(pushedCount + 1);
      put := put + [value];
      assert State() == Pushed(q, value);
      return true;
    }

    method PeekFront() returns (value: Option<T>)
      requires Valid()
      ensures value == if Contents() == [] then None else Some(Contents()[0])
    {
      if capacity == 0 {
        return None;
      }
      Wrapped(|put|, |got|, capacity);
      if pushedCount == poppedCount {
        return None;
      }
      hide Slot, Count32;
      SlotOfWrapped(|got|, capacity);
      value := Some(data[Slot(poppedCount, capacity)]);
    }

    method PopFront() returns (value: Option<T>)
      requires Valid()
      modifies this`poppedCount, this`got
      ensures Valid()
      ensures value == if old(Contents()) == [] then None else Some(old(Contents())[0])
      ensures Contents() == if old(Contents()) == [] then [] else old(Contents())[1..]
      ensures State() == Run(old(State()), [Peek, Fetch, Release])
    {
      hide Slot, Count32, Run;
      ghost var q := State();
      value := PeekFront();
      Wrapped(|put|, |got|, capacity);
      if value.Some? {
        SlotOfWrapped(|got|, capacity);
        PopRuns(q);
        RunInv(q, [Peek, Fetch, Release]);
        poppedCount := Count32(poppedCount + 1);
        got := got + [value.value];
        assert State() == Popped(q);
      } else {
        NothingToPop(q);
      }
    }

    method Size() returns (n: nat)
      requires Valid()
      ensures n == |Contents()| <= capacity
    {
      Wrapped(|put|, |got|, capacity);
      n := (pushedCount - poppedCount) % WRAP;
    }
  }

  lemma Refused<T>(q: Queue<T>, v: T)
    requires Quiet(q) && (q.capacity == 0 || q.IsFull())
    ensures Run(q, [Push(v), Store, Commit]) == q
  {
    RunThree(q, Push(v), Store, Commit);
  }

  lemma NothingToPop<T>(q: Queue<T>)
    requires Quiet(q) && (q.capacity == 0 || q.IsEmpty())
    ensures Run(q, [Peek, Fetch, Release]) == q
  {
    RunThree(q, Peek, Fetch, Release);
  }
}

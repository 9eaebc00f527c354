/** The ingest buffer and its flusher: a bounded in-place queue with a wake-up token. */
module Buffer {
  import opened Events

  // -------------------------------------------------------- the queue, as a value

  predicate Fits(buffer: seq<Event>, batch: seq<Event>, capacity: nat) {
    |buffer| + |batch| <= capacity
  }

  predicate HalfFull(buffer: seq<Event>, capacity: nat) {
    2 * |buffer| >= capacity
  }

  function Taken(buffer: seq<Event>, max: int): nat {
    if max <= 0 then 0 else if max > |buffer| then |buffer| else max
  }

  // ---------------------------------------------------------------- the mutable queue

  class Buffer {
    var events: array<Event>
    var n: nat
    var fill: nat
    var token: bool

    /** The queue; fill mirrors its length. */
    ghost predicate Valid()
      reads this
    {
      events.Length > 0 && n <= events.Length && fill == n
    }

    ghost function Contents(): seq<Event>
      reads this, events
      requires Valid()
    {
      events[..n]
    }

    constructor (capacity: int)
      ensures Valid() && fresh(events) && Contents() == [] && !token
      ensures events.Length == if capacity <= 0 then 1 else capacity
    {
      var c := if capacity <= 0 then 1 else capacity;
      events := new Event[c];
      n, fill, token := 0, 0, false;
    }

    /** A batch lands whole or not at all; half says whether the producer has to signal. */
    method Append(batch: seq<Event>) returns (ok: bool, half: bool)
      requires Valid()
      modifies this`n, this`fill, events
      ensures Valid()
      ensures ok <==> batch == [] || Fits(old(Contents()), batch, events.Length)
      ensures Contents() == if ok then old(Contents()) + batch else old(Contents())
      ensures half <==> ok && batch != [] && HalfFull(Contents(), events.Length)
    {
      if batch == [] {
        return true, false;
      }
      if n + |batch| > events.Length {
        return false, false;
      }
      forall i | 0 <= i < |batch| {
        events[n + i] := batch[i];
      }
      n := n + |batch|;
      fill := n;
      half := n * 2 >= events.Length;
      ok := true;
    }

    /** Takes from the head and moves the rest up in place. */
    method Drain(max: int) returns (out: seq<Event>)
      requires Valid()
      modifies this`n, this`fill, events
      ensures Valid()
      ensures out + Contents() == old(Contents())
      ensures |out| == Taken(old(Contents()), max)
    {
      if max <= 0 || n == 0 {
        return [];
      }
      var k := if max > n then n else max;
      out := events[..k];
      assert events[..n] == out + events[k..n];
      MoveUp(k);
      n := n - k;
      fill := n;
    }

    method MoveUp(k: nat)
      requires Valid() && k <= n
      modifies events
      ensures events[..n - k] == old(events[k..n])
    {
      ghost var was := events[..n];
      for i := 0 to n - k
        invariant events[..i] == was[k..k + i]
        invariant events[i..n] == was[i..n]
      {
        ghost var before := events[i..n];
        assert events[k + i] == before[k] == was[k + i];
        events[i] := events[k + i];
        assert events[i + 1..n] == before[1..];
        assert events[..i + 1] == was[k..k + i] + [was[k + i]];
      }
    }

    /** At most one token waits. */
    method Signal()
      modifies this`token
      ensures token
    {
      token := true;
    }
  }

  class Flusher {
    const buf: Buffer
    const batch: int
    var flushed: seq<Event>

    constructor (buf: Buffer, batch: int)
      requires buf.Valid()
      ensures this.buf == buf && flushed == []
      ensures this.batch == if batch <= 0 then buf.events.Length else batch
      ensures this.batch > 0
    {
      this.buf := buf;
      this.batch := if batch <= 0 then buf.events.Length else batch;
      flushed := [];
    }

    method DrainOnce()
      requires buf.Valid()
      modifies this, buf`n, buf`fill, buf.events
      ensures buf.Valid()
      ensures flushed + buf.Contents() == old(flushed) + old(buf.Contents())
      ensures |buf.Contents()| == |old(buf.Contents())| - Taken(old(buf.Contents()), batch)
    {
      var out := buf.Drain(batch);
      if out != [] {
        flushed := flushed + out;
      }
    }

    /** At shutdown everything still buffered is flushed, in order. */
    method DrainAll()
      requires buf.Valid() && batch > 0
      modifies this, buf`n, buf`fill, buf.events
      ensures buf.Valid() && buf.Contents() == []
      ensures flushed == old(flushed) + old(buf.Contents())
    {
      while true
        invariant buf.Valid()
        invariant flushed + buf.Contents() == old(flushed) + old(buf.Contents())
        decreases |buf.Contents()|
      {
        var out := buf.Drain(batch);
        if out == [] {
          break;
        }
        flushed := flushed + out;
      }
    }
  }

  // ------------------------------------------------- producers and flusher interleaved

  /** What the flusher is doing: waiting, about to drain, handing a batch on, draining for
      shutdown, or gone. */
  datatype Mode = Idle | Waking | Flushing | Stopping | Stopped

  /** signalling counts the producers between their append and their signal. */
  datatype System = System(buffer: seq<Event>, token: bool, signalling: nat, mode: Mode, accepted: seq<Event>,
                           drained: seq<Event>)

  datatype Step = Append(batch: seq<Event>) | Signal | Tick | Wake | Drain | HandOn | Stop

  const START := System([], false, 0, Idle, [], [])

  /** One atomic step; one that is not enabled does nothing. */
  function Apply(s: System, step: Step, capacity: nat, batch: nat): System {
    match step
    case Append(events) =>
      if events == [] || !Fits(s.buffer, events, capacity) then s
      else
        var buffer := s.buffer + events;
        s.(buffer := buffer, accepted := s.accepted + events,
           signalling := if HalfFull(buffer, capacity) then s.signalling + 1 else s.signalling)
    case Signal => if s.signalling > 0 then s.(signalling := s.signalling - 1, token := true) else s
    case Tick => if s.mode == Idle then s.(mode := Waking) else s
    case Wake => if s.mode == Idle && s.token then s.(mode := Waking, token := false) else s
    case Drain =>
      if s.mode !in {Waking, Stopping} then s
      else
        var k := Taken(s.buffer, batch);
        s.(buffer := s.buffer[k..], drained := s.drained + s.buffer[..k],
           mode := if s.mode == Waking then (if k == 0 then Idle else Flushing)
                   else if k == 0 then Stopped
                   else Stopping)
    case HandOn => if s.mode == Flushing then s.(mode := Idle) else s
    case Stop => if s.mode == Idle then s.(mode := Stopping) else s
  }

  function Run(steps: seq<Step>, capacity: nat, batch: nat): System {
    if steps == [] then START
    else Apply(Run(steps[..|steps| - 1], capacity, batch), steps[|steps| - 1], capacity, batch)
  }

  /** Over any interleaving: what was accepted is what was drained followed by what is buffered, in
      order, and the buffer never exceeds its capacity. */
  lemma {:induction false} EventsAreConserved(steps: seq<Step>, capacity: nat, batch: nat)
    ensures var s := Run(steps, capacity, batch);
            s.accepted == s.drained + s.buffer && |s.buffer| <= capacity
  {
    hide Apply;
    if steps != [] {
      EventsAreConserved(steps[..|steps| - 1], capacity, batch);
      StepConserves(Run(steps[..|steps| - 1], capacity, batch), steps[|steps| - 1], capacity, batch);
    }
  }

  lemma StepConserves(s: System, step: Step, capacity: nat, batch: nat)
    requires s.accepted == s.drained + s.buffer && |s.buffer| <= capacity
    ensures var t := Apply(s, step, capacity, batch);
            t.accepted == t.drained + t.buffer && |t.buffer| <= capacity
  {
    match step
    case Append(events) => assert s.drained + (s.buffer + events) == s.drained + s.buffer + events;
    case Drain =>
      var k := Taken(s.buffer, batch);
      assert s.buffer == s.buffer[..k] + s.buffer[k..];
      assert s.drained + s.buffer[..k] + s.buffer[k..] == s.drained + s.buffer;
    case _ =>
  }

  /** A half-full buffer has a wake-up pending, a producer about to signal, or a drain under way. */
  predicate WakeUpPending(s: System, capacity: nat) {
    HalfFull(s.buffer, capacity) ==> s.token || s.signalling > 0 || s.mode in {Waking, Stopping}
  }

  lemma {:induction false} WakeUpKept(steps: seq<Step>, capacity: nat, batch: nat)
    requires capacity > 0 && 2 * batch > capacity
    ensures WakeUpPending(Run(steps, capacity, batch), capacity)
  {
    if steps != [] {
      WakeUpKept(steps[..|steps| - 1], capacity, batch);
      EventsAreConserved(steps[..|steps| - 1], capacity, batch);
    }
  }

  /** With a drain of at most half the capacity, one full buffer is enough to miss a wake-up. */
  lemma WakeUpMissed(ev: Event, capacity: nat, batch: nat) returns (steps: seq<Step>)
    requires 0 < 2 * batch <= capacity
    ensures !WakeUpPending(Run(steps, capacity, batch), capacity)
  {
    var all := seq(capacity, i => ev);
    steps := [Append(all)] + [Signal] + [Wake] + [Drain];
    OneMore([], Append(all), capacity, batch);
    assert [] + [Append(all)] == [Append(all)] && START.buffer + all == all;
    OneMore([Append(all)], Signal, capacity, batch);
    OneMore([Append(all)] + [Signal], Wake, capacity, batch);
    OneMore([Append(all)] + [Signal] + [Wake], Drain, capacity, batch);
  }

  lemma OneMore(steps: seq<Step>, step: Step, capacity: nat, batch: nat)
    ensures Run(steps + [step], capacity, batch) == Apply(Run(steps, capacity, batch), step, capacity, batch)
  {
    assert (steps + [step])[..|steps|] == steps;
  }

  /** The guarantee holds over all interleavings exactly when one drain empties more than half the
      buffer. */
  lemma WakeUpsAreReliable(capacity: nat, batch: nat, ev: Event)
    requires capacity > 0 && batch > 0
    ensures (forall steps: seq<Step> :: WakeUpPending(Run(steps, capacity, batch), capacity)) <==> 2 * batch > capacity
  {
    if 2 * batch > capacity {
      forall steps: seq<Step> ensures WakeUpPending(Run(steps, capacity, batch), capacity) {
        WakeUpKept(steps, capacity, batch);
      }
    } else {
      var steps := WakeUpMissed(ev, capacity, batch);
    }
  }
}

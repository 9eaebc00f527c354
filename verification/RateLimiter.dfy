/** The live-tail rate cap: a fixed-window counter. */
module RateLimiter {
  import opened Events

  /** The limiter's fields, and how many times it has started a new counting window. */
  datatype State = State(windowEnd: int, count: nat, epoch: nat)

  datatype Call = Call(time: int, epoch: nat, allowed: bool)

  const START := State(ZERO_TIME, 0, 0)

  /** What a limit lets through: a negative one nothing. */
  function Cap(limit: int): nat {
    if limit < 0 then 0 else limit
  }

  function Next(s: State, limit: int, window: nat, now: int): (State, bool) {
    var current := if now > s.windowEnd then State(now + window, 0, s.epoch + 1) else s;
    if current.count >= limit then (current, false) else (current.(count := current.count + 1), true)
  }

  /** The calls made at the given times, with their outcome. */
  function History(limit: int, window: nat, times: seq<int>): (State, seq<Call>) {
    if times == [] then (START, [])
    else
      var before := History(limit, window, times[..|times| - 1]);
      var now := times[|times| - 1];
      var step := Next(before.0, limit, window, now);
      (step.0, before.1 + [Call(now, step.0.epoch, step.1)])
  }

  function AllowedInEpoch(calls: seq<Call>, epoch: int): nat {
    if calls == [] then 0
    else
      var last := calls[|calls| - 1];
      AllowedInEpoch(calls[..|calls| - 1], epoch) + (if last.allowed && last.epoch == epoch then 1 else 0)
  }

  function AllowedBetween(calls: seq<Call>, from: int, to: int): nat {
    if calls == [] then 0
    else
      var last := calls[|calls| - 1];
      AllowedBetween(calls[..|calls| - 1], from, to) + (if last.allowed && from <= last.time <= to then 1 else 0)
  }

  predicate NonDecreasing(times: seq<int>) {
    forall i, j | 0 <= i < j < |times| :: times[i] <= times[j]
  }

  /** Where a history stands: the current counting window's calls lie within it and are counted,
      earlier windows' calls lie before its start, and no window has more than its share. */
  ghost predicate Accounted(s: State, calls: seq<Call>, limit: int, window: nat) {
    AllowedInEpoch(calls, s.epoch) == s.count && s.count <= Cap(limit) &&
    (forall e: int :: AllowedInEpoch(calls, e) <= Cap(limit)) &&
    (forall e: int | e > s.epoch :: AllowedInEpoch(calls, e) == 0) &&
    forall c <- calls :: Placed(c, s, window)
  }

  predicate Placed(c: Call, s: State, window: nat) {
    c.epoch <= s.epoch &&
    (c.epoch == s.epoch ==> c.time <= s.windowEnd) &&
    (c.epoch < s.epoch ==> c.time < s.windowEnd - window) &&
    (c.epoch + 2 <= s.epoch ==> c.time + window < s.windowEnd - window)
  }

  /** Calls two counting windows apart are more than a window apart in time. */
  ghost predicate Spread(calls: seq<Call>, window: nat) {
    forall c, d | c in calls && d in calls && c.epoch + 2 <= d.epoch :: c.time + window < d.time
  }

  lemma NextAccounted(s: State, calls: seq<Call>, limit: int, window: nat, now: int)
    requires Accounted(s, calls, limit, window)
    ensures var step := Next(s, limit, window, now);
            Accounted(step.0, calls + [Call(now, step.0.epoch, step.1)], limit, window)
  {
    var step := Next(s, limit, window, now);
    var more := calls + [Call(now, step.0.epoch, step.1)];
    assert more[..|more| - 1] == calls;
    forall e: int
      ensures AllowedInEpoch(more, e) == AllowedInEpoch(calls, e) + (if step.1 && step.0.epoch == e then 1 else 0)
    {
    }
  }

  lemma {:induction false} HistoryAccounted(limit: int, window: nat, times: seq<int>)
    ensures var h := History(limit, window, times); Accounted(h.0, h.1, limit, window)
    ensures |History(limit, window, times).1| == |times|
    ensures forall i | 0 <= i < |times| :: History(limit, window, times).1[i].time == times[i]
  {
    hide Accounted, Next;
    if times == [] {
      NoCalls(limit, window);
    } else {
      HistoryAccounted(limit, window, times[..|times| - 1]);
      var before := History(limit, window, times[..|times| - 1]);
      NextAccounted(before.0, before.1, limit, window, times[|times| - 1]);
    }
  }

  lemma NoCalls(limit: int, window: nat)
    ensures Accounted(START, [], limit, window)
  {
  }

  /** The current counting window started no later than the latest call. */
  lemma {:induction false} StartIsPast(limit: int, window: nat, times: seq<int>)
    requires NonDecreasing(times)
    ensures var s := History(limit, window, times).0;
            s.epoch > 0 ==> times != [] && s.windowEnd - window <= times[|times| - 1]
  {
    if times != [] {
      StartIsPast(limit, window, times[..|times| - 1]);
    }
  }

  lemma {:induction false} HistorySpread(limit: int, window: nat, times: seq<int>)
    requires NonDecreasing(times)
    ensures Spread(History(limit, window, times).1, window)
  {
    hide Accounted;
    if times != [] {
      var earlier, now := times[..|times| - 1], times[|times| - 1];
      HistorySpread(limit, window, earlier);
      StartIsPast(limit, window, earlier);
      HistoryAccounted(limit, window, earlier);
      var before := History(limit, window, earlier);
      NextSpread(before.0, before.1, limit, window, now);
    }
  }

  lemma NextSpread(s: State, calls: seq<Call>, limit: int, window: nat, now: int)
    requires Accounted(s, calls, limit, window) && Spread(calls, window) &&
             (s.epoch > 0 ==> s.windowEnd - window <= now)
    ensures var step := Next(s, limit, window, now);
            Spread(calls + [Call(now, step.0.epoch, step.1)], window)
  {
    hide AllowedInEpoch;
    var step := Next(s, limit, window, now);
    var d := Call(now, step.0.epoch, step.1);
    forall c | c in calls && c.epoch + 2 <= d.epoch ensures c.time + window < d.time {
      assert Placed(c, s, window);
    }
    forall c | c in calls ensures c.epoch <= d.epoch {
      assert Placed(c, s, window);
    }
  }

  /** No counting window lets more than the limit through. */
  lemma EachWindowIsCapped(limit: int, window: nat, times: seq<int>, epoch: int)
    ensures AllowedInEpoch(History(limit, window, times).1, epoch) <= Cap(limit)
  {
    hide History;
    HistoryAccounted(limit, window, times);
  }

  /** A call is refused only when its counting window has already let the limit through. */
  lemma RefusedOnlyWhenFull(limit: int, window: nat, times: seq<int>)
    requires times != []
    ensures var calls := History(limit, window, times).1;
            var last := calls[|calls| - 1];
            !last.allowed ==> AllowedInEpoch(calls, last.epoch) == Cap(limit)
  {
    hide Accounted;
    HistoryAccounted(limit, window, times);
    HistoryAccounted(limit, window, times[..|times| - 1]);
    RefusedMeansFull(limit, window, times);
  }

  /** A call is refused only when as many as the limit went through within one window's length before
      it, given a clock past the instant that counts as not set. */
  lemma RefusedOnlyWithinWindow(limit: int, window: nat, times: seq<int>)
    requires NonDecreasing(times) && times != [] && times[0] > ZERO_TIME
    ensures var calls := History(limit, window, times).1;
            var last := calls[|calls| - 1];
            !last.allowed ==> AllowedBetween(calls, last.time - window, last.time) >= Cap(limit)
  {
    hide Accounted, AllowedInEpoch, AllowedBetween, Next;
    HistoryAccounted(limit, window, times);
    RefusedOnlyWhenFull(limit, window, times);
    RecentCalls(limit, window, times);
    var h := History(limit, window, times);
    var last := h.1[|times| - 1];
    assert last == h.1[|h.1| - 1];
    if !last.allowed {
      forall c | c in h.1 && c.epoch == last.epoch ensures last.time - window <= c.time <= last.time {
        var i :| 0 <= i < |h.1| && h.1[i] == c;
        assert c.time == times[i] <= times[|times| - 1];
      }
      EpochInInterval(h.1, last.time - window, last.time, last.epoch);
    }
  }

  /** The calls of the current counting window lie within it, and so does the last one. */
  lemma {:induction false} RecentCalls(limit: int, window: nat, times: seq<int>)
    requires NonDecreasing(times) && times != [] && times[0] > ZERO_TIME
    ensures |History(limit, window, times).1| == |times|
    ensures var h := History(limit, window, times);
            h.0.epoch > 0 && h.1[|times| - 1].epoch == h.0.epoch &&
            h.1[|times| - 1].time == times[|times| - 1] <= h.0.windowEnd &&
            forall c | c in h.1 && c.epoch == h.0.epoch :: h.0.windowEnd - window <= c.time
  {
    hide Accounted, AllowedInEpoch;
    var n := |times| - 1;
    var earlier := times[..n];
    HistoryAccounted(limit, window, times);
    HistoryAccounted(limit, window, earlier);
    var before := History(limit, window, earlier);
    NoLaterEpochs(before.0, before.1, limit, window);
    if n > 0 {
      RecentCalls(limit, window, earlier);
      StartIsPast(limit, window, earlier);
      assert earlier[|earlier| - 1] == times[n - 1];
    } else {
      assert earlier == [];
    }
  }

  lemma NoLaterEpochs(s: State, calls: seq<Call>, limit: int, window: nat)
    requires Accounted(s, calls, limit, window)
    ensures forall c <- calls :: c.epoch <= s.epoch
  {
    hide AllowedInEpoch;
    forall c | c in calls ensures c.epoch <= s.epoch {
      assert Placed(c, s, window);
    }
  }

  lemma {:induction false} EpochInInterval(calls: seq<Call>, from: int, to: int, e: int)
    requires forall c | c in calls && c.epoch == e :: from <= c.time <= to
    ensures AllowedInEpoch(calls, e) <= AllowedBetween(calls, from, to)
  {
    if calls != [] {
      assert calls[|calls| - 1] in calls;
      EpochInInterval(calls[..|calls| - 1], from, to, e);
    }
  }

  lemma RefusedMeansFull(limit: int, window: nat, times: seq<int>)
    requires times != []
    requires var h := History(limit, window, times); Accounted(h.0, h.1, limit, window)
    ensures var calls := History(limit, window, times).1;
            !calls[|calls| - 1].allowed ==> AllowedInEpoch(calls, calls[|calls| - 1].epoch) == Cap(limit)
  {
    var h := History(limit, window, times);
    assert AllowedInEpoch(h.1, h.0.epoch) == h.0.count;
  }

  /** Calls of an interval shorter than the spread fall into two adjacent counting windows. */
  lemma {:induction false} IntervalInTwoEpochs(calls: seq<Call>, from: int, to: int, e: int)
    requires forall c | c in calls && from <= c.time <= to :: c.epoch == e || c.epoch == e + 1
    ensures AllowedBetween(calls, from, to) <= AllowedInEpoch(calls, e) + AllowedInEpoch(calls, e + 1)
  {
    if calls != [] {
      assert calls[|calls| - 1] in calls;
      IntervalInTwoEpochs(calls[..|calls| - 1], from, to, e);
    }
  }

  lemma {:induction false} EarliestEpoch(calls: seq<Call>, from: int, to: int) returns (e: int)
    ensures forall c | c in calls && from <= c.time <= to :: e <= c.epoch
    ensures (exists c | c in calls :: from <= c.time <= to && c.epoch == e) ||
            forall c <- calls :: !(from <= c.time <= to)
  {
    e := 0;
    if calls != [] {
      var n := |calls| - 1;
      e := EarliestEpoch(calls[..n], from, to);
      var last := calls[n];
      assert last in calls && forall c <- calls :: c in calls[..n] || c == last;
      if from <= last.time <= to && ((forall c <- calls[..n] :: !(from <= c.time <= to)) || last.epoch < e) {
        e := last.epoch;
      } else if c :| c in calls[..n] && from <= c.time <= to && c.epoch == e {
        assert c in calls;
      }
    }
  }

  /** Whatever the call times, as long as the clock does not go back, any closed interval as long as
      the window contains at most twice the limit. */
  lemma AnyIntervalIsCapped(limit: int, window: nat, times: seq<int>, from: int)
    requires NonDecreasing(times)
    ensures AllowedBetween(History(limit, window, times).1, from, from + window) <= 2 * Cap(limit)
  {
    hide History, AllowedInEpoch, AllowedBetween, Accounted;
    var calls := History(limit, window, times).1;
    HistorySpread(limit, window, times);
    var e := EarliestEpoch(calls, from, from + window);
    forall c | c in calls && from <= c.time <= from + window ensures c.epoch == e || c.epoch == e + 1 {
      var first :| first in calls && from <= first.time <= from + window && first.epoch == e;
      assert first.epoch + 2 <= c.epoch ==> first.time + window < c.time;
    }
    IntervalInTwoEpochs(calls, from, from + window, e);
    EachWindowIsCapped(limit, window, times, e);
    EachWindowIsCapped(limit, window, times, e + 1);
  }

  class Limiter {
    const limit: int
    const window: nat
    var windowEnd: int
    var count: nat
    ghost var times: seq<int>

    constructor (limit: int, window: nat)
      ensures this.limit == limit && this.window == window && times == [] && Valid()
    {
      this.limit, this.window, windowEnd, count, times := limit, window, ZERO_TIME, 0, [];
    }

    /** The fields are where the calls made so far lead. */
    ghost predicate Valid()
      reads this
    {
      var s := History(limit, window, times).0;
      windowEnd == s.windowEnd && count == s.count
    }

    method Allow(now: int) returns (ok: bool)
      requires Valid()
      modifies this
      ensures Valid() && times == old(times) + [now]
      ensures ok == Next(History(limit, window, old(times)).0, limit, window, now).1
    {
      times := times + [now];
      assert times[..|times| - 1] == old(times);
      if now > windowEnd {
        windowEnd := now + window;
        count := 0;
      }
      if count >= limit {
        return false;
      }
      count := count + 1;
      ok := true;
    }
  }
}

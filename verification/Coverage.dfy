/** When the time range a segment records covers the rows flushed to it, so that no query prunes
    it away from a row it should find. */
module Coverage {
  import opened Text
  import opened Events
  import opened SegmentIds
  import opened SegmentCatalog
  import opened DataDir
  import opened Slots
  import Executor
  import Manager
  import Recovery

  /** What a query reads for an id: the active file of an open segment, or else the file the row
      points at. */
  function SegmentOf(s: Slot, id: string): Executor.Segment
    requires s.row.Some?
  {
    var r := s.row.value;
    var file := if r.state == Active then (if s.open then s.active else None) else LocalFile(s);
    Executor.Segment(id, r.timeStart, r.timeEnd, if file.Some? then file.value else [], file.Some? && r.state != Lost,
                     r.state == Lost)
  }

  /** Open for writing under its window's row. */
  predicate OpenWindow(s: Slot, id: string, w: int) {
    ParseSegmentID(id).Some? && s.open && s.active.Some? && s.row == Some(WindowRow(id, w))
  }

  /** The event's own window is not open. */
  predicate Late(open: set<string>, w: int, ev: Event)
    requires w > 0
  {
    SegmentID(ev.timestamp, w) !in open
  }

  ghost predicate AllInCalendar(w: int, events: seq<Event>)
    requires w > 0
  {
    forall ev <- events :: InCalendar(WindowStart(ev.timestamp, w))
  }

  lemma {:induction false} ShareHas(open: set<string>, current: string, w: int, events: seq<Event>, id: string)
    requires w > 0
    ensures forall x <- Manager.Share(open, current, w, events, id) ::
              exists ev <- events :: Manager.Route(open, current, w, ev) == (id, x)
    ensures forall ev <- events ::
              Manager.Route(open, current, w, ev).0 == id ==>
                Manager.Route(open, current, w, ev).1 in Manager.Share(open, current, w, events, id)
  {
    hide Manager.Route;
    if events != [] {
      var n := |events| - 1;
      ShareHas(open, current, w, events[..n], id);
      assert events == events[..n] + [events[n]];
    }
  }

  /** The range recorded for the segment an event is routed to reaches the event if and only if it
      is not late or sits on the closing instant of the current window. */
  lemma RoutedInRange(open: set<string>, now: int, w: int, ev: Event)
    requires w > 0 && w % MINUTE == 0 && InCalendar(WindowStart(ev.timestamp, w)) && InCalendar(WindowStart(now, w))
    requires SegmentID(now, w) in open
    ensures var r := Manager.Route(open, SegmentID(now, w), w, ev);
            var start := ParseSegmentID(r.0);
            r.1.timestamp == ev.timestamp && start.Some? && (Late(open, w, ev) ==> r.0 == SegmentID(now, w)) &&
            (start.value <= ev.timestamp <= start.value + w <==>
             (Late(open, w, ev) ==> ev.timestamp == start.value + w))
  {
    hide ParseSegmentID, SegmentID, InCalendar;
    IdReadsBack(ev.timestamp, w);
    IdReadsBack(now, w);
    IdsSortChronologically(ev.timestamp, now, w);
    if Late(open, w, ev) {
      AnotherWindow(ev.timestamp, now, w);
    }
  }

  lemma AnotherWindow(t: int, now: int, w: int)
    requires w > 0 && WindowStart(t, w) != WindowStart(now, w)
    ensures !(WindowStart(now, w) <= t < WindowStart(now, w) + w)
  {
    if WindowStart(now, w) <= t < WindowStart(now, w) + w {
      SameWindow(t, WindowStart(now, w), w);
    }
  }

  lemma SameWindow(t: int, start: int, w: int)
    requires w > 0 && start % w == 0 && start <= t < start + w
    ensures WindowStart(t, w) == start
  {
    var other := WindowStart(t, w);
    if other < start {
      MultiplesApart(other, start, w);
    } else if start < other {
      MultiplesApart(start, other, w);
    }
  }

  lemma MultiplesApart(a: int, b: int, w: int)
    requires w > 0 && a % w == 0 && b % w == 0 && a < b
    ensures a + w <= b
  {
    assert a == (a / w) * w && b == (b / w) * w;
    if b / w <= a / w {
      AtMostTimes(b / w, a / w, w);
    } else {
      AtMostTimes(a / w + 1, b / w, w);
    }
  }

  lemma AtMostTimes(p: int, q: int, w: int)
    requires w > 0 && p <= q
    ensures p * w <= q * w
  {
  }

  /** No late event of the batch went to this id, but on the closing instant of its window. */
  ghost predicate NoneLate(open: set<string>, now: int, w: int, events: seq<Event>, id: string)
    requires w > 0
  {
    id == SegmentID(now, w) ==> forall ev <- events | Late(open, w, ev) :: ev.timestamp == WindowStart(now, w) + w
  }

  /** A row written to an open window keeps its recorded range. */
  lemma WrittenCovers(s: Slot, id: string, w: int, rows: File)
    requires w > 0 && OpenWindow(s, id, w) && Executor.Covers(SegmentOf(s, id))
    ensures OpenWindow(WriteSlot(s, rows), id, w)
    ensures SegmentOf(WriteSlot(s, rows), id).readable &&
            SegmentOf(WriteSlot(s, rows), id).rows == s.active.value + rows
    ensures var start := ParseSegmentID(id).value;
            Executor.Covers(SegmentOf(WriteSlot(s, rows), id)) <==>
            forall ev <- rows :: start <= ev.timestamp <= start + w
  {
    hide ParseSegmentID;
    var t := SegmentOf(WriteSlot(s, rows), id);
    if Executor.Covers(t) {
      forall ev | ev in rows ensures ParseSegmentID(id).value <= ev.timestamp <= ParseSegmentID(id).value + w {
        assert ev in t.rows;
      }
    }
  }

  /** After a flush, the range recorded for an open segment covers its rows if and only if every row
      it was given lies in its window, which is if and only if none of them was late. */
  lemma FlushCovers(open: set<string>, now: int, w: int, events: seq<Event>, id: string, s: Slot)
    requires w > 0 && w % MINUTE == 0 && AllInCalendar(w, events) && InCalendar(WindowStart(now, w))
    requires SegmentID(now, w) in open && OpenWindow(s, id, w) && Executor.Covers(SegmentOf(s, id))
    ensures var start := ParseSegmentID(id).value;
            var share := Manager.Share(open, SegmentID(now, w), w, events, id);
            (Executor.Covers(SegmentOf(WriteSlot(s, share), id)) <==>
             forall ev <- share :: start <= ev.timestamp <= start + w) &&
            (Executor.Covers(SegmentOf(WriteSlot(s, share), id)) <==> NoneLate(open, now, w, events, id))
  {
    hide ParseSegmentID, SegmentID, InCalendar, WindowStart, Manager.Route, Late;
    var current := SegmentID(now, w);
    var share := Manager.Share(open, current, w, events, id);
    var start := ParseSegmentID(id).value;
    IdReadsBack(now, w);
    WrittenCovers(s, id, w, share);
    ShareHas(open, current, w, events, id);
    if NoneLate(open, now, w, events, id) {
      forall x | x in share ensures start <= x.timestamp <= start + w {
        var ev :| ev in events && Manager.Route(open, current, w, ev) == (id, x);
        RoutedInRange(open, now, w, ev);
      }
    } else {
      var ev :| ev in events && Late(open, w, ev) && ev.timestamp != start + w;
      RoutedInRange(open, now, w, ev);
      assert Manager.Route(open, current, w, ev).1 in share;
    }
  }

  /** So it is for every segment that a flush writes. */
  method FlushAndCover(m: Manager.Manager, events: seq<Event>, now: int) returns (ok: bool, ghost done: set<string>)
    requires m.Valid() && m.window % MINUTE == 0 && AllInCalendar(m.window, events) &&
             InCalendar(WindowStart(now, m.window))
    modifies m, m.catalog, m.disk
    ensures ok <==> events == [] || !old(m.closing)
    ensures ok ==>
              done == Manager.Targets(old(m.open.Keys) + {SegmentID(now, m.window)}, SegmentID(now, m.window), m.window,
                                      events)
    ensures ok ==> forall id | id in done && ParseSegmentID(id).Some? ::
              var s := if id == SegmentID(now, m.window) then OpenPrefix(old(m.View(id)), id, m.window, OPENED)
                else old(m.View(id));
              OpenWindow(s, id, m.window) && Executor.Covers(SegmentOf(s, id)) ==>
                m.View(id).row.Some? &&
                (Executor.Covers(SegmentOf(m.View(id), id)) <==>
                 NoneLate(old(m.open.Keys) + {SegmentID(now, m.window)}, now, m.window, events, id))
  {
    hide ParseSegmentID, SegmentID, InCalendar, WindowStart, OpenPrefix, SlotFrom, Manager.Targets, Manager.Share,
         NoneLate, Executor.Covers;
    var w := m.window;
    ghost var open := m.open.Keys + {SegmentID(now, w)};
    IdReadsBack(now, w);
    TargetsFit(open, SegmentID(now, w), w, events);
    label Before:
    ghost var cut;
    ok, done, cut := m.Flush(events, now, OPENED, |events|, 0);
    if ok {
      forall id | id in done && ParseSegmentID(id).Some?
        ensures var s := if id == SegmentID(now, w) then OpenPrefix(old@Before(m.View(id)), id, w, OPENED)
                else old@Before(m.View(id));
                OpenWindow(s, id, w) && Executor.Covers(SegmentOf(s, id)) ==>
                  m.View(id).row.Some? &&
                  (Executor.Covers(SegmentOf(m.View(id), id)) <==> NoneLate(open, now, w, events, id))
      {
        var s := if id == SegmentID(now, w) then OpenPrefix(old@Before(m.View(id)), id, w, OPENED)
          else old@Before(m.View(id));
        if OpenWindow(s, id, w) && Executor.Covers(SegmentOf(s, id)) {
          FlushCovers(open, now, w, events, id, s);
        }
      }
    }
  }

  lemma {:induction false} TargetsFit(open: set<string>, current: string, w: int, events: seq<Event>)
    requires w > 0
    ensures |Manager.Targets(open, current, w, events)| <= |events| &&
            (events == [] ==> Manager.Targets(open, current, w, events) == {})
  {
    hide Manager.Route, Manager.Targets;
    if events == [] {
      Manager.NoTargets(open, current, w, events);
      assert events[..0] == events;
    } else {
      var n := |events| - 1;
      TargetsFit(open, current, w, events[..n]);
      Manager.OneMoreTarget(open, current, w, events, n);
      assert events[..n + 1] == events;
    }
  }

  /** The miss: a late event lies in the file of the current segment, and a query for its very time
      does not find it, whatever else the store holds. */
  lemma LateEventIsMissed(open: set<string>, now: int, w: int, events: seq<Event>, ev: Event, s: Slot,
                          store: seq<Executor.Segment>, i: nat)
    requires w > 0 && w % MINUTE == 0 && AllInCalendar(w, events) && InCalendar(WindowStart(now, w))
    requires SegmentID(now, w) in open && OpenWindow(s, SegmentID(now, w), w) &&
             Executor.Covers(SegmentOf(s, SegmentID(now, w)))
    requires ev in events && Late(open, w, ev) && ev.timestamp != WindowStart(now, w) + w
    requires i < |store| && WriteSlot(s, Manager.Share(open, SegmentID(now, w), w, events, SegmentID(now, w))).row.Some?
    requires store[i] ==
               SegmentOf(WriteSlot(s, Manager.Share(open, SegmentID(now, w), w, events, SegmentID(now, w))),
                         SegmentID(now, w))
    ensures var stored := Manager.AnnotateLate(ev, SegmentID(ev.timestamp, w));
            var req := Executor.MissingRange(store[i], stored);
            stored in store[i].rows && Executor.Refusal(store, req).None? && req.from <= stored.timestamp <= req.to &&
            !Executor.SeesEverything(store, (x: Event) => x == stored, req)
  {
    hide ParseSegmentID, SegmentID, InCalendar, WindowStart, Executor.SeesEverything, Executor.Refusal;
    var current := SegmentID(now, w);
    IdReadsBack(now, w);
    RoutedInRange(open, now, w, ev);
    ShareHas(open, current, w, events, current);
    WrittenCovers(s, current, w, Manager.Share(open, current, w, events, current));
    Executor.OutsiderIsMissed(store, i, Manager.AnnotateLate(ev, SegmentID(ev.timestamp, w)));
  }

  /** Such a flush: only the current window is open and an event of the window before arrives. */
  lemma ALateEvent(now: int, w: int, ev: Event)
    requires w > 0 && w % MINUTE == 0 && InCalendar(WindowStart(now, w)) && WindowStart(now, w) > 0
    requires ev.timestamp == WindowStart(now, w) - 1
    ensures Late({SegmentID(now, w)}, w, ev) && InCalendar(WindowStart(ev.timestamp, w))
    ensures !NoneLate({SegmentID(now, w)}, now, w, [ev], SegmentID(now, w))
  {
    hide ParseSegmentID, SegmentID, WindowStart, InCalendar;
    IdReadsBack(now, w);
    WindowBefore(now, w);
    IdsSortChronologically(ev.timestamp, now, w);
    assert ev in [ev];
  }

  lemma WindowBefore(now: int, w: int)
    requires w > 0 && WindowStart(now, w) > 0 && InCalendar(WindowStart(now, w))
    ensures WindowStart(WindowStart(now, w) - 1, w) < WindowStart(now, w) &&
            InCalendar(WindowStart(WindowStart(now, w) - 1, w))
  {
    var start := WindowStart(now, w);
    MultiplesApart(0, start, w);
    var before := WindowStart(start - 1, w);
    if before < 0 {
      MultiplesApart(before, 0, w);
    }
  }

  /** Sealing ends it: the sealed row records the range of the rows themselves. */
  lemma SealedCovers(s: Slot, id: string, pq: Parquet, now: int)
    requires Healthy(s) && s.active.value != []
    ensures var t := SealPrefix(s, id, pq, SEALED, [], now);
            t.row.Some? && SegmentOf(t, id).readable && Executor.Covers(SegmentOf(t, id)) &&
            multiset(SegmentOf(t, id).rows) == multiset(s.active.value)
  {
    hide MinTime, MaxTime, Export;
    var t := SealPrefix(s, id, pq, SEALED, [], now);
    SealingDescribesTheFile(s, id, pq, now);
    TimesCover(s.active.value);
    forall ev | ev in t.sealed.value ensures t.row.value.timeStart <= ev.timestamp <= t.row.value.timeEnd {
      assert ev in multiset(t.sealed.value);
      assert ev in s.active.value;
    }
  }

  /** A file whose earliest and latest rows have a set time, and whose row describes it, is covered by
      the range recorded for it, which is no wider than it has to be. */
  lemma DescribedCovers(s: Slot, id: string, w: int, pq: Parquet, lo: int, hi: int)
    requires ParseSegmentID(id).Some? && s.row.Some? && s.row.value.state == Sealed && s.sealed.Some?
    requires Describes(s.row.value, s.sealed.value, id, w, pq)
    requires TightRange(s.sealed.value, lo, hi) && lo != ZERO_TIME && hi != ZERO_TIME
    ensures SegmentOf(s, id).readable && SegmentOf(s, id).rows == s.sealed.value && Executor.Covers(SegmentOf(s, id))
    ensures s.row.value.timeStart == lo && s.row.value.timeEnd == hi
  {
    hide ParseSegmentID;
  }

  lemma RegisteredByRecovery(s: Slot, id: string, w: int, pq: Parquet, now: int)
    requires Recovery.IsId(id)
    requires NextRemedy(Recovery.Phase(Recovery.Phase(s, OrphanActive, id, w, pq, now), RegisterActive, id, w, pq, now))
             == RegisterSealed
    ensures s.sealed.Some? && RecoverSlot(s, id, w, pq, now).sealed == s.sealed
    ensures RecoverSlot(s, id, w, pq, now).row == Some(FoundRow(s.sealed.value, id, w, pq, now))
  {
    hide ParseSegmentID, WindowRow, MinTime, MaxTime;
  }

  /** Every sealed file that recovery registers gets a row that describes it, so that the recorded range
      covers the file unless its earliest or latest row has no time set. */
  method RecoverAndCover(m: Manager.Manager, now: int) returns (r: Recovery.Result)
    requires m.Valid() && !m.closing && m.open == map[]
    modifies m, m.catalog, m.disk
    ensures forall id | id in r.sealedRegistered && Recovery.IsId(id) ::
              var s := m.View(id);
              s.row.Some? && s.row.value.state == Sealed && s.sealed.Some? && s.sealed == old(m.View(id)).sealed &&
              Describes(s.row.value, s.sealed.value, id, m.window, m.pq)
    ensures forall id, lo, hi | id in r.sealedRegistered && Recovery.IsId(id) && m.View(id).sealed.Some? &&
                                TightRange(m.View(id).sealed.value, lo, hi) && lo != ZERO_TIME && hi != ZERO_TIME ::
              m.View(id).row.Some? && SegmentOf(m.View(id), id).readable && Executor.Covers(SegmentOf(m.View(id), id))
  {
    hide ParseSegmentID, SlotFrom, Recovery.Phase, NextRemedy, RecoverSlot, FoundRow, Describes, TightRange, SegmentOf,
         Executor.Covers, Manager.Manager.View;
    label Before:
    r := Recovery.Recover(m, now);
    forall id | id in r.sealedRegistered && Recovery.IsId(id)
      ensures var s := m.View(id);
              s.row.Some? && s.row.value.state == Sealed && s.sealed.Some? &&
              s.sealed == old@Before(m.View(id)).sealed &&
              Describes(s.row.value, s.sealed.value, id, m.window, m.pq)
    {
      var s := old@Before(m.View(id));
      RegisteredByRecovery(s, id, m.window, m.pq, now);
      FoundRowDescribes(s.sealed.value, id, m.window, m.pq, now);
    }
    forall id, lo, hi | id in r.sealedRegistered && Recovery.IsId(id) && m.View(id).sealed.Some? &&
                        TightRange(m.View(id).sealed.value, lo, hi) && lo != ZERO_TIME && hi != ZERO_TIME
      ensures m.View(id).row.Some? && SegmentOf(m.View(id), id).readable && Executor.Covers(SegmentOf(m.View(id), id))
    {
      DescribedCovers(m.View(id), id, m.window, m.pq, lo, hi);
    }
  }
}

/** The query executor over a set of segments: visiting order, early termination and
    the cursor it hands out. One segment's query is "filter, sort, take n", with ties
    left open. */
module Executor {
  import opened Text
  import opened Events
  import opened Ordering

  const DEFAULT_LIMIT := 100
  const MAX_LIMIT := 1000

  /** A catalog row with the rows its file holds; an unreadable one (not open, no local
      file) contributes nothing, and a lost one is never readable. */
  datatype Segment = Segment(id: string, timeStart: int, timeEnd: int, rows: seq<Event>, readable: bool, lost: bool)

  datatype Cursor = Cursor(ts: int, segment: string)

  /** What checking and compiling the filter of a request says of it. */
  datatype FilterCheck = Fine | TooDeep | Illegal | NotCompilable

  datatype Request = Request(from: int, to: int, maxRange: int, filter: FilterCheck, sort: seq<SortKey>, limit: int,
                             cursor: Option<Cursor>)

  datatype Error = InvalidTimeRange | TimeRangeTooLarge | FilterTooDeep | InvalidFilter | InvalidSort
    | CursorInvalidated

  datatype Response = Page(hits: seq<Hit>, next: Option<Cursor>) | Failed(error: Error)

  // -------------------------------------------------------------------- matches

  function FilterRows(rows: seq<Event>, id: string, accept: Event -> bool): seq<Hit> {
    if rows == [] then []
    else (if accept(rows[0]) then [Hit(rows[0], id)] else []) + FilterRows(rows[1..], id, accept)
  }

  function Matches(s: Segment, accept: Event -> bool): seq<Hit> {
    if s.readable then FilterRows(s.rows, s.id, accept) else []
  }

  /** Every match of every segment, in visiting order. */
  function AllMatches(segs: seq<Segment>, accept: Event -> bool): seq<Hit> {
    if segs == [] then [] else Matches(segs[0], accept) + AllMatches(segs[1..], accept)
  }

  function SortFields(): set<string> {
    {"timestamp", "service", "level", "host", "source"}
  }

  predicate ValidKeys(keys: seq<SortKey>) {
    forall k <- keys :: k.field in SortFields() && (k.order == "asc" || k.order == "desc")
  }

  function EffectiveKeys(keys: seq<SortKey>): seq<SortKey> {
    if keys == [] then [SortKey("timestamp", "desc")] else keys
  }

  function EffectiveLimit(limit: int): (n: nat)
    ensures 1 <= n <= MAX_LIMIT
  {
    if limit <= 0 then DEFAULT_LIMIT else if limit > MAX_LIMIT then MAX_LIMIT else limit
  }

  predicate TimestampFirst(keys: seq<SortKey>) {
    keys != [] && keys[0].field == "timestamp"
  }

  /** Strictly after the cursor; other sorts do not filter. */
  predicate Beyond(ev: Event, keys: seq<SortKey>, cursor: Option<Cursor>) {
    cursor.None? || !TimestampFirst(keys) ||
    if keys[0].Desc() then ev.timestamp < cursor.value.ts else ev.timestamp > cursor.value.ts
  }

  /** What the WHERE clause of a request selects: the time range, the compiled filter and
      search, and the cursor. */
  function Selection(accept: Event -> bool, req: Request): Event -> bool {
    (ev: Event) => req.from <= ev.timestamp <= req.to && accept(ev) && Beyond(ev, EffectiveKeys(req.sort), req.cursor)
  }

  // ---------------------------------------------------------- visiting order

  /** s may be visited before t. */
  predicate Before(s: Segment, t: Segment, keys: seq<SortKey>) {
    !TimestampFirst(keys) || if keys[0].Desc() then s.timeStart >= t.timeStart else s.timeStart <= t.timeStart
  }

  function InsertSegment(s: Segment, segs: seq<Segment>, keys: seq<SortKey>): seq<Segment> {
    if segs == [] || Before(s, segs[0], keys) then [s] + segs else [segs[0]] + InsertSegment(s, segs[1..], keys)
  }

  /** Stable order by start time, newest or oldest first, when the sort is on the timestamp. */
  function OrderSegments(segs: seq<Segment>, keys: seq<SortKey>): seq<Segment> {
    if segs == [] then [] else InsertSegment(segs[0], OrderSegments(segs[1..], keys), keys)
  }

  ghost predicate OrderedSegments(segs: seq<Segment>, keys: seq<SortKey>) {
    forall i, j | 0 <= i < j < |segs| :: Before(segs[i], segs[j], keys)
  }

  lemma {:induction false} InsertSegmentBag(s: Segment, segs: seq<Segment>, keys: seq<SortKey>)
    ensures multiset(InsertSegment(s, segs, keys)) == multiset{s} + multiset(segs)
    ensures forall t <- InsertSegment(s, segs, keys) :: t == s || t in segs
  {
    hide Before;
    if segs != [] && !Before(s, segs[0], keys) {
      InsertSegmentBag(s, segs[1..], keys);
      assert segs == [segs[0]] + segs[1..];
    }
  }

  lemma BeforeIsOrder(s: Segment, t: Segment, u: Segment, keys: seq<SortKey>)
    ensures Before(s, t, keys) || Before(t, s, keys)
    ensures Before(s, t, keys) && Before(t, u, keys) ==> Before(s, u, keys)
  {
  }

  lemma {:induction false} InsertSegmentOrders(s: Segment, segs: seq<Segment>, keys: seq<SortKey>)
    requires OrderedSegments(segs, keys)
    ensures OrderedSegments(InsertSegment(s, segs, keys), keys)
  {
    hide Before;
    if segs == [] {
    } else if Before(s, segs[0], keys) {
      forall j | 0 <= j < |segs| ensures Before(s, segs[j], keys) {
        BeforeIsOrder(s, segs[0], segs[j], keys);
      }
    } else {
      var rest := InsertSegment(s, segs[1..], keys);
      InsertSegmentOrders(s, segs[1..], keys);
      InsertSegmentBag(s, segs[1..], keys);
      BeforeIsOrder(s, segs[0], s, keys);
      forall j | 0 <= j < |rest| ensures Before(segs[0], rest[j], keys) {
        if rest[j] != s {
          assert rest[j] in segs[1..];
        }
      }
    }
  }

  lemma {:induction false} OrderSegmentsOrders(segs: seq<Segment>, keys: seq<SortKey>)
    ensures OrderedSegments(OrderSegments(segs, keys), keys) && multiset(OrderSegments(segs, keys)) == multiset(segs)
  {
    if segs != [] {
      OrderSegmentsOrders(segs[1..], keys);
      InsertSegmentOrders(segs[0], OrderSegments(segs[1..], keys), keys);
      InsertSegmentBag(segs[0], OrderSegments(segs[1..], keys), keys);
      assert segs == [segs[0]] + segs[1..];
    }
  }

  /** Reordering segments does not change what matches. */
  lemma {:induction false} InsertSegmentMatches(s: Segment, segs: seq<Segment>, keys: seq<SortKey>,
                                                accept: Event -> bool)
    ensures multiset(AllMatches(InsertSegment(s, segs, keys), accept)) ==
              multiset(Matches(s, accept)) + multiset(AllMatches(segs, accept))
  {
    if segs != [] && !Before(s, segs[0], keys) {
      InsertSegmentMatches(s, segs[1..], keys, accept);
      assert ([segs[0]] + InsertSegment(s, segs[1..], keys))[1..] == InsertSegment(s, segs[1..], keys);
    } else {
      assert ([s] + segs)[1..] == segs;
    }
  }

  lemma {:induction false} OrderSegmentsMatches(segs: seq<Segment>, keys: seq<SortKey>, accept: Event -> bool)
    ensures multiset(AllMatches(OrderSegments(segs, keys), accept)) == multiset(AllMatches(segs, accept))
  {
    if segs != [] {
      OrderSegmentsMatches(segs[1..], keys, accept);
      InsertSegmentMatches(segs[0], OrderSegments(segs[1..], keys), keys, accept);
    }
  }

  /** No match of a later-visited segment sorts before one of an earlier-visited segment. */
  ghost predicate Layered(segs: seq<Segment>, accept: Event -> bool, keys: seq<SortKey>) {
    forall i, j | 0 <= i < j < |segs| ::
      AllAtMost(multiset(Matches(segs[i], accept)), multiset(Matches(segs[j], accept)), keys)
  }

  /** s starts before t and all its rows are older: what windows keep apart, whether their
      recorded end is the window's own or the newest row's. */
  ghost predicate Precedes(s: Segment, t: Segment) {
    s.timeStart < t.timeStart && forall x, y | x in s.rows && y in t.rows :: x.timestamp < y.timestamp
  }

  ghost predicate Apart(s: Segment, t: Segment) {
    Precedes(s, t) || Precedes(t, s)
  }

  ghost predicate TimeDisjoint(segs: seq<Segment>) {
    forall i, j | 0 <= i < j < |segs| :: Apart(segs[i], segs[j])
  }

  lemma {:induction false} MatchesAreRows(rows: seq<Event>, id: string, accept: Event -> bool)
    ensures forall h <- FilterRows(rows, id, accept) :: h.ev in rows && accept(h.ev) && h.segment == id
  {
    if rows != [] {
      MatchesAreRows(rows[1..], id, accept);
    }
  }

  lemma {:induction false} InsertKeepsDisjoint(s: Segment, segs: seq<Segment>, keys: seq<SortKey>)
    requires TimeDisjoint(segs) && forall t <- segs :: Apart(s, t)
    ensures TimeDisjoint(InsertSegment(s, segs, keys))
    ensures forall t <- InsertSegment(s, segs, keys) :: t == s || t in segs
  {
    hide Precedes;
    if segs != [] && !Before(s, segs[0], keys) {
      InsertKeepsDisjoint(s, segs[1..], keys);
      var rest := InsertSegment(s, segs[1..], keys);
      assert segs[0] in segs && Apart(s, segs[0]);
      forall j | 0 <= j < |rest| ensures Apart(segs[0], rest[j]) {
        assert rest[j] in rest;
        if rest[j] != s {
          var k :| 0 <= k < |segs[1..]| && segs[1..][k] == rest[j];
          assert segs[k + 1] == rest[j];
        }
      }
    }
  }

  lemma {:induction false} OrderKeepsDisjoint(segs: seq<Segment>, keys: seq<SortKey>)
    requires TimeDisjoint(segs)
    ensures TimeDisjoint(OrderSegments(segs, keys))
    ensures forall t <- OrderSegments(segs, keys) :: t in segs
  {
    hide Apart;
    if segs != [] {
      assert TimeDisjoint(segs[1..]);
      OrderKeepsDisjoint(segs[1..], keys);
      forall t | t in OrderSegments(segs[1..], keys) ensures Apart(segs[0], t) {
        var k :| 0 <= k < |segs[1..]| && segs[1..][k] == t;
        assert segs[k + 1] == t;
      }
      InsertKeepsDisjoint(segs[0], OrderSegments(segs[1..], keys), keys);
    }
  }

  lemma ApartInOrder(s: Segment, t: Segment, accept: Event -> bool, keys: seq<SortKey>)
    requires TimestampFirst(keys) && Apart(s, t) && Before(s, t, keys)
    ensures AllAtMost(multiset(Matches(s, accept)), multiset(Matches(t, accept)), keys)
  {
    MatchesAreRows(s.rows, s.id, accept);
    MatchesAreRows(t.rows, t.id, accept);
    forall x, y | x in multiset(Matches(s, accept)) && y in multiset(Matches(t, accept)) ensures AtMost(x, y, keys) {
      assert x in Matches(s, accept) && y in Matches(t, accept);
      assert x.ev in s.rows && y.ev in t.rows;
    }
  }

  /** Segments whose rows do not interleave are layered once put in visiting order. */
  lemma DisjointSegmentsAreLayered(segs: seq<Segment>, accept: Event -> bool, keys: seq<SortKey>)
    requires TimestampFirst(keys) && TimeDisjoint(segs)
    ensures Layered(OrderSegments(segs, keys), accept, keys)
  {
    hide Apart, Before, TimestampFirst, AllAtMost, Matches;
    var out := OrderSegments(segs, keys);
    OrderSegmentsOrders(segs, keys);
    OrderKeepsDisjoint(segs, keys);
    forall i, j | 0 <= i < j < |out|
      ensures AllAtMost(multiset(Matches(out[i], accept)), multiset(Matches(out[j], accept)), keys)
    {
      ApartInOrder(out[i], out[j], accept, keys);
    }
  }

  // --------------------------------------------------- segments in a time range

  function Overlapping(store: seq<Segment>, from: int, to: int): seq<Segment> {
    if store == [] then []
    else
      (if !store[0].lost && store[0].timeStart <= to && store[0].timeEnd >= from then [store[0]] else []) +
      Overlapping(store[1..], from, to)
  }

  /** The catalog's listing, newest start first. */
  function SegmentsInRange(store: seq<Segment>, from: int, to: int): seq<Segment> {
    OrderSegments(Overlapping(store, from, to), [SortKey("timestamp", "desc")])
  }

  /** The recorded time range covers the rows the segment holds. */
  ghost predicate Covers(s: Segment) {
    forall ev <- s.rows :: s.timeStart <= ev.timestamp <= s.timeEnd
  }

  lemma {:induction false} NothingMatches(rows: seq<Event>, id: string, accept: Event -> bool)
    requires forall ev <- rows :: !accept(ev)
    ensures FilterRows(rows, id, accept) == []
  {
    if rows != [] {
      NothingMatches(rows[1..], id, accept);
    }
  }

  lemma {:induction false} SomethingMatches(rows: seq<Event>, id: string, accept: Event -> bool, ev: Event)
    requires ev in rows && accept(ev)
    ensures FilterRows(rows, id, accept) != []
  {
    if rows[0] != ev {
      SomethingMatches(rows[1..], id, accept, ev);
    }
  }

  predicate InRange(s: Segment, from: int, to: int) {
    !s.lost && s.timeStart <= to && s.timeEnd >= from
  }

  lemma OverlappingStep(store: seq<Segment>, from: int, to: int, accept: Event -> bool)
    requires store != []
    ensures AllMatches(Overlapping(store, from, to), accept) ==
            (if InRange(store[0], from, to) then Matches(store[0], accept) else []) +
              AllMatches(Overlapping(store[1..], from, to), accept)
  {
    hide Matches;
    var s, rest := store[0], Overlapping(store[1..], from, to);
    if InRange(s, from, to) {
      assert ([s] + rest)[1..] == rest;
    } else {
      assert [] + rest == rest;
    }
  }

  /** Pruning by the recorded ranges loses no match, given that the ranges cover the rows. */
  lemma {:induction false} PruningIsSound(store: seq<Segment>, from: int, to: int, accept: Event -> bool)
    requires forall s <- store :: (s.readable ==> Covers(s)) && (s.lost ==> !s.readable)
    requires forall ev :: accept(ev) ==> from <= ev.timestamp <= to
    ensures AllMatches(Overlapping(store, from, to), accept) == AllMatches(store, accept)
  {
    if store != [] {
      PruningIsSound(store[1..], from, to, accept);
      OverlappingStep(store, from, to, accept);
      if !InRange(store[0], from, to) && store[0].readable {
        NothingMatches(store[0].rows, store[0].id, accept);
      }
    }
  }

  /** Pruning never adds a match, and takes some away if a pruned segment has one. */
  lemma {:induction false} PruningIsSmaller(store: seq<Segment>, from: int, to: int, accept: Event -> bool, i: nat)
    requires i < |store| && !InRange(store[i], from, to) && Matches(store[i], accept) != []
    ensures |AllMatches(Overlapping(store, from, to), accept)| < |AllMatches(store, accept)|
  {
    hide Matches, InRange;
    OverlappingStep(store, from, to, accept);
    if i == 0 {
      PruningIsNotLarger(store[1..], from, to, accept);
    } else {
      PruningIsSmaller(store[1..], from, to, accept, i - 1);
    }
  }

  lemma {:induction false} PruningIsNotLarger(store: seq<Segment>, from: int, to: int, accept: Event -> bool)
    ensures |AllMatches(Overlapping(store, from, to), accept)| <= |AllMatches(store, accept)|
  {
    hide Matches, InRange;
    if store != [] {
      OverlappingStep(store, from, to, accept);
      PruningIsNotLarger(store[1..], from, to, accept);
    }
  }

  /** A request that is not refused is answered from every match of the whole store. */
  ghost predicate SeesEverything(store: seq<Segment>, accept: Event -> bool, req: Request) {
    Refusal(store, req).None? ==>
      multiset(AllMatches(SegmentsInRange(store, req.from, req.to), Selection(accept, req))) ==
        multiset(AllMatches(store, Selection(accept, req)))
  }

  lemma RangeLosesNothing(store: seq<Segment>, accept: Event -> bool, req: Request)
    requires forall s <- store :: (s.readable ==> Covers(s)) && (s.lost ==> !s.readable)
    ensures SeesEverything(store, accept, req)
  {
    hide Covers, Beyond;
    var full := Selection(accept, req);
    PruningIsSound(store, req.from, req.to, full);
    OrderSegmentsMatches(Overlapping(store, req.from, req.to), [SortKey("timestamp", "desc")], full);
  }

  /** A range on the side of an event that its segment's recorded range leaves out. */
  function MissingRange(s: Segment, ev: Event): Request {
    if ev.timestamp < s.timeStart then Request(ev.timestamp - 1, ev.timestamp, 0, Fine, [], 0, None)
    else Request(ev.timestamp, ev.timestamp + 1, 0, Fine, [], 0, None)
  }

  /** An event outside the recorded range of its segment is missed by a query for its very time. */
  lemma OutsiderIsMissed(store: seq<Segment>, i: nat, ev: Event)
    requires i < |store| && store[i].readable && ev in store[i].rows &&
             !(store[i].timeStart <= ev.timestamp <= store[i].timeEnd)
    ensures var req := MissingRange(store[i], ev);
            Refusal(store, req).None? && req.from <= ev.timestamp <= req.to &&
            !SeesEverything(store, (x: Event) => x == ev, req)
  {
    hide Matches, AllMatches, SegmentsInRange, Selection;
    var req, only := MissingRange(store[i], ev), (x: Event) => x == ev;
    var full := Selection(only, req);
    SelectedByItself(store[i], ev);
    ReadableMatches(store[i], full, ev);
    PruningIsSmaller(store, req.from, req.to, full, i);
    InRangeMatches(store, req.from, req.to, full);
  }

  lemma SelectedByItself(s: Segment, ev: Event)
    ensures Selection((x: Event) => x == ev, MissingRange(s, ev))(ev)
  {
    assert Beyond(ev, EffectiveKeys(MissingRange(s, ev).sort), None);
  }

  lemma InRangeMatches(store: seq<Segment>, from: int, to: int, accept: Event -> bool)
    ensures |multiset(AllMatches(SegmentsInRange(store, from, to), accept))| ==
              |AllMatches(Overlapping(store, from, to), accept)|
  {
    hide AllMatches, Overlapping;
    OrderSegmentsMatches(Overlapping(store, from, to), [SortKey("timestamp", "desc")], accept);
  }

  lemma ReadableMatches(s: Segment, accept: Event -> bool, ev: Event)
    requires s.readable && ev in s.rows && accept(ev)
    ensures Matches(s, accept) != []
  {
    SomethingMatches(s.rows, s.id, accept, ev);
  }

  /** Pruning by recorded ranges loses no match of any request if and only if the recorded range of
      every readable segment covers its rows. */
  lemma PruningIsExact(store: seq<Segment>)
    requires forall s <- store :: s.lost ==> !s.readable
    ensures (forall accept, req :: SeesEverything(store, accept, req)) <==>
            (forall s <- store | s.readable :: Covers(s))
  {
    hide SeesEverything, Refusal;
    if forall s <- store | s.readable :: Covers(s) {
      forall accept, req ensures SeesEverything(store, accept, req) {
        RangeLosesNothing(store, accept, req);
      }
    } else {
      var s :| s in store && s.readable && !Covers(s);
      var i :| 0 <= i < |store| && store[i] == s;
      var ev :| ev in s.rows && !(s.timeStart <= ev.timestamp <= s.timeEnd);
      OutsiderIsMissed(store, i, ev);
    }
  }

  // ------------------------------------------------------------------- running

  /** One segment's query. Callers rely only on the contract, so any order among ties will do. */
  method QuerySegment(s: Segment, accept: Event -> bool, keys: seq<SortKey>, n: nat) returns (hits: seq<Hit>)
    ensures FirstN(hits, multiset(Matches(s, accept)), n, keys)
  {
    var all := Matches(s, accept);
    SortThenTake(all, n, keys);
    hits := Cut(SortEvents(all, keys), n);
  }

  /** What the visiting loop has established after some segments: everything seen was kept, or
      enough was, and nothing left behind sorts before what was kept. */
  ghost predicate Gathered(kept: seq<Hit>, seen: multiset<Hit>, needed: nat, layered: bool, keys: seq<SortKey>) {
    multiset(kept) <= seen && |kept| <= needed &&
    (|kept| < needed ==> multiset(kept) == seen) &&
    (layered ==> AllAtMost(multiset(kept), seen - multiset(kept), keys))
  }

  lemma GatherMore(kept: seq<Hit>, seen: multiset<Hit>, hits: seq<Hit>, ms: multiset<Hit>, needed: nat, layered: bool,
                   keys: seq<SortKey>)
    requires Gathered(kept, seen, needed, layered, keys) && |kept| < needed
    requires FirstN(hits, ms, needed - |kept|, keys)
    requires layered ==> AllAtMost(seen, ms, keys)
    ensures Gathered(kept + hits, seen + ms, needed, layered, keys)
  {
    hide AtMost, Sorted;
    var now := kept + hits;
    assert multiset(now) == multiset(kept) + multiset(hits);
    assert (seen + ms) - multiset(now) == ms - multiset(hits);
    if |now| < needed {
      assert |multiset(hits)| == |hits| == |ms|;
      SubsetOfSameSize(multiset(hits), ms);
    }
  }

  lemma SubsetOfSameSize(a: multiset<Hit>, b: multiset<Hit>)
    requires a <= b && |a| == |b|
    ensures a == b
  {
    assert b == a + (b - a);
    assert |b - a| == 0;
  }

  lemma {:induction false} MatchesSoFar(segs: seq<Segment>, i: nat, accept: Event -> bool)
    requires i < |segs|
    ensures AllMatches(segs[..i + 1], accept) == AllMatches(segs[..i], accept) + Matches(segs[i], accept)
  {
    hide Matches;
    assert segs[..i + 1] == segs[..i] + [segs[i]];
    MatchesSplit(segs[..i], [segs[i]], accept);
    assert AllMatches([segs[i]], accept) == Matches(segs[i], accept) + AllMatches([], accept);
  }

  lemma {:induction false} MatchesSplit(a: seq<Segment>, b: seq<Segment>, accept: Event -> bool)
    ensures AllMatches(a + b, accept) == AllMatches(a, accept) + AllMatches(b, accept)
  {
    hide Matches;
    if a == [] {
      assert a + b == b;
      assert AllMatches(a, accept) + AllMatches(b, accept) == AllMatches(b, accept);
    } else {
      MatchesSplit(a[1..], b, accept);
      assert (a + b)[1..] == a[1..] + b;
      AppendAssociates(Matches(a[0], accept), AllMatches(a[1..], accept), AllMatches(b, accept));
    }
  }

  lemma AppendAssociates(a: seq<Hit>, b: seq<Hit>, c: seq<Hit>)
    ensures a + (b + c) == a + b + c
  {
  }

  lemma {:induction false} MatchOrigin(segs: seq<Segment>, accept: Event -> bool, h: Hit) returns (i: nat)
    requires h in AllMatches(segs, accept)
    ensures i < |segs| && h in Matches(segs[i], accept)
  {
    hide Matches;
    if h in Matches(segs[0], accept) {
      i := 0;
    } else {
      i := MatchOrigin(segs[1..], accept, h);
      i := i + 1;
    }
  }

  /** Layering separates what was visited from what was not. */
  lemma LayersAcross(segs: seq<Segment>, i: nat, accept: Event -> bool, keys: seq<SortKey>)
    requires Layered(segs, accept, keys) && i <= |segs|
    ensures AllAtMost(multiset(AllMatches(segs[..i], accept)), multiset(AllMatches(segs[i..], accept)), keys)
  {
    hide Matches, AllMatches, AtMost;
    var seen, rest := AllMatches(segs[..i], accept), AllMatches(segs[i..], accept);
    forall x, y | x in multiset(seen) && y in multiset(rest) ensures AtMost(x, y, keys) {
      assert x in seen && y in rest;
      var p := MatchOrigin(segs[..i], accept, x);
      var q := MatchOrigin(segs[i..], accept, y);
      assert segs[..i][p] == segs[p] && segs[i..][q] == segs[i + q];
      assert x in multiset(Matches(segs[p], accept)) && y in multiset(Matches(segs[i + q], accept));
    }
  }

  lemma LayerBelow(segs: seq<Segment>, i: nat, accept: Event -> bool, keys: seq<SortKey>)
    requires Layered(segs, accept, keys) && i < |segs|
    ensures AllAtMost(multiset(AllMatches(segs[..i], accept)), multiset(Matches(segs[i], accept)), keys)
  {
    hide Matches, AtMost, Layered;
    LayersAcross(segs, i, accept, keys);
    assert segs[i..][0] == segs[i];
    assert multiset(Matches(segs[i], accept)) <= multiset(AllMatches(segs[i..], accept));
  }

  /** Segments never visited cannot spoil what was gathered. */
  lemma StopEarly(segs: seq<Segment>, i: nat, accept: Event -> bool, keys: seq<SortKey>, kept: seq<Hit>, needed: nat)
    requires i <= |segs| && (i < |segs| ==> |kept| >= needed)
    requires Gathered(kept, multiset(AllMatches(segs[..i], accept)), needed, Layered(segs, accept, keys), keys)
    ensures Gathered(kept, multiset(AllMatches(segs, accept)), needed, Layered(segs, accept, keys), keys)
  {
    hide AllMatches, Layered, AtMost;
    if i == |segs| {
      assert segs[..i] == segs;
    } else {
      assert segs[..i] + segs[i..] == segs;
      MatchesSplit(segs[..i], segs[i..], accept);
      var seen, rest := multiset(AllMatches(segs[..i], accept)), multiset(AllMatches(segs[i..], accept));
      assert multiset(AllMatches(segs, accept)) == seen + rest;
      assert (seen + rest) - multiset(kept) == (seen - multiset(kept)) + rest;
      if Layered(segs, accept, keys) {
        LayersAcross(segs, i, accept, keys);
      }
    }
  }

  /** Visits segments in order and stops as soon as enough rows are in hand. */
  method GatherHits(segs: seq<Segment>, accept: Event -> bool, keys: seq<SortKey>, needed: nat) returns (kept: seq<Hit>)
    requires needed > 0
    ensures Gathered(kept, multiset(AllMatches(segs, accept)), needed, Layered(segs, accept, keys), keys)
  {
    hide AllMatches, Layered, Matches, Gathered, FirstN, AllAtMost;
    ghost var layered := Layered(segs, accept, keys);
    kept := [];
    var i := 0;
    NothingGathered(segs, accept, keys, needed);
    while i < |segs|
      invariant 0 <= i <= |segs|
      invariant Gathered(kept, multiset(AllMatches(segs[..i], accept)), needed, layered, keys)
    {
      if |kept| >= needed {
        break;
      }
      var hits := QuerySegment(segs[i], accept, keys, needed - |kept|);
      MatchesSoFar(segs, i, accept);
      if layered {
        LayerBelow(segs, i, accept, keys);
      }
      GatherMore(kept, multiset(AllMatches(segs[..i], accept)), hits, multiset(Matches(segs[i], accept)), needed,
                 layered, keys);
      kept := kept + hits;
      i := i + 1;
    }
    StopEarly(segs, i, accept, keys, kept, needed);
  }

  lemma NothingGathered(segs: seq<Segment>, accept: Event -> bool, keys: seq<SortKey>, needed: nat)
    requires needed > 0
    ensures Gathered([], multiset(AllMatches(segs[..0], accept)), needed, Layered(segs, accept, keys), keys)
  {
    hide Layered;
    assert segs[..0] == [];
  }

  /** What a successful run returns, for the matches of all segments: a sorted sub-collection of
      at most limit; a cursor exactly when more matches exist than fit; everything when none; and,
      when the visiting order is layered, exactly the first limit of the globally sorted matches. */
  ghost predicate Answer(r: Response, all: multiset<Hit>, limit: nat, layered: bool, keys: seq<SortKey>) {
    r.Page? && Sorted(r.hits, keys) && multiset(r.hits) <= all && |r.hits| <= limit &&
    (r.next.Some? <==> |all| > limit) &&
    (r.next.None? ==> multiset(r.hits) == all) &&
    (r.next.Some? ==> |r.hits| == limit > 0 && r.next == Some(CursorAt(r.hits[limit - 1]))) &&
    (layered ==> FirstN(r.hits, all, limit, keys))
  }

  function CursorAt(h: Hit): Cursor {
    Cursor(h.ev.timestamp, h.segment)
  }

  /** The final sort and cut. */
  function Finish(kept: seq<Hit>, limit: nat, keys: seq<SortKey>): Response
    requires limit > 0
  {
    var s := SortEvents(kept, keys);
    if |s| > limit then Page(s[..limit], Some(CursorAt(s[limit - 1]))) else Page(s, None)
  }

  lemma GatheredSizes(kept: seq<Hit>, all: multiset<Hit>, needed: nat, layered: bool, keys: seq<SortKey>)
    requires Gathered(kept, all, needed, layered, keys)
    ensures |kept| == if needed <= |all| then needed else |all|
  {
    hide AllAtMost;
    assert |multiset(kept)| == |kept|;
    assert all == multiset(kept) + (all - multiset(kept));
  }

  lemma FinishAnswer(kept: seq<Hit>, all: multiset<Hit>, limit: nat, layered: bool, keys: seq<SortKey>)
    requires limit > 0 && Gathered(kept, all, limit + 1, layered, keys)
    ensures Answer(Finish(kept, limit, keys), all, limit, layered, keys)
  {
    hide SortEvents, AllAtMost, Sorted;
    var s := SortEvents(kept, keys);
    SortIsSorted(kept, keys);
    SameLength(s, kept);
    GatheredSizes(kept, all, limit + 1, layered, keys);
    if |s| > limit {
      CutAnswer(s, all, limit, layered, keys);
    } else {
      WholeAnswer(s, all, limit, layered, keys);
    }
  }

  lemma CutAnswer(s: seq<Hit>, all: multiset<Hit>, limit: nat, layered: bool, keys: seq<SortKey>)
    requires |s| > limit > 0 && |all| > limit && Sorted(s, keys) && multiset(s) <= all
    requires layered ==> AllAtMost(multiset(s), all - multiset(s), keys)
    ensures Answer(Page(s[..limit], Some(CursorAt(s[limit - 1]))), all, limit, layered, keys)
  {
    hide AllAtMost, Sorted;
    PrefixAtMostRest(s, limit, keys);
    BagOfParts(s, limit);
    if layered {
      CutStaysBelow(multiset(s[..limit]), multiset(s[limit..]), all, keys);
    }
  }

  lemma WholeAnswer(s: seq<Hit>, all: multiset<Hit>, limit: nat, layered: bool, keys: seq<SortKey>)
    requires |s| <= limit && |s| == |all| && Sorted(s, keys) && multiset(s) == all
    ensures Answer(Page(s, None), all, limit, layered, keys)
  {
    hide AllAtMost, Sorted;
    assert all - multiset(s) == multiset{};
    NothingLeft(multiset(s), keys);
  }

  lemma NothingLeft(low: multiset<Hit>, keys: seq<SortKey>)
    ensures AllAtMost(low, multiset{}, keys)
  {
  }

  lemma CutStaysBelow(front: multiset<Hit>, back: multiset<Hit>, all: multiset<Hit>, keys: seq<SortKey>)
    requires front + back <= all
    requires AllAtMost(front, back, keys) && AllAtMost(front + back, all - (front + back), keys)
    ensures AllAtMost(front, all - front, keys)
  {
    hide AtMost;
    assert all - front == back + (all - (front + back));
  }

  /** The request checks, in the order they are made. */
  function Refusal(store: seq<Segment>, req: Request): Option<Error> {
    if req.to <= req.from then Some(InvalidTimeRange)
    else if req.maxRange > 0 && req.to - req.from > req.maxRange then Some(TimeRangeTooLarge)
    else if req.filter == TooDeep then Some(FilterTooDeep)
    else if req.filter == Illegal then Some(InvalidFilter)
    else if !ValidKeys(EffectiveKeys(req.sort)) then Some(InvalidSort)
    else if req.filter == NotCompilable then Some(InvalidFilter)
    else if req.cursor.Some? &&
            (forall s <- SegmentsInRange(store, req.from, req.to) :: s.id != req.cursor.value.segment) then
      Some(CursorInvalidated)
    else None
  }

  /** The answer as the request puts it: rows in the order of its sort keys, newest first if it has
      none; no more of them than its limit, a hundred if it sets none and never over a thousand, and
      exactly as many if there is a next page. */
  ghost predicate AsAsked(r: Response, req: Request)
    requires r.Page?
  {
    var keys := if req.sort == [] then [SortKey("timestamp", "desc")] else req.sort;
    var limit := if req.limit <= 0 then 100 else if req.limit > 1000 then 1000 else req.limit;
    (forall i, j | 0 <= i < j < |r.hits| :: InOrder(r.hits[i].ev, r.hits[j].ev, keys)) &&
    (req.sort == [] ==> forall i, j | 0 <= i < j < |r.hits| :: r.hits[i].ev.timestamp >= r.hits[j].ev.timestamp) &&
    |r.hits| <= limit && (r.next.Some? ==> |r.hits| == limit)
  }

  /** The sort keys accepted. */
  lemma KeysAccepted(keys: seq<SortKey>)
    ensures ValidKeys(keys) <==>
            forall k <- keys ::
              (k.field == "timestamp" || k.field == "service" || k.field == "level" || k.field == "host" ||
               k.field == "source") &&
              (k.order == "asc" || k.order == "desc")
    ensures ValidKeys(keys) ==> Sortable(keys)
  {
  }

  lemma AnswerIsAsAsked(r: Response, all: multiset<Hit>, req: Request, layered: bool)
    requires ValidKeys(EffectiveKeys(req.sort))
    requires Answer(r, all, EffectiveLimit(req.limit), layered, EffectiveKeys(req.sort))
    ensures r.Page? && AsAsked(r, req)
  {
    hide AllAtMost, Sorted, FirstN, InOrder;
    var keys := EffectiveKeys(req.sort);
    KeysAccepted(keys);
    SortedByColumns(r.hits, keys);
  }

  /** The visiting loop and the final sort and cut. */
  method Run(store: seq<Segment>, accept: Event -> bool, req: Request) returns (r: Response)
    ensures Refusal(store, req).Some? ==> r == Failed(Refusal(store, req).value)
    ensures Refusal(store, req).None? ==>
            var keys := EffectiveKeys(req.sort);
            var segs := SegmentsInRange(store, req.from, req.to);
            Answer(r, multiset(AllMatches(segs, Selection(accept, req))), EffectiveLimit(req.limit),
                   Layered(OrderSegments(segs, keys), Selection(accept, req), keys), keys)
    ensures Refusal(store, req).None? ==> r.Page? && AsAsked(r, req)
  {
    hide AllMatches, Layered, Selection, Answer, Gathered, OrderSegments, AsAsked;
    if req.to <= req.from {
      return Failed(InvalidTimeRange);
    }
    if req.maxRange > 0 && req.to - req.from > req.maxRange {
      return Failed(TimeRangeTooLarge);
    }
    if req.filter == TooDeep {
      return Failed(FilterTooDeep);
    }
    if req.filter == Illegal {
      return Failed(InvalidFilter);
    }
    var keys := EffectiveKeys(req.sort);
    if !ValidKeys(keys) {
      return Failed(InvalidSort);
    }
    if req.filter == NotCompilable {
      return Failed(InvalidFilter);
    }
    var segs := SegmentsInRange(store, req.from, req.to);
    if req.cursor.Some? {
      var known := HasSegment(segs, req.cursor.value.segment);
      if !known {
        return Failed(CursorInvalidated);
      }
    }
    var full := Selection(accept, req);
    var limit := EffectiveLimit(req.limit);
    var ordered := OrderSegments(segs, keys);
    OrderSegmentsMatches(segs, keys, full);
    var kept := GatherHits(ordered, full, keys, limit + 1);
    FinishAnswer(kept, multiset(AllMatches(ordered, full)), limit, Layered(ordered, full, keys), keys);
    r := Finish(kept, limit, keys);
    AnswerIsAsAsked(r, multiset(AllMatches(ordered, full)), req, Layered(ordered, full, keys));
  }

  method HasSegment(segs: seq<Segment>, id: string) returns (known: bool)
    ensures known <==> exists s <- segs :: s.id == id
  {
    known := false;
    for i := 0 to |segs|
      invariant !known && forall j | 0 <= j < i :: segs[j].id != id
    {
      if segs[i].id == id {
        return true;
      }
    }
  }
}

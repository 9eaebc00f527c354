/** Following NextCursor page by page over an unchanging store. */
module Paging {
  import opened Text
  import opened Events
  import opened Ordering
  import opened Executor

  // ------------------------------------------------ what a cursor leaves to come

  function Any(): Event -> bool {
    (ev: Event) => true
  }

  lemma {:induction false} CountInRows(rows: seq<Event>, id: string, accept: Event -> bool, h: Hit)
    ensures multiset(FilterRows(rows, id, accept))[h] == if accept(h.ev) then multiset(FilterRows(rows, id, Any()))[h]
            else 0
  {
    if rows != [] {
      CountInRows(rows[1..], id, accept, h);
    }
  }

  /** Filtering is pointwise: an accepted row occurs as often as it is stored, any other not at all. */
  lemma {:induction false} CountInSegments(segs: seq<Segment>, accept: Event -> bool, h: Hit)
    ensures multiset(AllMatches(segs, accept))[h] == if accept(h.ev) then multiset(AllMatches(segs, Any()))[h] else 0
  {
    if segs != [] {
      CountInRows(segs[0].rows, segs[0].id, accept, h);
      CountInSegments(segs[1..], accept, h);
    }
  }

  /** The matches a request can still return. */
  ghost function Remaining(segs: seq<Segment>, accept: Event -> bool, req: Request): multiset<Hit> {
    multiset(AllMatches(segs, Selection(accept, req)))
  }

  function At(req: Request, cursor: Option<Cursor>): Request {
    req.(cursor := cursor)
  }

  /** A later cursor keeps exactly the remaining matches strictly beyond it. */
  lemma CursorFilters(segs: seq<Segment>, accept: Event -> bool, req: Request, c: Option<Cursor>, d: Option<Cursor>,
                      h: Hit)
    requires Beyond(h.ev, EffectiveKeys(req.sort), d) ==> Beyond(h.ev, EffectiveKeys(req.sort), c)
    ensures Remaining(segs, accept, At(req, d))[h]
         == if Beyond(h.ev, EffectiveKeys(req.sort), d) then Remaining(segs, accept, At(req, c))[h] else 0
  {
    hide Beyond;
    CountInSegments(segs, Selection(accept, At(req, c)), h);
    CountInSegments(segs, Selection(accept, At(req, d)), h);
  }

  /** With the timestamp leading, "at most" orders timestamps, and a strictly later timestamp decides. */
  lemma TimestampDecides(x: Hit, y: Hit, keys: seq<SortKey>)
    requires TimestampFirst(keys)
    ensures AtMost(x, y, keys) ==> !Beyond(x.ev, keys, Some(CursorAt(y)))
    ensures Beyond(y.ev, keys, Some(CursorAt(x))) ==> AtMost(x, y, keys)
    ensures !Beyond(x.ev, keys, Some(CursorAt(y))) && !Beyond(y.ev, keys, Some(CursorAt(x))) ==>
              x.ev.timestamp == y.ev.timestamp
  {
  }

  lemma BeyondMovesOn(ev: Event, h: Hit, keys: seq<SortKey>, c: Option<Cursor>)
    requires TimestampFirst(keys) && Beyond(h.ev, keys, c) && Beyond(ev, keys, Some(CursorAt(h)))
    ensures Beyond(ev, keys, c)
  {
  }

  lemma RemainingIsBeyond(segs: seq<Segment>, accept: Event -> bool, req: Request, h: Hit)
    requires h in Remaining(segs, accept, req)
    ensures Beyond(h.ev, EffectiveKeys(req.sort), req.cursor)
  {
    CountInSegments(segs, Selection(accept, req), h);
  }

  // ------------------------------------------------------------ turning one page

  ghost predicate NoneBeyond(hs: seq<Hit>, keys: seq<SortKey>, c: Option<Cursor>) {
    forall h <- hs :: c.Some? && !Beyond(h.ev, keys, c)
  }

  /** The cursor points at the last hit of the page. */
  predicate CutAt(page: seq<Hit>, c: Cursor) {
    page != [] && c == CursorAt(page[|page| - 1])
  }

  lemma PageIsBehind(page: seq<Hit>, c: Cursor, keys: seq<SortKey>)
    requires TimestampFirst(keys) && Sorted(page, keys) && CutAt(page, c)
    ensures NoneBeyond(page, keys, Some(c))
  {
    hide AtMost, Beyond;
    forall h | h in page ensures !Beyond(h.ev, keys, Some(c)) {
      var i :| 0 <= i < |page| && page[i] == h;
      AtMostTransitive(h, page[|page| - 1], h, keys);
      TimestampDecides(h, page[|page| - 1], keys);
    }
  }

  /** A page and what the next cursor leaves are disjoint parts of what was there, and the next
      cursor leaves everything strictly beyond it. */
  lemma TurnPage(segs: seq<Segment>, accept: Event -> bool, req: Request, page: seq<Hit>, c: Cursor)
    requires TimestampFirst(EffectiveKeys(req.sort)) && Sorted(page, EffectiveKeys(req.sort)) && CutAt(page, c)
    requires multiset(page) <= Remaining(segs, accept, req)
    ensures multiset(page) + Remaining(segs, accept, At(req, Some(c))) <= Remaining(segs, accept, req)
    ensures forall h: Hit | Beyond(h.ev, EffectiveKeys(req.sort), Some(c)) ::
              Remaining(segs, accept, At(req, Some(c)))[h] == Remaining(segs, accept, req)[h]
    ensures forall ev | Beyond(ev, EffectiveKeys(req.sort), Some(c)) :: Beyond(ev, EffectiveKeys(req.sort), req.cursor)
  {
    hide Beyond, Remaining, AtMost, Sorted;
    var keys := EffectiveKeys(req.sort);
    var last := page[|page| - 1];
    assert last in multiset(page);
    RemainingIsBeyond(segs, accept, req, last);
    PageIsBehind(page, c, keys);
    forall ev | Beyond(ev, keys, Some(c)) ensures Beyond(ev, keys, req.cursor) {
      BeyondMovesOn(ev, last, keys, req.cursor);
    }
    assert At(req, req.cursor) == req;
    var now, next := Remaining(segs, accept, req), Remaining(segs, accept, At(req, Some(c)));
    forall h: Hit ensures next[h] == if Beyond(h.ev, keys, Some(c)) then now[h] else 0 {
      CursorFilters(segs, accept, req, req.cursor, Some(c), h);
    }
    forall h: Hit ensures (multiset(page) + next)[h] <= now[h] {
      if h in multiset(page) {
        assert h in page;
      }
    }
  }

  /** When the page is the first n of what remained, it and the next cursor together lose nothing
      if and only if no match left over shares the cursor's timestamp. */
  lemma PageLosesOnlyTies(segs: seq<Segment>, accept: Event -> bool, req: Request, page: seq<Hit>, c: Cursor, n: nat)
    requires TimestampFirst(EffectiveKeys(req.sort)) && CutAt(page, c)
    requires FirstN(page, Remaining(segs, accept, req), n, EffectiveKeys(req.sort))
    ensures multiset(page) + Remaining(segs, accept, At(req, Some(c))) == Remaining(segs, accept, req)
       <==> forall h | h in Remaining(segs, accept, req) - multiset(page) :: h.ev.timestamp != c.ts
    ensures forall h | h in Remaining(segs, accept, req) - multiset(page) - Remaining(segs, accept, At(req, Some(c))) ::
              h.ev.timestamp == c.ts
  {
    hide Remaining, AtMost, Sorted, Beyond;
    var keys := EffectiveKeys(req.sort);
    var now, next := Remaining(segs, accept, req), Remaining(segs, accept, At(req, Some(c)));
    TurnPage(segs, accept, req, page, c);
    PageIsBehind(page, c, keys);
    var last := page[|page| - 1];
    assert last in multiset(page);
    forall h | h in now - multiset(page) ensures Beyond(h.ev, keys, Some(c)) <==> h.ev.timestamp != c.ts {
      LeftOver(last, h, keys);
    }
    forall h: Hit ensures next[h] == if Beyond(h.ev, keys, Some(c)) then now[h] else 0 {
      if !Beyond(h.ev, keys, Some(c)) {
        if h in next {
          RemainingIsBeyond(segs, accept, At(req, Some(c)), h);
        }
      }
    }
    forall h: Hit | h in page ensures !Beyond(h.ev, keys, Some(c)) {
    }
    if forall h | h in now - multiset(page) :: h.ev.timestamp != c.ts {
      forall h: Hit ensures (multiset(page) + next)[h] == now[h] {
        if h !in now - multiset(page) && Beyond(h.ev, keys, Some(c)) {
          assert h !in page;
        }
      }
    } else {
      var h :| h in now - multiset(page) && h.ev.timestamp == c.ts;
      assert (multiset(page) + next)[h] < now[h];
    }
  }

  lemma LeftOver(last: Hit, h: Hit, keys: seq<SortKey>)
    requires TimestampFirst(keys) && AtMost(last, h, keys)
    ensures Beyond(h.ev, keys, Some(CursorAt(last))) <==> h.ev.timestamp != last.ev.timestamp
  {
  }

  // ------------------------------------------------------------ following cursors

  lemma SubLayers(segs: seq<Segment>, part: Event -> bool, full: Event -> bool, keys: seq<SortKey>)
    requires Layered(segs, full, keys)
    requires forall ev :: part(ev) ==> full(ev)
    ensures Layered(segs, part, keys)
  {
    hide AtMost, Matches;
    forall i, j | 0 <= i < j < |segs|
      ensures AllAtMost(multiset(Matches(segs[i], part)), multiset(Matches(segs[j], part)), keys)
    {
      SubMatches(segs[i], part, full);
      SubMatches(segs[j], part, full);
    }
  }

  lemma SubMatches(s: Segment, part: Event -> bool, full: Event -> bool)
    requires forall ev :: part(ev) ==> full(ev)
    ensures multiset(Matches(s, part)) <= multiset(Matches(s, full))
  {
    forall h: Hit ensures multiset(Matches(s, part))[h] <= multiset(Matches(s, full))[h] {
      CountInRows(s.rows, s.id, part, h);
      CountInRows(s.rows, s.id, full, h);
    }
  }

  lemma MatchIsInSegment(segs: seq<Segment>, accept: Event -> bool, h: Hit)
    requires h in AllMatches(segs, accept)
    ensures exists s <- segs :: s.id == h.segment
  {
    hide AllMatches;
    var i := MatchOrigin(segs, accept, h);
    MatchesAreRows(segs[i].rows, segs[i].id, accept);
    assert segs[i] in segs;
  }

  /** A cursor handed out for an unchanging store names a segment that is still there. */
  lemma CursorStaysValid(store: seq<Segment>, accept: Event -> bool, req: Request, h: Hit)
    requires Refusal(store, req).None?
    requires h in Remaining(SegmentsInRange(store, req.from, req.to), accept, req)
    ensures Refusal(store, At(req, Some(CursorAt(h)))).None?
  {
    hide SegmentsInRange, AllMatches, ValidKeys, EffectiveKeys, Beyond;
    var segs := SegmentsInRange(store, req.from, req.to);
    MatchIsInSegment(segs, Selection(accept, req), h);
  }

  ghost predicate NoTies(all: multiset<Hit>) {
    forall x, y | x in all && y in all && x.ev.timestamp == y.ev.timestamp :: x == y && all[x] == 1
  }

  ghost predicate SharesTimestamp(h: Hit, hs: seq<Hit>) {
    exists g <- hs :: g.ev.timestamp == h.ev.timestamp
  }

  /** The state between two pages: what was returned and what the cursor leaves are disjoint parts
      of the matches, everything returned lies behind the cursor, and, when the segments are
      layered, whatever is in neither part shares its timestamp with something returned. */
  ghost predicate Between(out: seq<Hit>, rest: multiset<Hit>, all: multiset<Hit>, c: Option<Cursor>, layered: bool,
                          keys: seq<SortKey>) {
    multiset(out) + rest <= all && Sorted(out, keys) && NoneBeyond(out, keys, c) &&
    (layered ==> forall h | h in all - multiset(out) - rest :: SharesTimestamp(h, out))
  }

  lemma AppendPage(out: seq<Hit>, page: seq<Hit>, rest: multiset<Hit>, c: Option<Cursor>, keys: seq<SortKey>)
    requires TimestampFirst(keys) && Sorted(out, keys) && Sorted(page, keys) && NoneBeyond(out, keys, c)
    requires forall h | h in rest :: Beyond(h.ev, keys, c)
    requires multiset(page) <= rest
    ensures Sorted(out + page, keys)
  {
    hide AtMost, Beyond;
    forall i, j | 0 <= i < |out| && 0 <= j < |page| ensures AtMost(out[i], page[j], keys) {
      assert out[i] in out && page[j] in multiset(page);
      BehindThenBeyond(out[i], page[j], keys, c);
    }
  }

  lemma BehindThenBeyond(x: Hit, y: Hit, keys: seq<SortKey>, c: Option<Cursor>)
    requires TimestampFirst(keys) && c.Some? && !Beyond(x.ev, keys, c) && Beyond(y.ev, keys, c)
    ensures AtMost(x, y, keys)
  {
  }

  /** One page further. */
  lemma NextPage(out: seq<Hit>, page: seq<Hit>, d: Cursor, segs: seq<Segment>, accept: Event -> bool, req: Request,
                 all: multiset<Hit>, n: nat, layered: bool)
    requires TimestampFirst(EffectiveKeys(req.sort)) && CutAt(page, d) && Sorted(page, EffectiveKeys(req.sort))
    requires Between(out, Remaining(segs, accept, req), all, req.cursor, layered, EffectiveKeys(req.sort))
    requires multiset(page) <= Remaining(segs, accept, req)
    requires layered ==> FirstN(page, Remaining(segs, accept, req), n, EffectiveKeys(req.sort))
    ensures Between(out + page, Remaining(segs, accept, At(req, Some(d))), all, Some(d), layered,
                    EffectiveKeys(req.sort))
    ensures |Remaining(segs, accept, At(req, Some(d)))| < |Remaining(segs, accept, req)|
  {
    hide Remaining, AtMost, Sorted, Beyond, FirstN;
    var keys := EffectiveKeys(req.sort);
    var now, next := Remaining(segs, accept, req), Remaining(segs, accept, At(req, Some(d)));
    TurnPage(segs, accept, req, page, d);
    PageIsBehind(page, d, keys);
    forall h | h in now ensures Beyond(h.ev, keys, req.cursor) {
      RemainingIsBeyond(segs, accept, req, h);
    }
    AppendPage(out, page, now, req.cursor, keys);
    assert multiset(out + page) == multiset(out) + multiset(page);
    Smaller(multiset(page), next, now);
    assert page[|page| - 1] in page;
    if layered {
      PageLosesOnlyTies(segs, accept, req, page, d, n);
      forall h | h in all - multiset(out + page) - next ensures SharesTimestamp(h, out + page) {
        if h in all - multiset(out) - now {
          var g :| g in out && g.ev.timestamp == h.ev.timestamp;
          assert g in out + page;
        } else {
          assert h in now - multiset(page) - next;
          assert page[|page| - 1] in out + page;
        }
      }
    }
    forall h | h in out + page ensures !Beyond(h.ev, keys, Some(d)) {
    }
  }

  lemma Smaller(page: multiset<Hit>, next: multiset<Hit>, now: multiset<Hit>)
    requires page + next <= now && page != multiset{}
    ensures |next| < |now|
  {
    assert now == page + next + (now - (page + next));
  }

  /** The last page takes all that was left. */
  lemma LastPage(out: seq<Hit>, page: seq<Hit>, rest: multiset<Hit>, all: multiset<Hit>, c: Option<Cursor>,
                 layered: bool, keys: seq<SortKey>)
    requires TimestampFirst(keys) && Between(out, rest, all, c, layered, keys) && Sorted(page, keys) &&
             multiset(page) == rest
    requires forall h | h in rest :: Beyond(h.ev, keys, c)
    ensures multiset(out + page) <= all && Sorted(out + page, keys)
    ensures layered ==> forall h | h in all - multiset(out + page) :: SharesTimestamp(h, out + page)
  {
    hide AtMost, Sorted, Beyond;
    AppendPage(out, page, rest, c, keys);
    assert multiset(out + page) == multiset(out) + rest;
    forall h | layered && h in all - multiset(out + page) ensures SharesTimestamp(h, out + page) {
      assert h in all - multiset(out) - rest;
      var g :| g in out && g.ev.timestamp == h.ev.timestamp;
      assert g in out + page;
    }
  }

  lemma TiedMeansReturned(h: Hit, out: seq<Hit>, all: multiset<Hit>)
    requires multiset(out) <= all && NoTies(all) && h in all && SharesTimestamp(h, out)
    ensures multiset(out)[h] == all[h]
  {
    var g :| g in out && g.ev.timestamp == h.ev.timestamp;
    assert g in multiset(out);
  }

  lemma WithoutTiesNothingIsLost(out: seq<Hit>, all: multiset<Hit>)
    requires multiset(out) <= all && NoTies(all)
    requires forall h | h in all - multiset(out) :: SharesTimestamp(h, out)
    ensures multiset(out) == all
  {
    hide NoTies, SharesTimestamp;
    forall h: Hit ensures multiset(out)[h] == all[h] {
      if h in all && SharesTimestamp(h, out) {
        TiedMeansReturned(h, out, all);
      }
    }
  }

  /** The restriction to distinct timestamps is needed: of two rows of the same instant read one
      per page, the second is never returned, although the cursor promised more. */
  lemma TiesAreLost(a: Event, b: Event)
    requires a != b && a.timestamp == b.timestamp == 5
    ensures var segs := [Segment("s", 5, 5, [a, b], true, false)];
            var req := Request(0, 10, 0, Fine, [SortKey("timestamp", "desc")], 1, None);
            Remaining(segs, Any(), req) == multiset{Hit(a, "s"), Hit(b, "s")} &&
            Remaining(segs, Any(), At(req, Some(CursorAt(Hit(a, "s"))))) == multiset{}
  {
    var segs := [Segment("s", 5, 5, [a, b], true, false)];
    var req := Request(0, 10, 0, Fine, [SortKey("timestamp", "desc")], 1, None);
    forall sel: Event -> bool ensures AllMatches(segs, sel) ==
      (if sel(a) then [Hit(a, "s")] else []) + (if sel(b) then [Hit(b, "s")] else [])
    {
      assert [a, b][1..] == [b] && [b][1..] == [];
      assert FilterRows([b], "s", sel) == (if sel(b) then [Hit(b, "s")] else []);
      assert AllMatches(segs, sel) == FilterRows([a, b], "s", sel) + AllMatches([], sel);
    }
    assert Selection(Any(), req)(a) && Selection(Any(), req)(b);
    assert !Selection(Any(), At(req, Some(CursorAt(Hit(a, "s")))))(a);
  }

  // ------------------------------------------------- what a whole run returns

  /** Strictly sooner in the order of the leading timestamp. */
  predicate Sooner(x: Hit, y: Hit, keys: seq<SortKey>)
    requires TimestampFirst(keys)
  {
    if keys[0].Desc() then x.ev.timestamp > y.ev.timestamp else x.ev.timestamp < y.ev.timestamp
  }

  lemma AtMostIsNotLater(x: Hit, y: Hit, keys: seq<SortKey>)
    requires TimestampFirst(keys) && AtMost(x, y, keys)
    ensures !Sooner(y, x, keys)
  {
  }

  lemma Fits(part: multiset<Hit>, a: multiset<Hit>, b: multiset<Hit>)
    requires part <= a + b && forall h | h in part :: h !in b
    ensures part <= a && |part| <= |a|
  {
    assert a == part + (a - part);
  }

  lemma PartsOf(s: seq<Hit>, n: nat)
    requires n <= |s|
    ensures multiset(s) == multiset(s[..n]) + multiset(s[n..]) && |multiset(s[..n])| == n
  {
    BagOfParts(s, n);
  }

  /** In a sorted list nothing before a position is later in time, and nothing from it on is sooner. */
  lemma SortedInTime(s: seq<Hit>, n: nat, keys: seq<SortKey>)
    requires TimestampFirst(keys) && Sorted(s, keys) && n < |s|
    ensures forall h | h in multiset(s[..n]) :: !Sooner(s[n], h, keys)
    ensures forall h | h in multiset(s[n..]) :: !Sooner(h, s[n], keys)
  {
    hide AtMost, Sooner;
    forall h | h in multiset(s[..n]) ensures !Sooner(s[n], h, keys) {
      assert h in s[..n];
      var i :| 0 <= i < n && s[i] == h;
      AtMostIsNotLater(h, s[n], keys);
    }
    forall h | h in multiset(s[n..]) ensures !Sooner(h, s[n], keys) {
      assert h in s[n..];
      var i :| n <= i < |s| && s[i] == h;
      AtMostTransitive(h, h, h, keys);
      AtMostIsNotLater(s[n], h, keys);
    }
  }

  /** A first part of some matches, in order: nothing left out sorts before it. */
  ghost predicate FirstPart(first: seq<Hit>, all: multiset<Hit>, keys: seq<SortKey>) {
    Sorted(first, keys) && multiset(first) <= all && AllAtMost(multiset(first), all - multiset(first), keys)
  }

  lemma WholeIsFirstPart(s: seq<Hit>, all: multiset<Hit>, keys: seq<SortKey>)
    requires Sorted(s, keys) && multiset(s) == all
    ensures FirstPart(s, all, keys)
  {
    hide AtMost, Sorted;
    assert all - multiset(s) == multiset{};
  }

  /** No more than m matches are sooner than the one at position m. */
  lemma FewAreSooner(part: multiset<Hit>, first: seq<Hit>, all: multiset<Hit>, m: nat, keys: seq<SortKey>)
    requires TimestampFirst(keys) && FirstPart(first, all, keys) && m < |first|
    requires part <= all && forall h | h in part :: Sooner(h, first[m], keys)
    ensures |part| <= m
  {
    hide AtMost, Sooner, Sorted;
    SortedInTime(first, m, keys);
    PartsOf(first, m);
    assert first[m] in multiset(first);
    forall h | h in all - multiset(first) ensures !Sooner(h, first[m], keys) {
      AtMostIsNotLater(first[m], h, keys);
    }
    Fits(part, multiset(first[..m]), multiset(first[m..]) + (all - multiset(first)));
  }

  lemma UpTo(s: seq<Hit>, n: nat, keys: seq<SortKey>)
    requires TimestampFirst(keys) && Sorted(s, keys) && 0 < n <= |s|
    ensures |multiset(s[..n])| == n && multiset(s[..n]) <= multiset(s)
    ensures forall h | h in multiset(s[..n]) :: !Sooner(s[n - 1], h, keys)
  {
    hide AtMost, Sooner, Sorted;
    SortedInTime(s, n - 1, keys);
    PartsOf(s, n);
    assert s[..n] == s[..n - 1] + [s[n - 1]];
    AtMostTransitive(s[n - 1], s[n - 1], s[n - 1], keys);
    AtMostIsNotLater(s[n - 1], s[n - 1], keys);
  }

  /** Two first parts of one length end at the same instant. */
  lemma SameEnd(s: seq<Hit>, first: seq<Hit>, all: multiset<Hit>, n: nat, keys: seq<SortKey>)
    requires TimestampFirst(keys) && FirstPart(s, all, keys) && FirstPart(first, all, keys)
    requires 0 < n <= |s| && n <= |first|
    ensures !Sooner(first[n - 1], s[n - 1], keys)
  {
    hide FirstPart;
    assert Sorted(first, keys) && multiset(first) <= all by {
      IsFirstPart(first, all, keys);
    }
    UpTo(first, n, keys);
    if Sooner(first[n - 1], s[n - 1], keys) {
      FewAreSooner(multiset(first[..n]), s, all, n - 1, keys);
    }
  }

  lemma IsFirstPart(first: seq<Hit>, all: multiset<Hit>, keys: seq<SortKey>)
    requires FirstPart(first, all, keys)
    ensures Sorted(first, keys) && multiset(first) <= all
    ensures AllAtMost(multiset(first), all - multiset(first), keys)
  {
  }

  /** The n-th and the next match in sorted order are of the same instant. */
  predicate TieAfter(s: seq<Hit>, n: nat) {
    0 < n < |s| && s[n - 1].ev.timestamp == s[n].ev.timestamp
  }

  /** Something left out by a first part shares the instant it ends at, exactly when a tie follows it
      in sorted order. */
  lemma LeftOverTie(s: seq<Hit>, first: seq<Hit>, all: multiset<Hit>, keys: seq<SortKey>)
    requires TimestampFirst(keys) && Sorted(s, keys) && multiset(s) == all
    requires FirstPart(first, all, keys) && first != []
    ensures (exists h :: h in all - multiset(first) && h.ev.timestamp == first[|first| - 1].ev.timestamp) <==>
            TieAfter(s, |first|)
  {
    hide AtMost, Sorted, FirstPart, Sooner;
    IsFirstPart(first, all, keys);
    WholeIsFirstPart(s, all, keys);
    var n, left := |first|, all - multiset(first);
    assert all == multiset(first) + left;
    if n == |s| {
      assert |left| == 0;
    } else {
      SameEnd(s, first, all, n, keys);
      SameEnd(first, s, all, n, keys);
      EqualTimes(s[n - 1], first[n - 1], keys);
      if TieAfter(s, n) {
        TieIsLeft(s, first, all, keys);
      } else {
        NothingTiedIsLeft(s, first, all, keys);
      }
    }
  }

  lemma EqualTimes(x: Hit, y: Hit, keys: seq<SortKey>)
    requires TimestampFirst(keys) && !Sooner(x, y, keys) && !Sooner(y, x, keys)
    ensures x.ev.timestamp == y.ev.timestamp
  {
  }

  lemma LeftIsNotSooner(first: seq<Hit>, all: multiset<Hit>, keys: seq<SortKey>)
    requires TimestampFirst(keys) && FirstPart(first, all, keys) && first != []
    ensures forall h | h in all - multiset(first) :: !Sooner(h, first[|first| - 1], keys)
  {
    hide AtMost, Sorted, Sooner;
    var x := first[|first| - 1];
    assert x in multiset(first);
    forall h | h in all - multiset(first) ensures !Sooner(h, x, keys) {
      AtMostIsNotLater(x, h, keys);
    }
  }

  lemma TieIsLeft(s: seq<Hit>, first: seq<Hit>, all: multiset<Hit>, keys: seq<SortKey>)
    requires TimestampFirst(keys) && Sorted(s, keys) && multiset(s) == all && FirstPart(first, all, keys) && first != []
    requires TieAfter(s, |first|) && s[|first| - 1].ev.timestamp == first[|first| - 1].ev.timestamp
    ensures exists h :: h in all - multiset(first) && h.ev.timestamp == first[|first| - 1].ev.timestamp
  {
    hide AtMost, Sorted, FirstPart, AllAtMost;
    IsFirstPart(first, all, keys);
    var n, left, x := |first|, all - multiset(first), first[|first| - 1];
    assert all == multiset(first) + left;
    UpTo(s, n + 1, keys);
    LeftIsNotSooner(first, all, keys);
    if forall h | h in left :: h.ev.timestamp != x.ev.timestamp {
      Fits(multiset(s[..n + 1]), multiset(first), left);
    }
  }

  lemma NothingTiedIsLeft(s: seq<Hit>, first: seq<Hit>, all: multiset<Hit>, keys: seq<SortKey>)
    requires TimestampFirst(keys) && Sorted(s, keys) && multiset(s) == all && FirstPart(first, all, keys) &&
             0 < |first| < |s|
    requires !TieAfter(s, |first|) && s[|first| - 1].ev.timestamp == first[|first| - 1].ev.timestamp
    ensures forall h | h in all - multiset(first) :: h.ev.timestamp != first[|first| - 1].ev.timestamp
  {
    hide AtMost, Sorted, FirstPart;
    IsFirstPart(first, all, keys);
    WholeIsFirstPart(s, all, keys);
    var n := |first|;
    UpTo(first, n, keys);
    UpTo(s, n + 1, keys);
    assert first[..n] == first && s[n - 1] in s[..n + 1] && s[n - 1] in multiset(s[..n + 1]);
    forall h | h in all - multiset(first) ensures h.ev.timestamp != first[n - 1].ev.timestamp {
      if h.ev.timestamp == first[n - 1].ev.timestamp {
        assert multiset(first) + multiset{h} <= all;
        FewAreSooner(multiset(first) + multiset{h}, s, all, n, keys);
      }
    }
  }

  /** The j-th page boundary falls between two matches of one instant. */
  predicate TieAtPage(s: seq<Hit>, limit: nat, j: nat) {
    TieAfter(s, j * limit)
  }

  /** No page boundary of the sorted matches falls between two matches of one instant. */
  ghost predicate Unsplit(s: seq<Hit>, limit: nat) {
    forall j: nat :: !TieAtPage(s, limit, j)
  }

  /** After k pages: nothing is lost yet, no boundary so far is a tie and what was returned is a first
      part; or something is lost and a boundary so far is a tie. */
  ghost predicate Exact(out: seq<Hit>, rest: multiset<Hit>, all: multiset<Hit>, s: seq<Hit>, limit: nat, k: nat,
                        keys: seq<SortKey>) {
    if multiset(out) + rest == all then
      |out| == k * limit && AllAtMost(multiset(out), rest, keys) && forall j: nat | j <= k :: !TieAtPage(s, limit, j)
    else exists j: nat :: j <= k && TieAtPage(s, limit, j)
  }

  lemma NoPageIsExact(all: multiset<Hit>, s: seq<Hit>, limit: nat, keys: seq<SortKey>)
    ensures Exact([], all, all, s, limit, 0, keys)
  {
    assert multiset([]) + all == all;
  }

  lemma NextPageIsExact(out: seq<Hit>, page: seq<Hit>, d: Cursor, segs: seq<Segment>, accept: Event -> bool,
                        req: Request, all: multiset<Hit>, s: seq<Hit>, limit: nat, k: nat)
    requires TimestampFirst(EffectiveKeys(req.sort)) && CutAt(page, d) && |page| == limit
    requires FirstN(page, Remaining(segs, accept, req), limit, EffectiveKeys(req.sort))
    requires Between(out, Remaining(segs, accept, req), all, req.cursor, true, EffectiveKeys(req.sort))
    requires Sorted(s, EffectiveKeys(req.sort)) && multiset(s) == all
    requires Exact(out, Remaining(segs, accept, req), all, s, limit, k, EffectiveKeys(req.sort))
    ensures Exact(out + page, Remaining(segs, accept, At(req, Some(d))), all, s, limit, k + 1, EffectiveKeys(req.sort))
  {
    hide Remaining, AtMost, Sorted, Beyond, TieAtPage;
    var keys := EffectiveKeys(req.sort);
    var now, next := Remaining(segs, accept, req), Remaining(segs, accept, At(req, Some(d)));
    TurnPage(segs, accept, req, page, d);
    assert multiset(out + page) == multiset(out) + multiset(page);
    if multiset(out) + now == all {
      forall h | h in now ensures Beyond(h.ev, keys, req.cursor) {
        RemainingIsBeyond(segs, accept, req, h);
      }
      AppendPage(out, page, now, req.cursor, keys);
      ExactStep(out, page, d, now, next, all, s, limit, k, keys) by {
        PageLosesOnlyTies(segs, accept, req, page, d, limit);
      }
    } else {
      StillLost(multiset(out), multiset(page), now, next, all);
      var j: nat :| j <= k && TieAtPage(s, limit, j);
    }
  }

  lemma StillLost(out: multiset<Hit>, page: multiset<Hit>, now: multiset<Hit>, next: multiset<Hit>, all: multiset<Hit>)
    requires out + now <= all && out + now != all && page + next <= now
    ensures out + page + next != all
  {
    assert all == out + now + (all - (out + now));
    assert out + now == out + page + next + (now - (page + next));
    assert |all - (out + now)| > 0;
  }

  lemma ExactStep(out: seq<Hit>, page: seq<Hit>, d: Cursor, now: multiset<Hit>, next: multiset<Hit>, all: multiset<Hit>,
                  s: seq<Hit>, limit: nat, k: nat, keys: seq<SortKey>)
    requires TimestampFirst(keys) && CutAt(page, d) && |page| == limit && FirstN(page, now, limit, keys)
    requires multiset(out) + now == all && Exact(out, now, all, s, limit, k, keys)
    requires Sorted(s, keys) && multiset(s) == all && Sorted(out + page, keys)
    requires multiset(page) + next <= now
    requires multiset(page) + next == now <==> forall h | h in now - multiset(page) :: h.ev.timestamp != d.ts
    ensures Exact(out + page, next, all, s, limit, k + 1, keys)
  {
    hide AtMost, Sorted, AllAtMost, TieAfter, FirstPart, FirstN, Exact;
    var first := out + page;
    SoFar(out, now, all, s, limit, k, keys);
    PartGrows(out, page, now, all, limit, keys);
    LeftOverTie(s, first, all, keys);
    NextBoundary(k, limit);
    WholeOrTied(first, page, now, next, all);
    assert first[|first| - 1] == page[|page| - 1];
    IsExact(first, next, all, s, limit, k, keys);
  }

  lemma SoFar(out: seq<Hit>, now: multiset<Hit>, all: multiset<Hit>, s: seq<Hit>, limit: nat, k: nat,
              keys: seq<SortKey>)
    requires multiset(out) + now == all && Exact(out, now, all, s, limit, k, keys)
    ensures |out| == k * limit && AllAtMost(multiset(out), now, keys) &&
            forall j: nat | j <= k :: !TieAtPage(s, limit, j)
  {
    hide AtMost, TieAtPage;
  }

  lemma PartGrows(out: seq<Hit>, page: seq<Hit>, now: multiset<Hit>, all: multiset<Hit>, limit: nat, keys: seq<SortKey>)
    requires multiset(out) + now == all && AllAtMost(multiset(out), now, keys) && Sorted(out + page, keys)
    requires FirstN(page, now, limit, keys)
    ensures FirstPart(out + page, all, keys) && all - multiset(out + page) == now - multiset(page)
    ensures multiset(out + page) == multiset(out) + multiset(page)
  {
    hide AtMost, Sorted;
    assert multiset(out + page) == multiset(out) + multiset(page);
    assert all - multiset(out + page) == now - multiset(page);
    BothBelow(out, page, now, keys);
  }

  lemma WholeOrTied(first: seq<Hit>, page: seq<Hit>, now: multiset<Hit>, next: multiset<Hit>, all: multiset<Hit>)
    requires multiset(page) + next <= now && multiset(first) <= all && all - multiset(first) == now - multiset(page)
    ensures multiset(first) + next == all <==> multiset(page) + next == now
    ensures multiset(first) + next == all ==> next == all - multiset(first)
  {
    assert now == multiset(page) + (now - multiset(page)) && all == multiset(first) + (all - multiset(first));
    if multiset(first) + next == all {
      assert next == all - multiset(first);
    }
    if multiset(page) + next == now {
      assert next == now - multiset(page);
    }
  }

  lemma IsExact(first: seq<Hit>, next: multiset<Hit>, all: multiset<Hit>, s: seq<Hit>, limit: nat, k: nat,
                keys: seq<SortKey>)
    requires |first| == (k + 1) * limit && FirstPart(first, all, keys)
    requires forall j: nat | j <= k :: !TieAtPage(s, limit, j)
    requires multiset(first) + next == all <==> !TieAfter(s, (k + 1) * limit)
    requires multiset(first) + next == all ==> next == all - multiset(first)
    ensures Exact(first, next, all, s, limit, k + 1, keys)
  {
    hide AtMost, TieAfter, Sorted;
    assert TieAtPage(s, limit, k + 1) <==> TieAfter(s, (k + 1) * limit);
    forall j: nat | j <= k + 1 && j != k + 1 ensures !TieAtPage(s, limit, j) {
    }
  }

  lemma NextBoundary(k: nat, limit: nat)
    ensures (k + 1) * limit == k * limit + limit
  {
  }

  lemma SameSize(s: seq<Hit>, all: multiset<Hit>)
    requires multiset(s) == all
    ensures |s| == |all|
  {
  }

  lemma BothBelow(out: seq<Hit>, page: seq<Hit>, now: multiset<Hit>, keys: seq<SortKey>)
    requires AllAtMost(multiset(out), now, keys) && AllAtMost(multiset(page), now - multiset(page), keys)
    ensures AllAtMost(multiset(out + page), now - multiset(page), keys)
  {
    hide AtMost;
    assert multiset(out + page) == multiset(out) + multiset(page);
  }

  /** With the last page, everything was returned if and only if no boundary was a tie. */
  lemma LastPageIsExact(out: seq<Hit>, page: seq<Hit>, all: multiset<Hit>, s: seq<Hit>, limit: nat, k: nat,
                        keys: seq<SortKey>)
    requires Exact(out, multiset(page), all, s, limit, k, keys) && multiset(s) == all && |page| <= limit
    ensures multiset(out + page) == all <==> Unsplit(s, limit)
  {
    hide AllAtMost;
    assert multiset(out + page) == multiset(out) + multiset(page);
    if multiset(out + page) == all {
      SameSize(s, all);
      SameSize(out + page, all);
      forall j: nat ensures !TieAtPage(s, limit, j) {
        if j > k {
          LaterBoundary(j, k, limit);
        }
      }
    }
  }

  lemma AtLeastTimes(a: nat, limit: nat)
    ensures a * limit >= 0
  {
  }

  lemma Distributes(a: nat, b: nat, limit: nat)
    ensures (a + b + 1) * limit == a * limit + b * limit + limit
  {
  }

  lemma LaterBoundary(j: nat, k: nat, limit: nat)
    requires j > k
    ensures j * limit >= k * limit + limit
  {
    AtLeastTimes(j - k - 1, limit);
    assert j == (j - k - 1) + k + 1;
    Distributes(j - k - 1, k, limit);
  }

  /** Sorts by time are those whose first key is the timestamp, and the one used when none is asked for. */
  lemma TimeLeads(sort: seq<SortKey>)
    ensures TimestampFirst(EffectiveKeys(sort)) <==> sort == [] || sort[0].field == "timestamp"
  {
  }

  /** Asking for the first page and then for every next one. No cursor is refused, nothing is
      returned twice, and the pages are in order. Layered segments lose only matches that tie with
      a returned one on the timestamp, and none at all if and only if no page boundary falls
      between two matches of one instant. */
  method FollowPages(store: seq<Segment>, accept: Event -> bool, req: Request) returns (out: seq<Hit>, failed: bool)
    requires (req.sort == [] || req.sort[0].field == "timestamp") && req.cursor.None?
    ensures failed <==> Refusal(store, req).Some?
    ensures !failed ==>
            var segs := SegmentsInRange(store, req.from, req.to);
            var keys := EffectiveKeys(req.sort);
            var all := Remaining(segs, accept, req);
            multiset(out) <= all && Sorted(out, keys) &&
            (Layered(OrderSegments(segs, keys), Selection(accept, req), keys) ==>
              (forall h | h in all - multiset(out) :: SharesTimestamp(h, out)) &&
              (NoTies(all) ==> multiset(out) == all)) &&
            (TimeDisjoint(segs) && NoTies(all) ==> multiset(out) == all)
    ensures !failed ==>
            var segs := SegmentsInRange(store, req.from, req.to);
            var keys := EffectiveKeys(req.sort);
            Layered(OrderSegments(segs, keys), Selection(accept, req), keys) || TimeDisjoint(segs) ==>
              (multiset(out) == Remaining(segs, accept, req) <==>
               Unsplit(SortEvents(AllMatches(segs, Selection(accept, req)), keys), EffectiveLimit(req.limit)))
  {
    hide AllMatches, SortEvents, Exact, Unsplit, EffectiveLimit, TimeDisjoint, Refusal, Layered, Remaining, Selection,
         Between, Sorted, AtMost, FirstN, SegmentsInRange, OrderSegments, NoTies, SharesTimestamp, EffectiveKeys;
    TimeLeads(req.sort);
    ghost var segs := SegmentsInRange(store, req.from, req.to);
    ghost var keys := EffectiveKeys(req.sort);
    ghost var layered := Layered(OrderSegments(segs, keys), Selection(accept, req), keys);
    ghost var all := Remaining(segs, accept, req);
    ghost var sorted, limit := SortEvents(AllMatches(segs, Selection(accept, req)), keys), EffectiveLimit(req.limit);
    ghost var k: nat := 0;
    SortedMatches(segs, accept, req);
    NoPageIsExact(all, sorted, limit, keys);
    out := [];
    var r := Run(store, accept, req);
    if r.Failed? {
      return [], true;
    }
    failed := false;
    var ask := req;
    assert At(req, None) == req;
    NothingYet(all, layered, keys);
    IsReply(r, segs, accept, ask, layered, layered, keys);
    while r.next.Some?
      invariant r.Page? && ask == At(req, ask.cursor) && Refusal(store, ask).None?
      invariant Between(out, Remaining(segs, accept, ask), all, ask.cursor, layered, keys)
      invariant Replied(r, segs, accept, ask, layered, keys)
      invariant layered ==> Exact(out, Remaining(segs, accept, ask), all, sorted, limit, k, keys)
      decreases |Remaining(segs, accept, ask)|
    {
      var d := r.next.value;
      PageFacts(r, segs, accept, ask, layered, keys);
      NextPage(out, r.hits, d, segs, accept, ask, all, EffectiveLimit(req.limit), layered);
      if layered {
        NextPageIsExact(out, r.hits, d, segs, accept, ask, all, sorted, limit, k);
      }
      k := k + 1;
      CursorStaysValid(store, accept, ask, r.hits[|r.hits| - 1]);
      out := out + r.hits;
      ask := ask.(cursor := Some(d));
      r := Run(store, accept, ask);
      if layered {
        LaterPagesAreLayered(OrderSegments(segs, keys), accept, req, ask.cursor, keys);
      }
      IsReply(r, segs, accept, ask, layered, Layered(OrderSegments(segs, keys), Selection(accept, ask), keys), keys);
    }
    LastFacts(r, segs, accept, ask, layered, keys);
    LastPage(out, r.hits, Remaining(segs, accept, ask), all, ask.cursor, layered, keys);
    if layered {
      LastPageIsExact(out, r.hits, all, sorted, limit, k, keys);
    }
    out := out + r.hits;
    if TimeDisjoint(segs) {
      DisjointSegmentsAreLayered(segs, Selection(accept, req), keys);
    }
    if layered && NoTies(all) {
      WithoutTiesNothingIsLost(out, all);
    }
  }

  lemma SortedMatches(segs: seq<Segment>, accept: Event -> bool, req: Request)
    ensures var s := SortEvents(AllMatches(segs, Selection(accept, req)), EffectiveKeys(req.sort));
            Sorted(s, EffectiveKeys(req.sort)) && multiset(s) == Remaining(segs, accept, req)
  {
    SortIsSorted(AllMatches(segs, Selection(accept, req)), EffectiveKeys(req.sort));
  }

  lemma NothingYet(all: multiset<Hit>, layered: bool, keys: seq<SortKey>)
    ensures Between([], all, all, None, layered, keys)
  {
    assert multiset([]) + all == all;
    assert all - multiset([]) - all == multiset{};
  }

  /** A page of the request, layered or not. */
  ghost predicate Replied(r: Response, segs: seq<Segment>, accept: Event -> bool, ask: Request, layered: bool,
                          keys: seq<SortKey>) {
    keys == EffectiveKeys(ask.sort) &&
    exists l: bool :: (layered ==> l) && Answer(r, Remaining(segs, accept, ask), EffectiveLimit(ask.limit), l, keys)
  }

  lemma IsReply(r: Response, segs: seq<Segment>, accept: Event -> bool, ask: Request, layered: bool, l: bool,
                keys: seq<SortKey>)
    requires keys == EffectiveKeys(ask.sort) && (layered ==> l)
    requires Answer(r, multiset(AllMatches(segs, Selection(accept, ask))), EffectiveLimit(ask.limit), l, keys)
    ensures Replied(r, segs, accept, ask, layered, keys)
  {
    assert Answer(r, Remaining(segs, accept, ask), EffectiveLimit(ask.limit), l, keys);
  }

  lemma LaterPagesAreLayered(segs: seq<Segment>, accept: Event -> bool, req: Request, c: Option<Cursor>,
                             keys: seq<SortKey>)
    requires req.cursor.None? && Layered(segs, Selection(accept, req), keys)
    ensures Layered(segs, Selection(accept, At(req, c)), keys)
  {
    hide Layered;
    var part, full := Selection(accept, At(req, c)), Selection(accept, req);
    forall ev | part(ev) ensures full(ev) {
      assert Beyond(ev, EffectiveKeys(req.sort), None);
    }
    SubLayers(segs, part, full, keys);
  }

  lemma PageFacts(r: Response, segs: seq<Segment>, accept: Event -> bool, ask: Request, layered: bool,
                  keys: seq<SortKey>)
    requires Replied(r, segs, accept, ask, layered, keys) && r.Page? && r.next.Some?
    ensures CutAt(r.hits, r.next.value) && Sorted(r.hits, keys) && multiset(r.hits) <= Remaining(segs, accept, ask)
    ensures r.hits[|r.hits| - 1] in Remaining(segs, accept, ask) && CursorAt(r.hits[|r.hits| - 1]) == r.next.value
    ensures layered ==> FirstN(r.hits, Remaining(segs, accept, ask), EffectiveLimit(ask.limit), keys)
    ensures |r.hits| == EffectiveLimit(ask.limit)
  {
    hide Sorted, Remaining, FirstN;
    assert r.hits[|r.hits| - 1] in multiset(r.hits);
  }

  lemma LastFacts(r: Response, segs: seq<Segment>, accept: Event -> bool, ask: Request, layered: bool,
                  keys: seq<SortKey>)
    requires Replied(r, segs, accept, ask, layered, keys) && r.Page? && r.next.None?
    ensures Sorted(r.hits, keys) && multiset(r.hits) == Remaining(segs, accept, ask)
    ensures |r.hits| <= EffectiveLimit(ask.limit)
    ensures forall h | h in Remaining(segs, accept, ask) :: Beyond(h.ev, keys, ask.cursor)
  {
    hide Sorted, Remaining, FirstN, Beyond;
    forall h | h in Remaining(segs, accept, ask) ensures Beyond(h.ev, keys, ask.cursor) {
      RemainingIsBeyond(segs, accept, ask, h);
    }
  }
}

/** A whole query, from the filter and the search text to the answer: the checks, the clause it
    runs, and the segments it visits. */
module Query {
  import opened Text
  import F = Filter
  import opened Events
  import opened Ordering
  import opened Compiler
  import opened Matcher
  import opened Agreement
  import opened Where
  import E = Executor

  /** Validation comes before compilation. */
  function CheckOf(env: Env, filter: Option<F.Node>): E.FilterCheck {
    match filter
    case None => E.Fine
    case Some(n) =>
      match F.Validate(n)
      case TooDeep => E.TooDeep
      case Illegal => E.Illegal
      case Legal => if Compile(env, n).Success? then E.Fine else E.NotCompilable
  }

  predicate Compiles(env: Env, filter: Option<F.Node>) {
    filter.Some? ==> Compile(env, filter.value).Success?
  }

  /** The parts of the clause that a request combines. */
  function Parts(filter: Option<F.Node>, search: string, req: E.Request, env: Env): seq<Part> {
    var keys := E.EffectiveKeys(req.sort);
    [TimeRange(req.from, req.to)] +
    (if filter.Some? then [Tree(filter.value)] else []) +
    (if TrimSpace(env, search) != "" then [Search(search)] else []) +
    if req.cursor.Some? && E.TimestampFirst(keys) then
      [After(keys[0].Desc(), req.cursor.value.ts, req.cursor.value.segment)]
    else []
  }

  lemma PartsAreUsable(env: Env, filter: Option<F.Node>, search: string, req: E.Request)
    requires Compiles(env, filter)
    ensures forall p <- Parts(filter, search, req, env) :: Usable(env, p)
  {
    hide Compile, TrimSpace;
  }

  /** The WHERE clause of a request. */
  function Clause(env: Env, filter: Option<F.Node>, search: string, req: E.Request): Fragment
    requires Compiles(env, filter)
  {
    PartsAreUsable(env, filter, search, req);
    CombineAnd(FragmentsOf(env, Parts(filter, search, req, env)))
  }

  /** What the filter and the search text select. */
  function Accept(env: Env, filter: Option<F.Node>, search: string): Event -> bool
    requires Compiles(env, filter)
  {
    (ev: Event) => (filter.Some? ==> Selects(env, Compile(env, filter.value).value, ev)) && MatchSearch(env, search, ev)
  }

  /** What the clause selects. */
  function ByClause(env: Env, filter: Option<F.Node>, search: string, req: E.Request): Event -> bool
    requires Compiles(env, filter)
  {
    (ev: Event) => Selects(env, Clause(env, filter, search, req), ev)
  }

  /** The executor's selection is exactly the clause it sends to every segment. */
  lemma SelectionIsTheClause(env: Env, filter: Option<F.Node>, search: string, req: E.Request, ev: Event)
    requires Lawful(env) && Compiles(env, filter)
    ensures E.Selection(Accept(env, filter, search), req)(ev) <==> Selects(env, Clause(env, filter, search, req), ev)
  {
    hide Compile, TrimSpace, Selects, CombineAnd;
    PartsAreUsable(env, filter, search, req);
    WhereSelects(env, Parts(filter, search, req, env), ev);
    PartsAccept(env, filter, search, req, ev);
  }

  lemma PartsAccept(env: Env, filter: Option<F.Node>, search: string, req: E.Request, ev: Event)
    requires Compiles(env, filter) && forall p <- Parts(filter, search, req, env) :: Usable(env, p)
    ensures (forall p <- Parts(filter, search, req, env) :: Accepts(env, p, ev)) <==>
            E.Selection(Accept(env, filter, search), req)(ev)
  {
    hide Compile, TrimSpace, Selects;
    var ps, keys := Parts(filter, search, req, env), E.EffectiveKeys(req.sort);
    assert TimeRange(req.from, req.to) in ps;
    assert filter.Some? ==> Tree(filter.value) in ps;
    assert TrimSpace(env, search) != "" ==> Search(search) in ps;
    assert req.cursor.Some? && E.TimestampFirst(keys) ==>
             After(keys[0].Desc(), req.cursor.value.ts, req.cursor.value.segment) in ps;
  }

  /** Selections that agree on every event find the same. */
  lemma {:induction false} SameMatches(segs: seq<E.Segment>, f: Event -> bool, g: Event -> bool)
    requires forall ev :: f(ev) == g(ev)
    ensures E.AllMatches(segs, f) == E.AllMatches(segs, g)
  {
    if segs != [] {
      SameRowsMatch(segs[0].rows, segs[0].id, f, g);
      SameMatches(segs[1..], f, g);
    }
  }

  lemma {:induction false} SameRowsMatch(rows: seq<Event>, id: string, f: Event -> bool, g: Event -> bool)
    requires forall ev :: f(ev) == g(ev)
    ensures E.FilterRows(rows, id, f) == E.FilterRows(rows, id, g)
  {
    if rows != [] {
      SameRowsMatch(rows[1..], id, f, g);
    }
  }

  /** The errors of a query, in the order they are found. */
  function Refused(env: Env, store: seq<E.Segment>, filter: Option<F.Node>, req: E.Request): Option<E.Error> {
    if req.to <= req.from then Some(E.InvalidTimeRange)
    else if req.maxRange > 0 && req.to - req.from > req.maxRange then Some(E.TimeRangeTooLarge)
    else if filter.Some? && F.Validate(filter.value) == F.TooDeep then Some(E.FilterTooDeep)
    else if filter.Some? && F.Validate(filter.value) == F.Illegal then Some(E.InvalidFilter)
    else if !E.ValidKeys(E.EffectiveKeys(req.sort)) then Some(E.InvalidSort)
    else if !Compiles(env, filter) then Some(E.InvalidFilter)
    else if req.cursor.Some? &&
            (forall s <- E.SegmentsInRange(store, req.from, req.to) :: s.id != req.cursor.value.segment) then
      Some(E.CursorInvalidated)
    else None
  }

  lemma SameLayers(segs: seq<E.Segment>, f: Event -> bool, g: Event -> bool, keys: seq<SortKey>)
    requires forall ev :: f(ev) == g(ev)
    ensures E.Layered(segs, f, keys) == E.Layered(segs, g, keys)
  {
    forall i | 0 <= i < |segs| ensures E.Matches(segs[i], f) == E.Matches(segs[i], g) {
      SameRowsMatch(segs[i].rows, segs[i].id, f, g);
    }
  }

  /** The request with what checking its filter says. */
  function Checked(env: Env, filter: Option<F.Node>, req: E.Request): E.Request {
    req.(filter := CheckOf(env, filter))
  }

  lemma RefusedInOrder(env: Env, store: seq<E.Segment>, filter: Option<F.Node>, req: E.Request)
    ensures E.Refusal(store, Checked(env, filter, req)) == Refused(env, store, filter, req)
    ensures Refused(env, store, filter, req).None? ==> Compiles(env, filter)
  {
    hide E.SegmentsInRange, E.EffectiveKeys, E.ValidKeys, F.Validate, Compile;
  }

  /** All that the clause selects from these segments. */
  ghost function Selected(env: Env, segs: seq<E.Segment>, filter: Option<F.Node>, search: string,
                          req: E.Request): multiset<Hit>
    requires Compiles(env, filter)
  {
    multiset(E.AllMatches(segs, ByClause(env, filter, search, req)))
  }

  lemma SelectedByClause(env: Env, segs: seq<E.Segment>, filter: Option<F.Node>, search: string, req: E.Request)
    requires Lawful(env) && Compiles(env, filter)
    ensures multiset(E.AllMatches(segs, E.Selection(Accept(env, filter, search), Checked(env, filter, req)))) ==
              Selected(env, segs, filter, search, req)
    ensures E.Layered(segs, E.Selection(Accept(env, filter, search), Checked(env, filter, req)),
                      E.EffectiveKeys(req.sort)) ==
            E.Layered(segs, ByClause(env, filter, search, req), E.EffectiveKeys(req.sort))
  {
    hide E.Layered, E.AllMatches, Accept, Clause, Selects, CheckOf;
    var f, g := E.Selection(Accept(env, filter, search), Checked(env, filter, req)), ByClause(env, filter, search, req);
    forall ev ensures f(ev) == g(ev) {
      SelectionIsTheClause(env, filter, search, Checked(env, filter, req), ev);
      SameClause(env, filter, search, req);
    }
    SameMatches(segs, f, g);
    SameLayers(segs, f, g, E.EffectiveKeys(req.sort));
  }

  lemma SameRequest(r: E.Response, req: E.Request, asked: E.Request)
    requires asked.sort == req.sort && asked.limit == req.limit
    ensures r.Page? ==> (E.AsAsked(r, asked) <==> E.AsAsked(r, req))
  {
    hide InOrder;
  }

  lemma SameClause(env: Env, filter: Option<F.Node>, search: string, req: E.Request)
    requires Compiles(env, filter)
    ensures Clause(env, filter, search, Checked(env, filter, req)) == Clause(env, filter, search, req)
  {
  }

  /** A query answers from what its clause selects; and if the recorded ranges cover the rows, from
      all that its clause selects of the whole store. */
  method Run(env: Env, store: seq<E.Segment>, filter: Option<F.Node>, search: string, req: E.Request)
    returns (r: E.Response)
    requires Lawful(env)
    ensures var refused := Refused(env, store, filter, req);
            (refused.Some? ==> r == E.Failed(refused.value)) && (refused.None? ==> Compiles(env, filter))
    ensures Refused(env, store, filter, req).None? ==>
            var segs, keys := E.SegmentsInRange(store, req.from, req.to), E.EffectiveKeys(req.sort);
            E.Answer(r, Selected(env, segs, filter, search, req), E.EffectiveLimit(req.limit),
                     E.Layered(E.OrderSegments(segs, keys), ByClause(env, filter, search, req), keys), keys)
    ensures Refused(env, store, filter, req).None? ==> r.Page? && E.AsAsked(r, req)
    ensures Refused(env, store, filter, req).None? &&
            (forall s <- store :: (s.readable ==> E.Covers(s)) && (s.lost ==> !s.readable)) ==>
            Selected(env, E.SegmentsInRange(store, req.from, req.to), filter, search, req) ==
              Selected(env, store, filter, search, req)
  {
    hide E.Layered, E.AllMatches, E.Refusal, E.SegmentsInRange, E.OrderSegments, E.Answer, E.AsAsked, Refused, Accept,
         Selected, ByClause, Compile, CheckOf;
    RefusedInOrder(env, store, filter, req);
    var asked := Checked(env, filter, req);
    if !Compiles(env, filter) {
      r := E.Run(store, (ev: Event) => false, asked);
      return;
    }
    var accept := Accept(env, filter, search);
    r := E.Run(store, accept, asked);
    SameRequest(r, req, asked);
    ghost var segs := E.SegmentsInRange(store, req.from, req.to);
    SelectedByClause(env, segs, filter, search, req);
    SelectedByClause(env, E.OrderSegments(segs, E.EffectiveKeys(req.sort)), filter, search, req);
    SelectedByClause(env, store, filter, search, req);
    if forall s <- store :: (s.readable ==> E.Covers(s)) && (s.lost ==> !s.readable) {
      E.RangeLosesNothing(store, accept, asked);
    }
  }
}

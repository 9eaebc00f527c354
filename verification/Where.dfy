/** Whole WHERE clauses: time range, filter, free text and cursor combined, and the
    facet query built on top. */
module Where {
  import opened Text
  import F = Filter
  import opened Events
  import opened Sql
  import opened Compiler
  import opened ReadBack
  import opened Matcher
  import opened Agreement
  import Like

  /** The fragments a query combines. A cursor carries the timestamp and segment id of
      the last event of the page before. */
  datatype Part =
    | TimeRange(from: int, to: int)
    | Tree(n: F.Node)
    | Search(text: string)
    | After(desc: bool, ts: int, segment: string)

  const TS := Column("timestamp")

  function TimeFragment(from: int, to: int): Fragment {
    Fragment([COL("timestamp"), OP(CGe), PARAM, AND, COL("timestamp"), OP(CLe), PARAM], [DTime(from), DTime(to)])
  }

  function CursorFragment(desc: bool, ts: int, segment: string): Fragment {
    Fragment(
      [LP, COL("timestamp"), OP(if desc then CLt else CGt), PARAM, OR,
       LP, COL("timestamp"), OP(CEq), PARAM, AND, PARAM, OP(CGt), PARAM, RP, RP],
      [DTime(ts), DTime(ts), DText(segment), DText(segment)])
  }

  /** A part that says something and compiles. */
  predicate Usable(env: Env, p: Part) {
    match p
    case Tree(n) => Compile(env, n).Success?
    case Search(text) => TrimSpace(env, text) != ""
    case _ => true
  }

  function FragmentOf(env: Env, p: Part): Fragment
    requires Usable(env, p)
  {
    match p
    case TimeRange(from, to) => TimeFragment(from, to)
    case Tree(n) => Compile(env, n).value
    case Search(text) => CompileSearch(env, text)
    case After(desc, ts, segment) => CursorFragment(desc, ts, segment)
  }

  function PartShape(env: Env, p: Part, k: nat): Expr
    requires Usable(env, p)
  {
    match p
    case TimeRange(_, _) => AllOf([Compare(CGe, TS, Arg(k)), Compare(CLe, TS, Arg(k + 1))])
    case Tree(n) => Shape(env, n, k)
    case Search(_) =>
      AnyOf([LikeTest(Lowered(Column("message")), Arg(k)), LikeTest(Lowered(Column("raw")), Arg(k + 1))])
    case After(desc, _, _) =>
      AnyOf([Compare(if desc then CLt else CGt, TS, Arg(k)),
             AllOf([Compare(CEq, TS, Arg(k + 1)), Compare(CGt, Arg(k + 2), Arg(k + 3))])])
  }

  /** What each part is meant to accept. */
  ghost predicate Accepts(env: Env, p: Part, ev: Event)
    requires Usable(env, p)
  {
    match p
    case TimeRange(from, to) => from <= ev.timestamp <= to
    case Tree(n) => Selects(env, Compile(env, n).value, ev)
    case Search(text) => MatchSearch(env, text, ev)
    case After(desc, ts, _) => if desc then ev.timestamp < ts else ev.timestamp > ts
  }

  // ----------------------------------------------------------------- reading

  lemma CompareParamReads(t: Tok, o: Operand, c: Cmp, k: nat)
    requires t == COL("timestamp") && o == TS
    ensures ReadsNot([t, OP(c), PARAM], k, Compare(c, o, Arg(k)), k + 1)
  {
    hide ReadPredicate;
    forall r {:trigger [t, OP(c), PARAM] + r}
      ensures ReadNot([t, OP(c), PARAM] + r, k) == Got(Compare(c, o, Arg(k)), r, k + 1)
    {
      CompareReads("timestamp", false, c, r, k);
      assert Wrap(false, ColumnTok("timestamp")) + [OP(c)] + Wrap(false, PARAM) + r == [t, OP(c), PARAM] + r;
      PredicateIsNot([t, OP(c), PARAM] + r, k);
    }
  }

  lemma TimeReads(from: int, to: int, k: nat)
    ensures Reads(TimeFragment(from, to).sql, k, AllOf([Compare(CGe, TS, Arg(k)), Compare(CLe, TS, Arg(k + 1))]), k + 2)
  {
    hide ReadNot, ReadOr;
    CompareParamReads(COL("timestamp"), TS, CGe, k);
    CompareParamReads(COL("timestamp"), TS, CLe, k + 1);
    var a, b := [COL("timestamp"), OP(CGe), PARAM], [COL("timestamp"), OP(CLe), PARAM];
    PairReads(a, b, AND, k, Compare(CGe, TS, Arg(k)), k + 1, Compare(CLe, TS, Arg(k + 1)), k + 2);
    assert a + [AND] + b == TimeFragment(from, to).sql;
  }

  lemma SearchHalfReads(field: string, k: nat)
    requires !F.IsAttr(field)
    ensures ReadsNot([LOWER, LP, COL(field), RP, LIKE, PARAM, ESCAPE], k, LikeTest(Lowered(Column(field)), Arg(k)),
                     k + 1)
  {
    hide ReadPredicate;
    var ts := [LOWER, LP, COL(field), RP, LIKE, PARAM, ESCAPE];
    forall r {:trigger ts + r} ensures ReadNot(ts + r, k) == Got(LikeTest(Lowered(Column(field)), Arg(k)), r, k + 1) {
      LikeReads(field, true, false, r, k);
      assert Wrap(true, ColumnTok(field)) + [LIKE] + Wrap(false, PARAM) + [ESCAPE] + r == ts + r;
      PredicateIsNot(ts + r, k);
    }
  }

  lemma SearchText(env: Env, text: string)
    requires TrimSpace(env, text) != ""
    ensures CompileSearch(env, text).sql ==
            Parens([LOWER, LP, COL("message"), RP, LIKE, PARAM, ESCAPE] + [OR] +
                   [LOWER, LP, COL("raw"), RP, LIKE, PARAM, ESCAPE])
  {
    hide TrimSpace;
  }

  lemma SearchReads(env: Env, text: string, k: nat)
    requires TrimSpace(env, text) != ""
    ensures Reads(CompileSearch(env, text).sql, k, PartShape(env, Search(text), k), k + 2)
  {
    hide ReadNot, ReadOr, TrimSpace, CompileSearch;
    SearchHalfReads("message", k);
    SearchHalfReads("raw", k + 1);
    var a, b := [LOWER, LP, COL("message"), RP, LIKE, PARAM, ESCAPE], [LOWER, LP, COL("raw"), RP, LIKE, PARAM, ESCAPE];
    var e1, e2 := LikeTest(Lowered(Column("message")), Arg(k)), LikeTest(Lowered(Column("raw")), Arg(k + 1));
    PairReads(a, b, OR, k, e1, k + 1, e2, k + 2);
    SearchText(env, text);
    ParenthesesKeep(a + [OR] + b, k, AnyOf([e1, e2]), k + 2);
  }

  /** Enclosing a condition in parentheses does not change what it reads as. */
  lemma ParenthesesKeep(ts: seq<Tok>, k: nat, e: Expr, next: nat)
    requires Reads(ts, k, e, next)
    ensures Reads(Parens(ts), k, e, next) && ReadsNot(Parens(ts), k, e, next)
  {
    hide ReadNot, ReadOr;
    forall r {:trigger Parens(ts) + r} ensures ReadNot(Parens(ts) + r, k) == Got(e, r, next) {
      ParensRead(ts, k, e, next, r);
    }
    forall r | Stops(r) ensures ReadOr(Parens(ts) + r, k) == Got(e, r, next) {
      NotIsOr(Parens(ts) + r, k, e, r, next);
    }
  }

  lemma ParamCompareReads(k: nat)
    ensures ReadsNot([PARAM, OP(CGt), PARAM], k, Compare(CGt, Arg(k), Arg(k + 1)), k + 2)
  {
    hide ReadOperands;
    var ts := [PARAM, OP(CGt), PARAM];
    forall r {:trigger ts + r} ensures ReadNot(ts + r, k) == Got(Compare(CGt, Arg(k), Arg(k + 1)), r, k + 2) {
      assert (ts + r)[1..] == [OP(CGt), PARAM] + r;
      assert ([OP(CGt), PARAM] + r)[1..] == [PARAM] + r && ([PARAM] + r)[1..] == r;
      PredicateIsNot(ts + r, k);
    }
  }

  lemma CursorReads(env: Env, desc: bool, ts: int, segment: string, k: nat)
    ensures Reads(CursorFragment(desc, ts, segment).sql, k, PartShape(env, After(desc, ts, segment), k), k + 4)
  {
    hide ReadNot, ReadOr, Reads, ReadsNot, Parens, TieBreak, CursorFragment;
    var c := if desc then CLt else CGt;
    CompareParamReads(COL("timestamp"), TS, c, k);
    TieBreakReads(k + 1);
    var a, tie := [COL("timestamp"), OP(c), PARAM], TieBreak();
    var e1, e2 := Compare(c, TS, Arg(k)), AllOf([Compare(CEq, TS, Arg(k + 1)), Compare(CGt, Arg(k + 2), Arg(k + 3))]);
    PairReads(a, tie, OR, k, e1, k + 1, e2, k + 4);
    ParenthesesKeep(a + [OR] + tie, k, AnyOf([e1, e2]), k + 4);
    CursorText(desc, ts, segment);
  }

  lemma CursorText(desc: bool, ts: int, segment: string)
    ensures CursorFragment(desc, ts, segment).sql ==
              Parens([COL("timestamp"), OP(if desc then CLt else CGt), PARAM] + [OR] + TieBreak())
  {
  }

  function TieBreak(): seq<Tok> {
    Parens([COL("timestamp"), OP(CEq), PARAM] + [AND] + [PARAM, OP(CGt), PARAM])
  }

  lemma TieBreakReads(k: nat)
    ensures var e := AllOf([Compare(CEq, TS, Arg(k)), Compare(CGt, Arg(k + 1), Arg(k + 2))]);
            Reads(TieBreak(), k, e, k + 3) && ReadsNot(TieBreak(), k, e, k + 3)
  {
    hide ReadNot, ReadOr;
    CompareParamReads(COL("timestamp"), TS, CEq, k);
    ParamCompareReads(k + 1);
    var b, d := [COL("timestamp"), OP(CEq), PARAM], [PARAM, OP(CGt), PARAM];
    var e2, e3 := Compare(CEq, TS, Arg(k)), Compare(CGt, Arg(k + 1), Arg(k + 2));
    PairReads(b, d, AND, k, e2, k + 1, e3, k + 3);
    ParenthesesKeep(b + [AND] + d, k, AllOf([e2, e3]), k + 3);
  }

  lemma PartReads(env: Env, p: Part, k: nat)
    requires Usable(env, p)
    ensures Reads(FragmentOf(env, p).sql, k, PartShape(env, p, k), k + |FragmentOf(env, p).args|)
    ensures FragmentOf(env, p).sql != []
  {
    hide ReadOr, Shape, Compile;
    match p
    case TimeRange(from, to) => TimeReads(from, to, k);
    case Tree(n) => TreeReads(env, n, k); NeverEmpty(env, n);
    case Search(text) => SearchReads(env, text, k);
    case After(desc, ts, segment) => CursorReads(env, desc, ts, segment, k);
  }

  // ----------------------------------------------------------------- meaning

  lemma OperandMoves(env: Env, o: Operand, o': Operand, low: bool, args: seq<Datum>, args': seq<Datum>, ev: Event)
    requires ValueOf(env, o, args, ev) == ValueOf(env, o', args', ev)
    ensures ValueOf(env, Low(low, o), args, ev) == ValueOf(env, Low(low, o'), args', ev)
  {
    hide Lower;
  }

  lemma ColumnMoves(env: Env, field: string, args: seq<Datum>, args': seq<Datum>, ev: Event)
    ensures ValueOf(env, Col(field), args, ev) == ValueOf(env, Col(field), args', ev)
  {
  }

  /** An operand or condition means the same wherever its arguments sit. */
  lemma {:induction false} RefsMove(env: Env, d: Datum, m: nat, low: bool, args: seq<Datum>, k: nat, args': seq<Datum>,
                                    k': nat, ev: Event)
    requires k + m <= |args| && k' + m <= |args'| && args[k..k + m] == args'[k'..k' + m]
    ensures In3(env, d, ArgRefs(m, low, k), args, ev) == In3(env, d, ArgRefs(m, low, k'), args', ev)
  {
    if m > 0 {
      assert args[k..k + m][0] == args'[k'..k' + m][0];
      assert args[k..k + m][1..] == args[k + 1..k + m] && args'[k'..k' + m][1..] == args'[k' + 1..k' + m];
      var refs, refs' := ArgRefs(m, low, k), ArgRefs(m, low, k');
      assert refs[1..] == ArgRefs(m - 1, low, k + 1) && refs'[1..] == ArgRefs(m - 1, low, k' + 1);
      OperandMoves(env, Arg(k), Arg(k'), low, args, args', ev);
      RefsMove(env, d, m - 1, low, args, k + 1, args', k' + 1, ev);
    }
  }

  lemma InLeafMoves(env: Env, l: F.Leaf, args: seq<Datum>, k: nat, args': seq<Datum>, k': nat, ev: Event)
    requires CompileLeaf(env, l).Success? && (l.op == F.In || l.op == F.NotIn)
    requires HoldsAt(args, k, CompileLeaf(env, l).value.args) && HoldsAt(args', k', CompileLeaf(env, l).value.args)
    ensures Eval(env, LeafShape(env, l, k), args, ev) == Eval(env, LeafShape(env, l, k'), args', ev)
  {
    hide EvalAll, EvalAny, In3, ValueOf, InValues;
    var m := |CompileLeaf(env, l).value.args|;
    var low := ShouldLower(l);
    var neg := l.op == F.NotIn;
    ColumnMoves(env, l.field, args, args', ev);
    OperandMoves(env, Col(l.field), Col(l.field), low, args, args', ev);
    RefsMove(env, ValueOf(env, Low(low, Col(l.field)), args, ev), m, low, args, k, args', k', ev);
    var nulls := NullTest(Col(l.field), neg);
    PairEval(env, InList(Low(low, Col(l.field)), ArgRefs(m, low, k), neg), nulls, args, ev);
    PairEval(env, InList(Low(low, Col(l.field)), ArgRefs(m, low, k'), neg), nulls, args', ev);
  }

  lemma LeafMoves(env: Env, l: F.Leaf, args: seq<Datum>, k: nat, args': seq<Datum>, k': nat, ev: Event)
    requires CompileLeaf(env, l).Success?
    requires HoldsAt(args, k, CompileLeaf(env, l).value.args) && HoldsAt(args', k', CompileLeaf(env, l).value.args)
    ensures Eval(env, LeafShape(env, l, k), args, ev) == Eval(env, LeafShape(env, l, k'), args', ev)
  {
    hide EvalAll, EvalAny, Like3, Compare3, In3, ColumnOf, InValues, Lower, Attribute, Like.EscapeLike;
    var mine := CompileLeaf(env, l).value.args;
    var low := ShouldLower(l);
    if l.op == F.In || l.op == F.NotIn {
      InLeafMoves(env, l, args, k, args', k', ev);
    } else {
      ColumnMoves(env, l.field, args, args', ev);
      OperandMoves(env, Col(l.field), Col(l.field), low, args, args', ev);
      if mine != [] {
        assert args[k..k + |mine|][0] == args'[k'..k' + |mine|][0];
        OperandMoves(env, Arg(k), Arg(k'), low, args, args', ev);
      }
    }
  }

  lemma {:induction false} TreeMoves(env: Env, n: F.Node, args: seq<Datum>, k: nat, args': seq<Datum>, k': nat,
                                     ev: Event)
    requires Compile(env, n).Success?
    requires HoldsAt(args, k, Compile(env, n).value.args) && HoldsAt(args', k', Compile(env, n).value.args)
    ensures Eval(env, Shape(env, n, k), args, ev) == Eval(env, Shape(env, n, k'), args', ev)
    decreases n
  {
    match n {
      case Pred(l) => LeafMoves(env, l, args, k, args', k', ev);
      case Group(op, not, cs) =>
        TreesMove(env, cs, args, k, args', k', ev);
        ConjunctionEval(env, ShapeAll(env, cs, k), args, ev);
        ConjunctionEval(env, ShapeAll(env, cs, k'), args', ev);
    }
  }

  lemma {:induction false} TreesMove(env: Env, cs: seq<F.Node>, args: seq<Datum>, k: nat, args': seq<Datum>, k': nat,
                                     ev: Event)
    requires CompileAll(env, cs).Success?
    requires HoldsAt(args, k, CompileAll(env, cs).value.args) && HoldsAt(args', k', CompileAll(env, cs).value.args)
    ensures EvalAll(env, ShapeAll(env, cs, k), args, ev) == EvalAll(env, ShapeAll(env, cs, k'), args', ev)
    ensures EvalAny(env, ShapeAll(env, cs, k), args, ev) == EvalAny(env, ShapeAll(env, cs, k'), args', ev)
    decreases cs
  {
    hide Shape, Eval, HoldsAt, Compile;
    if cs != [] {
      ArgsOfChildren(env, cs, args, k);
      ArgsOfChildren(env, cs, args', k');
      var m := |Compile(env, cs[0]).value.args|;
      TreeMoves(env, cs[0], args, k, args', k', ev);
      TreesMove(env, cs[1..], args, k + m, args', k' + m, ev);
      ShapesSplit(env, cs, args, k, ev);
      ShapesSplit(env, cs, args', k', ev);
    }
  }

  /** The free-text predicate: the stored search and the live one agree on every event. */
  lemma SearchMeans(env: Env, text: string, args: seq<Datum>, k: nat, ev: Event)
    requires Lawful(env) && TrimSpace(env, text) != ""
    requires HoldsAt(args, k, CompileSearch(env, text).args)
    ensures (Eval(env, PartShape(env, Search(text), k), args, ev) == T) <==> MatchSearch(env, text, ev)
  {
    hide Like.Matches, Contains, Like.EscapeLike, Lower;
    var t := TrimSpace(env, text);
    var mine := CompileSearch(env, text).args;
    assert args[k] == args[k..k + 2][0] && args[k + 1] == args[k..k + 2][1];
    Like.EscapeCommutesWithLower(env, t);
    Like.ContainsPatternIsExact(Lower(env, t), Lower(env, ev.message));
    Like.ContainsPatternIsExact(Lower(env, t), Lower(env, ev.raw));
    var e1, e2 := LikeTest(Lowered(Column("message")), Arg(k)), LikeTest(Lowered(Column("raw")), Arg(k + 1));
    PairEval(env, e1, e2, args, ev);
    NothingInNothing(env, t);
    var pattern := DText("%" + Like.EscapeLike(Lower(env, t)) + "%");
    assert ValueOf(env, Arg(k), args, ev) == pattern && ValueOf(env, Arg(k + 1), args, ev) == pattern;
    assert ValueOf(env, Lowered(Column("raw")), args, ev) == DText(Lower(env, ev.raw));
    assert ValueOf(env, Lowered(Column("message")), args, ev) == if ev.message == "" then DNull
           else DText(Lower(env, ev.message));
  }

  lemma NothingInNothing(env: Env, t: string)
    requires t != ""
    ensures !Contains(Lower(env, ""), Lower(env, t))
  {
    assert |Lower(env, t)| == |t|;
  }

  /** The cursor's tie-break compares a value with itself, so paging is strict on the timestamp. */
  lemma CursorMeans(env: Env, desc: bool, ts: int, segment: string, args: seq<Datum>, k: nat, ev: Event)
    requires HoldsAt(args, k, CursorFragment(desc, ts, segment).args)
    ensures (Eval(env, PartShape(env, After(desc, ts, segment), k), args, ev) == T) <==>
            if desc then ev.timestamp < ts else ev.timestamp > ts
  {
    assert args[k..k + 4][0] == args[k] && args[k..k + 4][1] == args[k + 1] && args[k..k + 4][2] == args[k + 2] &&
           args[k..k + 4][3] == args[k + 3];
    LessTrichotomy(segment, segment);
    var e1 := Compare(if desc then CLt else CGt, TS, Arg(k));
    var e2, e3 := Compare(CEq, TS, Arg(k + 1)), Compare(CGt, Arg(k + 2), Arg(k + 3));
    PairEval(env, e1, AllOf([e2, e3]), args, ev);
    PairEval(env, e2, e3, args, ev);
  }

  lemma PartMeans(env: Env, p: Part, args: seq<Datum>, k: nat, ev: Event)
    requires Lawful(env) && Usable(env, p) && HoldsAt(args, k, FragmentOf(env, p).args)
    ensures (Eval(env, PartShape(env, p, k), args, ev) == T) <==> Accepts(env, p, ev)
  {
    match p
    case TimeRange(from, to) =>
      assert args[k..k + 2][0] == args[k] && args[k..k + 2][1] == args[k + 1];
      PairEval(env, Compare(CGe, TS, Arg(k)), Compare(CLe, TS, Arg(k + 1)), args, ev);
    case Tree(n) => TreePartMeans(env, n, args, k, ev);
    case Search(text) => SearchMeans(env, text, args, k, ev);
    case After(desc, ts, segment) => CursorMeans(env, desc, ts, segment, args, k, ev);
  }

  lemma TreePartMeans(env: Env, n: F.Node, args: seq<Datum>, k: nat, ev: Event)
    requires Compile(env, n).Success? && HoldsAt(args, k, Compile(env, n).value.args)
    ensures (Eval(env, Shape(env, n, k), args, ev) == T) <==> Selects(env, Compile(env, n).value, ev)
  {
    hide ReadOr, Eval, Shape, Compile, HoldsAt;
    EmittedMeaning(env, n);
    TreeMoves(env, n, args, k, Compile(env, n).value.args, 0, ev);
  }

  // ------------------------------------------------------------ whole clauses

  function FragmentsOf(env: Env, ps: seq<Part>): seq<Fragment>
    requires forall p <- ps :: Usable(env, p)
  {
    if ps == [] then [] else [FragmentOf(env, ps[0])] + FragmentsOf(env, ps[1..])
  }

  function PartShapes(env: Env, ps: seq<Part>, k: nat): (es: seq<Expr>)
    requires forall p <- ps :: Usable(env, p)
    ensures |es| == |ps|
  {
    if ps == [] then [] else [PartShape(env, ps[0], k)] + PartShapes(env, ps[1..], k + |FragmentOf(env, ps[0]).args|)
  }

  lemma {:induction false} PartsRead(env: Env, ps: seq<Part>, k: nat)
    requires forall p <- ps :: Usable(env, p)
    ensures ReadsEach(FragmentsOf(env, ps), k, PartShapes(env, ps, k))
    ensures NonEmpty(FragmentsOf(env, ps)) == FragmentsOf(env, ps)
  {
    hide ReadOr, Reads, FragmentOf, PartShape;
    if ps != [] {
      PartReads(env, ps[0], k);
      PartsRead(env, ps[1..], k + |FragmentOf(env, ps[0]).args|);
      var fs, es := FragmentsOf(env, ps), PartShapes(env, ps, k);
      assert fs[1..] == FragmentsOf(env, ps[1..]);
      assert es[1..] == PartShapes(env, ps[1..], k + |FragmentOf(env, ps[0]).args|);
    }
  }

  lemma HeldInParts(args: seq<Datum>, k: nat, a: seq<Datum>, b: seq<Datum>)
    requires HoldsAt(args, k, a + b)
    ensures HoldsAt(args, k, a) && HoldsAt(args, k + |a|, b)
  {
    assert args[k..k + |a + b|] == a + b;
    assert args[k..k + |a|] == (a + b)[..|a|] && args[k + |a|..k + |a| + |b|] == (a + b)[|a|..];
  }

  lemma {:induction false} PartsMean(env: Env, ps: seq<Part>, args: seq<Datum>, k: nat, ev: Event)
    requires Lawful(env) && (forall p <- ps :: Usable(env, p)) && HoldsAt(args, k, AllArgs(FragmentsOf(env, ps)))
    ensures (EvalAll(env, PartShapes(env, ps, k), args, ev) == T) <==> forall p <- ps :: Accepts(env, p, ev)
  {
    hide Eval, PartShape, FragmentOf, Accepts, HoldsAt;
    if ps != [] {
      var a, b := FragmentOf(env, ps[0]).args, AllArgs(FragmentsOf(env, ps[1..]));
      assert FragmentsOf(env, ps)[1..] == FragmentsOf(env, ps[1..]);
      HeldInParts(args, k, a, b);
      PartMeans(env, ps[0], args, k, ev);
      PartsMean(env, ps[1..], args, k + |a|, ev);
      EvalCons(env, PartShape(env, ps[0], k), PartShapes(env, ps[1..], k + |a|), args, ev);
      assert forall p <- ps :: p == ps[0] || p in ps[1..];
    }
  }

  /** Combined clauses read as the conjunction of their parts, and the joined argument
      list binds every placeholder. */
  lemma CombinedReads(env: Env, ps: seq<Part>)
    requires ps != [] && forall p <- ps :: Usable(env, p)
    ensures var f := CombineAnd(FragmentsOf(env, ps));
            ReadOr(f.sql, 0) == Got(Conjunction(PartShapes(env, ps, 0)), [], |f.args|) &&
            f.args == AllArgs(FragmentsOf(env, ps))
  {
    hide ReadOr, PartShape, FragmentOf;
    var fs, es := FragmentsOf(env, ps), PartShapes(env, ps, 0);
    var f := CombineAnd(fs);
    PartsRead(env, ps, 0);
    assert Stops([]) && f.sql + [] == f.sql;
    if |fs| == 1 {
      assert fs[1..] == [] && es == [es[0]] && fs[0].args + [] == fs[0].args;
      assert Reads(fs[0].sql, 0, es[0], |fs[0].args|);
    } else {
      JoinReads(fs, 0, es, AND, []);
    }
  }

  /** Main result: the clause a query runs selects exactly the events that lie in the time
      range, satisfy the filter's own clause, contain the free text, and come after the cursor. */
  lemma WhereSelects(env: Env, ps: seq<Part>, ev: Event)
    requires Lawful(env) && ps != [] && forall p <- ps :: Usable(env, p)
    ensures Selects(env, CombineAnd(FragmentsOf(env, ps)), ev) <==> forall p <- ps :: Accepts(env, p, ev)
  {
    hide ReadOr, PartShape, FragmentOf, Accepts, CombineAnd;
    CombinedReads(env, ps);
    var f := CombineAnd(FragmentsOf(env, ps));
    assert f.args[0..0 + |f.args|] == f.args;
    PartsMean(env, ps, f.args, 0, ev);
    ConjunctionEval(env, PartShapes(env, ps, 0), f.args, ev);
  }

  // ------------------------------------------------------------------- facets

  /** The facet query appends a null test to the clause without parentheses. */
  function FacetWhere(base: Fragment, field: string): Fragment {
    Fragment(
      (if base.sql == [] then [] else base.sql + [AND]) + [ColumnTok(field), IS, NOT, NULL],
      base.args)
  }

  lemma NotNullReads(field: string, k: nat)
    ensures ReadsNot([ColumnTok(field), IS, NOT, NULL], k, NullTest(Col(field), true), k)
  {
    hide ReadPredicate;
    var ts := [ColumnTok(field), IS, NOT, NULL];
    forall r {:trigger ts + r} ensures ReadNot(ts + r, k) == Got(NullTest(Col(field), true), r, k) {
      FieldNullTestReads(field, true, r, k);
      assert [ColumnTok(field)] + [IS, NOT, NULL] + r == ts + r;
      PredicateIsNot(ts + r, k);
    }
  }

  /** Appending to a clause of at least two parts extends its conjunction. */
  lemma AppendToJoin(fs: seq<Fragment>, es: seq<Expr>, more: seq<Tok>, e: Expr, next: nat)
    requires |fs| >= 2 && ReadsEach(fs, 0, es) && ReadsNot(more, |AllArgs(fs)|, e, next)
    ensures ReadOr(JoinToks(ParenthesisedSqls(fs), AND) + [AND] + more, 0) == Got(AllOf(es + [e]), [], next)
  {
    hide ReadOr, ReadOrMore, ReadAnd, ReadAndMore, ReadNot, Reads, Parens;
    var parts := ParenthesisedSqls(fs);
    var k1 := |fs[0].args|;
    var rest := [AND] + more;
    var tail := JoinTail(parts[1..], AND) + rest;
    JoinSplit(parts, AND);
    assert parts[0] == Parens(fs[0].sql) && parts[1..] == ParenthesisedSqls(fs[1..]);
    assert JoinToks(parts, AND) + [AND] + more == Parens(fs[0].sql) + tail;
    var ts := Parens(fs[0].sql) + tail;
    ParensRead(fs[0].sql, 0, es[0], k1, tail);
    AndStart(ts, 0, es[0], tail, k1);
    AndTailReads(fs[1..], k1, es[1..], [es[0]], rest);
    assert [es[0]] + es[1..] == es && more + [] == more;
    AndStep(es, more, |AllArgs(fs)|, e, [], next);
    AndStop(es + [e], [], next);
    OrStart(ts, 0, AllOf(es + [e]), [], next);
    OrStop([AllOf(es + [e])], [], next);
  }

  /** The same for a time range standing alone. */
  lemma AppendToTime(from: int, to: int, more: seq<Tok>, e: Expr, next: nat)
    requires ReadsNot(more, 2, e, next)
    ensures ReadOr(TimeFragment(from, to).sql + [AND] + more, 0) ==
            Got(AllOf([Compare(CGe, TS, Arg(0)), Compare(CLe, TS, Arg(1)), e]), [], next)
  {
    hide ReadOr, ReadOrMore, ReadAnd, ReadAndMore, ReadNot;
    CompareParamReads(COL("timestamp"), TS, CGe, 0);
    CompareParamReads(COL("timestamp"), TS, CLe, 1);
    var a, b := [COL("timestamp"), OP(CGe), PARAM], [COL("timestamp"), OP(CLe), PARAM];
    var e1, e2 := Compare(CGe, TS, Arg(0)), Compare(CLe, TS, Arg(1));
    var t1 := [AND] + more;
    var t0 := [AND] + (b + t1);
    assert TimeFragment(from, to).sql + [AND] + more == a + t0;
    assert ReadNot(a + t0, 0) == Got(e1, t0, 1);
    assert ReadNot(b + t1, 1) == Got(e2, t1, 2);
    assert more + [] == more;
    assert ReadNot(more, 2) == Got(e, [], next);
    AndStart(a + t0, 0, e1, t0, 1);
    AndStep([e1], b + t1, 1, e2, t1, 2);
    AndStep([e1] + [e2], more, 2, e, [], next);
    var all := [e1] + [e2] + [e];
    AndStop(all, [], next);
    OrStart(a + t0, 0, AllOf(all), [], next);
    OrStop([AllOf(all)], [], next);
    assert all == [e1, e2, e];
  }

  lemma {:induction false} EvalAllSnoc(env: Env, es: seq<Expr>, e: Expr, args: seq<Datum>, ev: Event)
    ensures (EvalAll(env, es + [e], args, ev) == T) <==> EvalAll(env, es, args, ev) == T && Eval(env, e, args, ev) == T
  {
    hide Eval;
    if es == [] {
      assert es + [e] == [e];
      EvalCons(env, e, [], args, ev);
      assert [e] + [] == [e];
    } else {
      assert es + [e] == [es[0]] + (es[1..] + [e]) && [es[0]] + es[1..] == es;
      EvalCons(env, es[0], es[1..] + [e], args, ev);
      EvalCons(env, es[0], es[1..], args, ev);
      EvalAllSnoc(env, es[1..], e, args, ev);
    }
  }

  lemma NotNullMeans(env: Env, field: string, args: seq<Datum>, ev: Event)
    ensures (Eval(env, NullTest(Col(field), true), args, ev) == T) <==> ValueOf(env, Col(field), [], ev) != DNull
  {
  }

  /** Facet counts range over exactly the events the query selects that have the field: because
      the base clause always starts with a time range, the bare AND never lands inside an OR. */
  lemma FacetSelects(env: Env, from: int, to: int, others: seq<Part>, field: string, ev: Event)
    requires Lawful(env) && forall p <- others :: Usable(env, p)
    ensures
      var base := CombineAnd(FragmentsOf(env, [TimeRange(from, to)] + others));
      Selects(env, FacetWhere(base, field), ev) <==> Selects(env, base, ev) && ValueOf(env, Col(field), [], ev) != DNull
  {
    hide ReadOr, Eval, ReadNot, Compile, Shape;
    var ps := [TimeRange(from, to)] + others;
    var fs, es := FragmentsOf(env, ps), PartShapes(env, ps, 0);
    var base := CombineAnd(fs);
    var e := NullTest(Col(field), true);
    var more := [ColumnTok(field), IS, NOT, NULL];
    PartsRead(env, ps, 0);
    CombinedReads(env, ps);
    NotNullReads(field, |base.args|);
    NotNullMeans(env, field, base.args, ev);
    ConjunctionEval(env, es, base.args, ev);
    if others == [] {
      var t1, t2 := Compare(CGe, TS, Arg(0)), Compare(CLe, TS, Arg(1));
      assert es == [AllOf([t1, t2])] && base == TimeFragment(from, to);
      AppendToTime(from, to, more, e, 2);
      EvalAllSnoc(env, [t1, t2], e, base.args, ev);
      assert [t1, t2] + [e] == [t1, t2, e];
      AllOfMeans(env, [t1, t2], base.args, ev);
      AllOfMeans(env, [t1, t2, e], base.args, ev);
    } else {
      assert |fs| >= 2 by {
        FragmentCount(env, ps);
      }
      AppendToJoin(fs, es, more, e, |base.args|);
      EvalAllSnoc(env, es, e, base.args, ev);
      AllOfMeans(env, es + [e], base.args, ev);
    }
  }

  lemma AllOfMeans(env: Env, es: seq<Expr>, args: seq<Datum>, ev: Event)
    ensures Eval(env, AllOf(es), args, ev) == EvalAll(env, es, args, ev)
  {
    hide EvalAll;
  }

  lemma {:induction false} FragmentCount(env: Env, ps: seq<Part>)
    requires forall p <- ps :: Usable(env, p)
    ensures |FragmentsOf(env, ps)| == |ps|
  {
    if ps != [] {
      FragmentCount(env, ps[1..]);
    }
  }
}

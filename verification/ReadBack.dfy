/** The text the compiler emits means the tree it was given: reading it back, with
    NOT over AND over OR and placeholders numbered from left to right, yields the
    tree's own structure, with the i-th placeholder bound to the i-th argument. */
module ReadBack {
  import opened Text
  import F = Filter
  import opened Sql
  import opened Compiler
  import Like

  // ------------------------------------------------- the intended structure

  function Col(field: string): Operand {
    if F.IsAttr(field) then AttrText(F.AttrPath(field)) else Column(field)
  }

  function Low(low: bool, o: Operand): Operand {
    if low then Lowered(o) else o
  }

  function ArgRefs(n: nat, low: bool, k: nat): seq<Operand> {
    if n == 0 then [] else [Low(low, Arg(k))] + ArgRefs(n - 1, low, k + 1)
  }

  /** The condition a leaf stands for, its placeholders numbered from k. */
  function LeafShape(env: Env, l: F.Leaf, k: nat): Expr
    requires CompileLeaf(env, l).Success?
  {
    var col := Col(l.field);
    var low := ShouldLower(l);
    match l.op
    case Exists => NullTest(if F.IsAttr(l.field) then AttrJson(F.AttrPath(l.field)) else col, true)
    case Eq | Neq =>
      if Scalar(l.value).value == DNull then NullTest(col, l.op == F.Neq)
      else Compare(if l.op == F.Neq then CNe else CEq, Low(low, col), Low(low, Arg(k)))
    case In | NotIn =>
      var neg := l.op == F.NotIn;
      var m := |InValues(env, l.value.items, low).value|;
      var list := InList(Low(low, col), ArgRefs(m, low, k), neg);
      var nulls := NullTest(col, neg);
      if F.Null !in l.value.items then list
      else if m == 0 then nulls
      else if neg then AllOf([list, nulls]) else AnyOf([list, nulls])
    case Contains | StartsWith => LikeTest(Low(low, col), Low(low, Arg(k)))
    case Gt | Lt | Gte | Lte =>
      Compare(RangeCmp(l.op),
              if F.IsAttr(l.field) && ToFloat(env, Scalar(l.value).value).Some? then AsDouble(col) else col,
              Arg(k))
  }

  function Shape(env: Env, n: F.Node, k: nat): Expr
    requires Compile(env, n).Success?
    decreases n
  {
    match n
    case Pred(l) => LeafShape(env, l, k)
    case Group(op, not, children) =>
      var es := ShapeAll(env, children, k);
      var e := if op == F.Or then Disjunction(es) else Conjunction(es);
      if not then NotOf(e) else e
  }

  function ShapeAll(env: Env, cs: seq<F.Node>, k: nat): (es: seq<Expr>)
    requires CompileAll(env, cs).Success?
    ensures |es| == |cs|
    decreases cs
  {
    if cs == [] then []
    else [Shape(env, cs[0], k)] + ShapeAll(env, cs[1..], k + |Compile(env, cs[0]).value.args|)
  }

  // ---------------------------------------------------------------- reading

  /** What may follow a complete condition: nothing that would continue it. */
  predicate Stops(rest: seq<Tok>) {
    rest == [] || (rest[0] != AND && rest[0] != OR)
  }

  /** ts, wherever it is followed by something that stops it, reads as e. */
  ghost predicate Reads(ts: seq<Tok>, k: nat, e: Expr, next: nat) {
    forall rest | Stops(rest) :: ReadOr(ts + rest, k) == Got(e, rest, next)
  }

  ghost predicate ReadsEach(fs: seq<Fragment>, k: nat, es: seq<Expr>) {
    if fs == [] then es == []
    else es != [] && Reads(fs[0].sql, k, es[0], k + |fs[0].args|) && ReadsEach(fs[1..], k + |fs[0].args|, es[1..])
  }

  /** Everything after the first part of a join. */
  function JoinTail(parts: seq<seq<Tok>>, sep: Tok): seq<Tok> {
    if parts == [] then [] else [sep] + parts[0] + JoinTail(parts[1..], sep)
  }

  lemma {:induction false} JoinSplit(parts: seq<seq<Tok>>, sep: Tok)
    requires parts != []
    ensures JoinToks(parts, sep) == parts[0] + JoinTail(parts[1..], sep)
  {
    if |parts| == 1 {
      assert parts[0] + [] == parts[0];
    } else {
      JoinSplit(parts[1..], sep);
      assert parts[0] + [sep] + (parts[1] + JoinTail(parts[2..], sep)) ==
               parts[0] + ([sep] + parts[1] + JoinTail(parts[2..], sep));
      assert parts[1..][1..] == parts[2..];
    }
  }

  // Single steps of the reader.

  lemma AndStart(ts: seq<Tok>, k: nat, e: Expr, rest: seq<Tok>, next: nat)
    requires ReadNot(ts, k) == Got(e, rest, next)
    ensures ReadAnd(ts, k) == ReadAndMore([e], rest, next)
  {
    hide ReadNot, ReadAndMore;
  }

  lemma AndStep(acc: seq<Expr>, ts: seq<Tok>, k: nat, e: Expr, rest: seq<Tok>, next: nat)
    requires acc != [] && ReadNot(ts, k) == Got(e, rest, next)
    ensures ReadAndMore(acc, [AND] + ts, k) == ReadAndMore(acc + [e], rest, next)
  {
    hide ReadNot;
    assert ([AND] + ts)[1..] == ts;
  }

  lemma AndStop(acc: seq<Expr>, rest: seq<Tok>, k: nat)
    requires acc != [] && (rest == [] || rest[0] != AND)
    ensures ReadAndMore(acc, rest, k) == Got(Conjunction(acc), rest, k)
  {
    hide ReadNot;
  }

  lemma OrStart(ts: seq<Tok>, k: nat, e: Expr, rest: seq<Tok>, next: nat)
    requires ReadAnd(ts, k) == Got(e, rest, next)
    ensures ReadOr(ts, k) == ReadOrMore([e], rest, next)
  {
    hide ReadAnd, ReadOrMore;
  }

  lemma OrStep(acc: seq<Expr>, ts: seq<Tok>, k: nat, e: Expr, rest: seq<Tok>, next: nat)
    requires acc != [] && ReadAnd(ts, k) == Got(e, rest, next)
    ensures ReadOrMore(acc, [OR] + ts, k) == ReadOrMore(acc + [e], rest, next)
  {
    hide ReadAnd;
    assert ([OR] + ts)[1..] == ts;
  }

  lemma OrStop(acc: seq<Expr>, rest: seq<Tok>, k: nat)
    requires acc != [] && (rest == [] || rest[0] != OR)
    ensures ReadOrMore(acc, rest, k) == Got(Disjunction(acc), rest, k)
  {
    hide ReadAnd;
  }

  /** A negatable condition that is not continued by AND is a conjunction of one. */
  lemma NotIsAnd(ts: seq<Tok>, k: nat, e: Expr, rest: seq<Tok>, next: nat)
    requires ReadNot(ts, k) == Got(e, rest, next) && (rest == [] || rest[0] != AND)
    ensures ReadAnd(ts, k) == Got(e, rest, next)
  {
    AndStart(ts, k, e, rest, next);
    AndStop([e], rest, next);
  }

  lemma NotIsOr(ts: seq<Tok>, k: nat, e: Expr, rest: seq<Tok>, next: nat)
    requires ReadNot(ts, k) == Got(e, rest, next) && Stops(rest)
    ensures ReadOr(ts, k) == Got(e, rest, next)
  {
    NotIsAnd(ts, k, e, rest, next);
    OrStart(ts, k, e, rest, next);
    OrStop([e], rest, next);
  }

  /** A parenthesised condition is a primary, whatever follows. */
  lemma ParensRead(ts: seq<Tok>, k: nat, e: Expr, next: nat, rest: seq<Tok>)
    requires Reads(ts, k, e, next)
    ensures ReadNot(Parens(ts) + rest, k) == Got(e, rest, next)
  {
    hide ReadOr, ReadPredicate;
    var all := Parens(ts) + rest;
    assert all[1..] == ts + ([RP] + rest);
    assert Stops([RP] + rest);
    assert ([RP] + rest)[1..] == rest;
  }

  /** The first of the remaining parts, and what follows it. */
  lemma TailHead(fs: seq<Fragment>, sep: Tok, rest: seq<Tok>)
    requires fs != []
    ensures JoinTail(ParenthesisedSqls(fs), sep) + rest ==
            [sep] + (Parens(fs[0].sql) + (JoinTail(ParenthesisedSqls(fs[1..]), sep) + rest))
  {
    hide Parens;
    var parts := ParenthesisedSqls(fs);
    assert parts[0] == Parens(fs[0].sql) && parts[1..] == ParenthesisedSqls(fs[1..]);
    Regroup([sep], parts[0], JoinTail(parts[1..], sep), rest);
  }

  lemma Regroup(a: seq<Tok>, b: seq<Tok>, c: seq<Tok>, d: seq<Tok>)
    ensures a + b + c + d == a + (b + (c + d))
  {
  }

  lemma {:induction false} AndTailReads(fs: seq<Fragment>, k: nat, es: seq<Expr>, acc: seq<Expr>, rest: seq<Tok>)
    requires acc != [] && ReadsEach(fs, k, es)
    ensures ReadAndMore(acc, JoinTail(ParenthesisedSqls(fs), AND) + rest, k) ==
              ReadAndMore(acc + es, rest, k + |AllArgs(fs)|)
    decreases fs
  {
    hide ReadOr, ReadAnd, ReadAndMore, ReadNot, Reads, Parens, Conjunction;
    var tail := JoinTail(ParenthesisedSqls(fs), AND);
    if fs == [] {
      assert tail + rest == rest && acc + es == acc;
    } else {
      var more := JoinTail(ParenthesisedSqls(fs[1..]), AND) + rest;
      TailHead(fs, AND, rest);
      ParensRead(fs[0].sql, k, es[0], k + |fs[0].args|, more);
      AndStep(acc, Parens(fs[0].sql) + more, k, es[0], more, k + |fs[0].args|);
      AndTailReads(fs[1..], k + |fs[0].args|, es[1..], acc + [es[0]], rest);
      assert acc + [es[0]] + es[1..] == acc + es;
    }
  }

  lemma {:induction false} OrTailReads(fs: seq<Fragment>, k: nat, es: seq<Expr>, acc: seq<Expr>, rest: seq<Tok>)
    requires acc != [] && Stops(rest) && ReadsEach(fs, k, es)
    ensures ReadOrMore(acc, JoinTail(ParenthesisedSqls(fs), OR) + rest, k) ==
              Got(Disjunction(acc + es), rest, k + |AllArgs(fs)|)
    decreases fs
  {
    hide ReadOr, ReadOrMore, ReadAnd, ReadNot, Reads, Parens, Disjunction;
    var tail := JoinTail(ParenthesisedSqls(fs), OR);
    if fs == [] {
      assert tail + rest == rest && acc + es == acc;
      OrStop(acc, rest, k);
    } else {
      var more := JoinTail(ParenthesisedSqls(fs[1..]), OR) + rest;
      TailHead(fs, OR, rest);
      ParensRead(fs[0].sql, k, es[0], k + |fs[0].args|, more);
      TailStopsAnd(fs[1..], rest);
      NotIsAnd(Parens(fs[0].sql) + more, k, es[0], more, k + |fs[0].args|);
      OrStep(acc, Parens(fs[0].sql) + more, k, es[0], more, k + |fs[0].args|);
      OrTailReads(fs[1..], k + |fs[0].args|, es[1..], acc + [es[0]], rest);
      assert acc + [es[0]] + es[1..] == acc + es;
    }
  }

  lemma TailStopsAnd(fs: seq<Fragment>, rest: seq<Tok>)
    requires Stops(rest)
    ensures var more := JoinTail(ParenthesisedSqls(fs), OR) + rest; more == [] || more[0] != AND
  {
    if fs == [] {
      assert JoinTail(ParenthesisedSqls(fs), OR) + rest == rest;
    }
  }

  lemma JoinSplitRest(fs: seq<Fragment>, sep: Tok, rest: seq<Tok>)
    requires fs != []
    ensures JoinToks(ParenthesisedSqls(fs), sep) + rest ==
              Parens(fs[0].sql) + (JoinTail(ParenthesisedSqls(fs[1..]), sep) + rest)
  {
    hide Parens;
    var parts := ParenthesisedSqls(fs);
    JoinSplit(parts, sep);
    assert parts[0] == Parens(fs[0].sql) && parts[1..] == ParenthesisedSqls(fs[1..]);
    assert parts[0] + JoinTail(parts[1..], sep) + rest == parts[0] + (JoinTail(parts[1..], sep) + rest);
  }

  lemma AndJoinReads(fs: seq<Fragment>, k: nat, es: seq<Expr>, rest: seq<Tok>)
    requires fs != [] && Stops(rest) && ReadsEach(fs, k, es)
    ensures ReadOr(JoinToks(ParenthesisedSqls(fs), AND) + rest, k) == Got(Conjunction(es), rest, k + |AllArgs(fs)|)
  {
    hide ReadOr, ReadOrMore, ReadAnd, ReadAndMore, ReadNot, Reads, Parens, JoinToks, JoinTail, ParenthesisedSqls;
    var more := JoinTail(ParenthesisedSqls(fs[1..]), AND) + rest;
    var k1 := k + |fs[0].args|;
    var ts := Parens(fs[0].sql) + more;
    JoinSplitRest(fs, AND, rest);
    ParensRead(fs[0].sql, k, es[0], k1, more);
    assert [es[0]] + es[1..] == es;
    AndStart(ts, k, es[0], more, k1);
    AndTailReads(fs[1..], k1, es[1..], [es[0]], rest);
    AndStop(es, rest, k + |AllArgs(fs)|);
    OrStart(ts, k, Conjunction(es), rest, k + |AllArgs(fs)|);
    OrStop([Conjunction(es)], rest, k + |AllArgs(fs)|);
  }

  lemma OrJoinReads(fs: seq<Fragment>, k: nat, es: seq<Expr>, rest: seq<Tok>)
    requires fs != [] && Stops(rest) && ReadsEach(fs, k, es)
    ensures ReadOr(JoinToks(ParenthesisedSqls(fs), OR) + rest, k) == Got(Disjunction(es), rest, k + |AllArgs(fs)|)
  {
    hide ReadOr, ReadOrMore, ReadAnd, ReadAndMore, ReadNot, Reads, Parens, JoinToks, JoinTail, ParenthesisedSqls;
    var more := JoinTail(ParenthesisedSqls(fs[1..]), OR) + rest;
    var k1 := k + |fs[0].args|;
    var ts := Parens(fs[0].sql) + more;
    JoinSplitRest(fs, OR, rest);
    ParensRead(fs[0].sql, k, es[0], k1, more);
    assert [es[0]] + es[1..] == es;
    TailStopsAnd(fs[1..], rest);
    NotIsAnd(ts, k, es[0], more, k1);
    OrStart(ts, k, es[0], more, k1);
    OrTailReads(fs[1..], k1, es[1..], [es[0]], rest);
  }

  /** A join of parenthesised conditions reads as one conjunction or disjunction. */
  lemma JoinReads(fs: seq<Fragment>, k: nat, es: seq<Expr>, sep: Tok, rest: seq<Tok>)
    requires fs != [] && (sep == AND || sep == OR) && Stops(rest) && ReadsEach(fs, k, es)
    ensures ReadOr(JoinToks(ParenthesisedSqls(fs), sep) + rest, k) ==
            Got(if sep == OR then Disjunction(es) else Conjunction(es), rest, k + |AllArgs(fs)|)
  {
    hide ReadOr, Reads, JoinToks;
    if sep == AND {
      AndJoinReads(fs, k, es, rest);
    } else {
      OrJoinReads(fs, k, es, rest);
    }
  }

  // ----------------------------------------------------------------- leaves

  lemma ColumnReads(field: string, low: bool, rest: seq<Tok>, k: nat)
    ensures ReadOperand(Wrap(low, ColumnTok(field)) + rest, k) == Got(Low(low, Col(field)), rest, k)
  {
    var ts := Wrap(low, ColumnTok(field)) + rest;
    if low {
      assert ts[2..] == [ColumnTok(field)] + ([RP] + rest);
      assert ([ColumnTok(field)] + ([RP] + rest))[1..] == [RP] + rest && ([RP] + rest)[1..] == rest;
    } else {
      assert ts[1..] == rest;
    }
  }

  lemma ParamReads(low: bool, rest: seq<Tok>, k: nat)
    ensures ReadOperand(Wrap(low, PARAM) + rest, k) == Got(Low(low, Arg(k)), rest, k + 1)
  {
    var ts := Wrap(low, PARAM) + rest;
    if low {
      assert ts[2..] == [PARAM] + ([RP] + rest);
      assert ([PARAM] + ([RP] + rest))[1..] == [RP] + rest && ([RP] + rest)[1..] == rest;
    } else {
      assert ts[1..] == rest;
    }
  }

  lemma {:induction false} PlaceholdersRead(n: nat, low: bool, rest: seq<Tok>, k: nat)
    requires n > 0
    ensures ReadOperands(Placeholders(n, low) + [RP] + rest, k) == Got(ArgRefs(n, low, k), rest, k + n)
  {
    hide ReadOperand;
    var ps := seq(n, _ => Wrap(low, PARAM));
    assert ps[1..] == seq((n - 1) as nat, _ => Wrap(low, PARAM));
    var w := Wrap(low, PARAM);
    if n == 1 {
      assert Placeholders(n, low) + [RP] + rest == w + ([RP] + rest);
      ParamReads(low, [RP] + rest, k);
      assert ([RP] + rest)[1..] == rest;
      assert ArgRefs(1, low, k) == [Low(low, Arg(k))];
    } else {
      var tail := Placeholders(n - 1, low) + [RP] + rest;
      assert Placeholders(n, low) + [RP] + rest == w + ([COMMA] + tail);
      ParamReads(low, [COMMA] + tail, k);
      assert ([COMMA] + tail)[1..] == tail;
      PlaceholdersRead(n - 1, low, rest, k + 1);
    }
  }

  lemma InListReads(field: string, low: bool, neg: bool, n: nat, rest: seq<Tok>, k: nat)
    requires n > 0
    ensures ReadPredicate(Wrap(low, ColumnTok(field)) + (if neg then [NOT, IN, LP] else [IN, LP]) +
                          Placeholders(n, low) + [RP] + rest, k)
         == Got(InList(Low(low, Col(field)), ArgRefs(n, low, k), neg), rest, k + n)
  {
    hide ReadOperand, ReadOperands, JoinToks;
    var head := if neg then [NOT, IN, LP] else [IN, LP];
    var tail := Placeholders(n, low) + [RP] + rest;
    assert Wrap(low, ColumnTok(field)) + head + Placeholders(n, low) + [RP] + rest ==
             Wrap(low, ColumnTok(field)) + (head + tail);
    ColumnReads(field, low, head + tail, k);
    assert (head + tail)[|head|..] == tail;
    PlaceholdersRead(n, low, rest, k);
  }

  lemma NullTestReads(t: Tok, o: Operand, neg: bool, rest: seq<Tok>, k: nat)
    requires forall more: seq<Tok> :: ReadOperand([t] + more, k) == Got(o, more, k)
    ensures ReadPredicate([t] + (if neg then [IS, NOT, NULL] else [IS, NULL]) + rest, k) ==
              Got(NullTest(o, neg), rest, k)
  {
    hide ReadOperand, ReadOperands;
    var tail := (if neg then [IS, NOT, NULL] else [IS, NULL]) + rest;
    assert [t] + (if neg then [IS, NOT, NULL] else [IS, NULL]) + rest == [t] + tail;
    assert ReadOperand([t] + tail, k) == Got(o, tail, k);
    assert tail[(if neg then 3 else 2)..] == rest;
  }

  lemma FieldNullTestReads(field: string, neg: bool, rest: seq<Tok>, k: nat)
    ensures ReadPredicate([ColumnTok(field)] + (if neg then [IS, NOT, NULL] else [IS, NULL]) + rest, k) ==
              Got(NullTest(Col(field), neg), rest, k)
  {
    forall more: seq<Tok> ensures ReadOperand([ColumnTok(field)] + more, k) == Got(Col(field), more, k) {
      assert ([ColumnTok(field)] + more)[1..] == more;
    }
    NullTestReads(ColumnTok(field), Col(field), neg, rest, k);
  }

  lemma CompareReads(field: string, low: bool, c: Cmp, rest: seq<Tok>, k: nat)
    ensures ReadPredicate(Wrap(low, ColumnTok(field)) + [OP(c)] + Wrap(low, PARAM) + rest, k) ==
            Got(Compare(c, Low(low, Col(field)), Low(low, Arg(k))), rest, k + 1)
  {
    hide ReadOperand, ReadOperands;
    var tail := [OP(c)] + (Wrap(low, PARAM) + rest);
    assert Wrap(low, ColumnTok(field)) + [OP(c)] + Wrap(low, PARAM) + rest == Wrap(low, ColumnTok(field)) + tail;
    ColumnReads(field, low, tail, k);
    assert tail[1..] == Wrap(low, PARAM) + rest;
    ParamReads(low, rest, k);
  }

  lemma CastReads(field: string, rest: seq<Tok>, k: nat)
    ensures ReadOperand([CAST, LP, ColumnTok(field), ASDOUBLE, RP] + rest, k) == Got(AsDouble(Col(field)), rest, k)
  {
    var ts := [CAST, LP, ColumnTok(field), ASDOUBLE, RP] + rest;
    var inner := [ASDOUBLE, RP] + rest;
    assert ts[2..] == Wrap(false, ColumnTok(field)) + inner;
    ColumnReads(field, false, inner, k);
    assert inner[2..] == rest;
  }

  lemma CastCompareReads(field: string, c: Cmp, rest: seq<Tok>, k: nat)
    ensures ReadPredicate([CAST, LP, ColumnTok(field), ASDOUBLE, RP, OP(c), PARAM] + rest, k) ==
            Got(Compare(c, AsDouble(Col(field)), Arg(k)), rest, k + 1)
  {
    hide ReadOperand, ReadOperands;
    var tail := [OP(c), PARAM] + rest;
    assert [CAST, LP, ColumnTok(field), ASDOUBLE, RP, OP(c), PARAM] + rest ==
           [CAST, LP, ColumnTok(field), ASDOUBLE, RP] + tail;
    CastReads(field, tail, k);
    assert tail[1..] == Wrap(false, PARAM) + rest;
    ParamReads(false, rest, k);
  }

  lemma LikeReads(field: string, low: bool, lowPattern: bool, rest: seq<Tok>, k: nat)
    ensures ReadPredicate(Wrap(low, ColumnTok(field)) + [LIKE] + Wrap(lowPattern, PARAM) + [ESCAPE] + rest, k) ==
            Got(LikeTest(Low(low, Col(field)), Low(lowPattern, Arg(k))), rest, k + 1)
  {
    hide ReadOperand, ReadOperands;
    var tail := [LIKE] + (Wrap(lowPattern, PARAM) + ([ESCAPE] + rest));
    assert Wrap(low, ColumnTok(field)) + [LIKE] + Wrap(lowPattern, PARAM) + [ESCAPE] + rest ==
             Wrap(low, ColumnTok(field)) + tail;
    ColumnReads(field, low, tail, k);
    assert tail[1..] == Wrap(lowPattern, PARAM) + ([ESCAPE] + rest);
    ParamReads(lowPattern, [ESCAPE] + rest, k);
    assert ([ESCAPE] + rest)[1..] == rest;
  }

  /** A bare predicate is a negatable condition. */
  lemma PredicateIsNot(ts: seq<Tok>, k: nat)
    requires ts != [] && ts[0] != LP && ts[0] != NOT
    ensures ReadNot(ts, k) == ReadPredicate(ts, k)
  {
    hide ReadPredicate;
  }

  ghost predicate ReadsNot(ts: seq<Tok>, k: nat, e: Expr, next: nat) {
    forall rest {:trigger ts + rest} :: ReadNot(ts + rest, k) == Got(e, rest, next)
  }

  /** Two negatable conditions joined by one connective. */
  lemma PairReads(a: seq<Tok>, b: seq<Tok>, sep: Tok, k: nat, e1: Expr, k1: nat, e2: Expr, k2: nat)
    requires sep == AND || sep == OR
    requires ReadsNot(a, k, e1, k1) && ReadsNot(b, k1, e2, k2)
    ensures Reads(a + [sep] + b, k, if sep == AND then AllOf([e1, e2]) else AnyOf([e1, e2]), k2)
  {
    hide ReadNot, ReadAnd, ReadAndMore, ReadOr, ReadOrMore;
    var body := a + [sep] + b;
    var e := if sep == AND then AllOf([e1, e2]) else AnyOf([e1, e2]);
    assert [e1] + [e2] == [e1, e2];
    forall after | Stops(after) ensures ReadOr(body + after, k) == Got(e, after, k2) {
      assert body + after == a + ([sep] + (b + after));
      assert ReadNot(a + ([sep] + (b + after)), k) == Got(e1, [sep] + (b + after), k1);
      assert ReadNot(b + after, k1) == Got(e2, after, k2);
      if sep == AND {
        AndStart(body + after, k, e1, [sep] + (b + after), k1);
        AndStep([e1], b + after, k1, e2, after, k2);
        AndStop([e1, e2], after, k2);
        OrStart(body + after, k, e, after, k2);
        OrStop([e], after, k2);
      } else {
        NotIsAnd(body + after, k, e1, [sep] + (b + after), k1);
        OrStart(body + after, k, e1, [sep] + (b + after), k1);
        NotIsAnd(b + after, k1, e2, after, k2);
        OrStep([e1], b + after, k1, e2, after, k2);
        OrStop([e1, e2], after, k2);
      }
    }
  }

  lemma InWithNullReads(field: string, low: bool, neg: bool, m: nat, k: nat, rest: seq<Tok>)
    requires m > 0
    ensures
      var list := Wrap(low, ColumnTok(field)) + (if neg then [NOT, IN, LP] else [IN, LP]) + Placeholders(m, low) + [RP];
      var nulls := [ColumnTok(field)] + if neg then [IS, NOT, NULL] else [IS, NULL];
      var es := [InList(Low(low, Col(field)), ArgRefs(m, low, k), neg), NullTest(Col(field), neg)];
      ReadNot(Parens(list + [if neg then AND else OR] + nulls) + rest, k) ==
        Got(if neg then AllOf(es) else AnyOf(es), rest, k + m)
  {
    hide ReadPredicate, ReadOperands, ReadNot, ReadOr, Placeholders;
    var list := Wrap(low, ColumnTok(field)) + (if neg then [NOT, IN, LP] else [IN, LP]) + Placeholders(m, low) + [RP];
    var nulls := [ColumnTok(field)] + if neg then [IS, NOT, NULL] else [IS, NULL];
    var e1 := InList(Low(low, Col(field)), ArgRefs(m, low, k), neg);
    var e2 := NullTest(Col(field), neg);
    forall r {:trigger list + r} ensures ReadNot(list + r, k) == Got(e1, r, k + m) {
      InListReads(field, low, neg, m, r, k);
      PredicateIsNot(list + r, k);
    }
    forall r {:trigger nulls + r} ensures ReadNot(nulls + r, k + m) == Got(e2, r, k + m) {
      FieldNullTestReads(field, neg, r, k + m);
      PredicateIsNot(nulls + r, k + m);
    }
    var sep := if neg then AND else OR;
    PairReads(list, nulls, sep, k, e1, k + m, e2, k + m);
    ParensRead(list + [sep] + nulls, k, if neg then AllOf([e1, e2]) else AnyOf([e1, e2]), k + m, rest);
  }

  lemma InReads(env: Env, l: F.Leaf, k: nat, rest: seq<Tok>)
    requires (l.op == F.In || l.op == F.NotIn) && CompileLeaf(env, l).Success?
    ensures ReadNot(CompileLeaf(env, l).value.sql + rest, k) ==
              Got(LeafShape(env, l, k), rest, k + |CompileLeaf(env, l).value.args|)
  {
    hide ReadPredicate, ReadNot, InValues, Placeholders;
    var f := CompileLeaf(env, l).value;
    var low := ShouldLower(l);
    var neg := l.op == F.NotIn;
    var m := |f.args|;
    if F.Null in l.value.items && m > 0 {
      InWithNullReads(l.field, low, neg, m, k, rest);
      var list := Wrap(low, ColumnTok(l.field)) + (if neg then [NOT, IN, LP] else [IN, LP]) + Placeholders(m, low) +
          [RP];
      var nulls := [ColumnTok(l.field)] + if neg then [IS, NOT, NULL] else [IS, NULL];
      assert f.sql == Parens(list + [if neg then AND else OR] + nulls);
    } else {
      PredicateIsNot(f.sql + rest, k);
      if F.Null !in l.value.items {
        InValuesNonEmpty(env, l.value.items, low);
        InListReads(l.field, low, neg, m, rest, k);
      } else {
        FieldNullTestReads(l.field, neg, rest, k);
      }
    }
  }

  lemma LeafReads(env: Env, l: F.Leaf, k: nat, rest: seq<Tok>)
    requires CompileLeaf(env, l).Success?
    ensures ReadNot(CompileLeaf(env, l).value.sql + rest, k) ==
              Got(LeafShape(env, l, k), rest, k + |CompileLeaf(env, l).value.args|)
  {
    hide ReadPredicate, ReadNot;
    if l.op == F.In || l.op == F.NotIn {
      InReads(env, l, k, rest);
    } else {
      PlainLeafReads(env, l, k, rest);
      PredicateIsNot(CompileLeaf(env, l).value.sql + rest, k);
    }
  }

  lemma ExistsReads(field: string, k: nat, rest: seq<Tok>)
    ensures ReadPredicate(CompileExists(field).sql + rest, k) ==
            Got(NullTest(if F.IsAttr(field) then AttrJson(F.AttrPath(field)) else Col(field), true), rest, k)
  {
    hide ReadPredicate;
    var t := CompileExists(field).sql[0];
    var o := if F.IsAttr(field) then AttrJson(F.AttrPath(field)) else Col(field);
    forall more: seq<Tok> ensures ReadOperand([t] + more, k) == Got(o, more, k) {
      assert ([t] + more)[1..] == more;
    }
    NullTestReads(t, o, true, rest, k);
    assert CompileExists(field).sql + rest == [t] + [IS, NOT, NULL] + rest;
  }

  lemma PlainLeafReads(env: Env, l: F.Leaf, k: nat, rest: seq<Tok>)
    requires CompileLeaf(env, l).Success? && l.op != F.In && l.op != F.NotIn
    ensures ReadPredicate(CompileLeaf(env, l).value.sql + rest, k) ==
              Got(LeafShape(env, l, k), rest, k + |CompileLeaf(env, l).value.args|)
  {
    hide ReadPredicate, ReadOperand, ReadOperands, Like.EscapeLike, Lower;
    var f := CompileLeaf(env, l).value;
    var low := ShouldLower(l);
    match l.op {
      case Exists => ExistsReads(l.field, k, rest);
      case Eq | Neq =>
        if Scalar(l.value).value == DNull {
          FieldNullTestReads(l.field, l.op == F.Neq, rest, k);
        } else {
          CompareReads(l.field, low, if l.op == F.Neq then CNe else CEq, rest, k);
        }
      case Contains | StartsWith =>
        LikeReads(l.field, low, low, rest, k);
      case Gt | Lt | Gte | Lte =>
        if F.IsAttr(l.field) && ToFloat(env, Scalar(l.value).value).Some? {
          CastCompareReads(l.field, RangeCmp(l.op), rest, k);
        } else {
          CompareReads(l.field, false, RangeCmp(l.op), rest, k);
          assert f.sql + rest == Wrap(false, ColumnTok(l.field)) + [OP(RangeCmp(l.op))] + Wrap(false, PARAM) + rest;
        }
    }
  }

  // ------------------------------------------------------------------ trees

  /** The children of a group as separate fragments. */
  ghost function Fragments(env: Env, cs: seq<F.Node>): seq<Fragment>
    requires CompileAll(env, cs).Success?
    decreases cs
  {
    if cs == [] then [] else [Compile(env, cs[0]).value] + Fragments(env, cs[1..])
  }

  lemma {:induction false} FragmentsAreParts(env: Env, cs: seq<F.Node>)
    requires CompileAll(env, cs).Success?
    ensures CompileAll(env, cs).value == Parts(ParenthesisedSqls(Fragments(env, cs)), AllArgs(Fragments(env, cs)))
    decreases cs
  {
    if cs != [] {
      FragmentsAreParts(env, cs[1..]);
      assert Fragments(env, cs)[1..] == Fragments(env, cs[1..]);
    }
  }

  /** Main result: the compiled text of any tree reads back as the tree's shape. */
  lemma {:induction false} TreeReads(env: Env, n: F.Node, k: nat)
    requires Compile(env, n).Success?
    ensures Reads(Compile(env, n).value.sql, k, Shape(env, n, k), k + |Compile(env, n).value.args|)
    decreases n
  {
    hide ReadOr, ReadNot, CompileLeaf, LeafShape;
    var f := Compile(env, n).value;
    match n {
      case Pred(l) =>
        forall rest | Stops(rest) ensures ReadOr(f.sql + rest, k) == Got(Shape(env, n, k), rest, k + |f.args|) {
          LeafReads(env, l, k, rest);
          NotIsOr(f.sql + rest, k, Shape(env, n, k), rest, k + |f.args|);
        }
      case Group(op, not, children) =>
        TreesRead(env, children, k);
        FragmentsAreParts(env, children);
        var fs := Fragments(env, children);
        var es := ShapeAll(env, children, k);
        var joined := JoinToks(ParenthesisedSqls(fs), Separator(op));
        var e := if op == F.Or then Disjunction(es) else Conjunction(es);
        forall rest | Stops(rest) ensures ReadOr(joined + rest, k) == Got(e, rest, k + |f.args|) {
          JoinReads(fs, k, es, Separator(op), rest);
        }
        if not {
          NegationReads(joined, k, e, k + |f.args|);
        }
    }
  }

  lemma NegationReads(ts: seq<Tok>, k: nat, e: Expr, next: nat)
    requires Reads(ts, k, e, next)
    ensures Reads([NOT] + Parens(ts), k, NotOf(e), next)
  {
    hide ReadOr, ReadPrimary;
    forall rest | Stops(rest) ensures ReadOr([NOT] + Parens(ts) + rest, k) == Got(NotOf(e), rest, next) {
      ParensRead(ts, k, e, next, rest);
      var all := [NOT] + Parens(ts) + rest;
      assert all[1..] == Parens(ts) + rest;
      NotIsOr(all, k, NotOf(e), rest, next);
    }
  }

  lemma {:induction false} TreesRead(env: Env, cs: seq<F.Node>, k: nat)
    requires CompileAll(env, cs).Success?
    ensures ReadsEach(Fragments(env, cs), k, ShapeAll(env, cs, k))
    decreases cs
  {
    hide ReadOr, Reads, Shape, Compile;
    if cs != [] {
      TreeReads(env, cs[0], k);
      TreesRead(env, cs[1..], k + |Compile(env, cs[0]).value.args|);
      assert Fragments(env, cs)[1..] == Fragments(env, cs[1..]);
      assert ShapeAll(env, cs, k)[1..] == ShapeAll(env, cs[1..], k + |Compile(env, cs[0]).value.args|);
    }
  }
}

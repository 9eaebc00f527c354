/** The WHERE clause and the in-memory matcher agree. */
module Agreement {
  import opened Text
  import F = Filter
  import opened Events
  import opened Sql
  import opened Compiler
  import opened ReadBack
  import opened Matcher
  import Like

  // ---------------------------------------------------------- side conditions

  predicate TextOrNullValue(v: F.Value) {
    v.Str? || v.Null?
  }

  /** A value that the substring tests print the same way on both sides. */
  predicate PrintedValue(v: F.Value) {
    v.Str? || v.Int? || v.Bool?
  }

  /** Leaves on a field other than the timestamp that compare text with text, or an attribute
      with a number. */
  predicate SupportedLeaf(l: F.Leaf) {
    l.field != "timestamp" &&
    match l.op
    case Exists => true
    case Eq | Neq => TextOrNullValue(l.value)
    case In | NotIn => l.value.List? && l.value.items != [] && forall v <- l.value.items :: TextOrNullValue(v)
    case Contains | StartsWith => PrintedValue(l.value)
    case Gt | Lt | Gte | Lte => l.value.Str? || (F.IsAttr(l.field) && (l.value.Int? || l.value.Real?))
    case UnknownOp(_) => false
  }

  /** The two columns stored as "" rather than NULL must not be blank, and an attribute
      compared with a number must itself be one (the cast fails otherwise). */
  predicate Comparable(env: Env, l: F.Leaf, ev: Event) {
    (l.field == "source" || l.field == "raw" ==> CoreText(ev, l.field) != "") &&
    (F.IsAttr(l.field) && F.IsRangeOp(l.op) && NumberOf(env, l.value).Some? ==>
       match FieldText(env, ev, l.field) case None => true case Some(s) => env.num(s).Some?)
  }

  /** The number a range value stands for, if any: the compiler then casts the attribute. */
  function NumberOf(env: Env, v: F.Value): Option<real> {
    match Scalar(v)
    case Success(d) => ToFloat(env, d)
    case Failure(_) => None
  }

  ghost predicate AllLeaves(n: F.Node, p: F.Leaf -> bool) {
    match n
    case Pred(l) => p(l)
    case Group(_, _, cs) => forall c <- cs :: AllLeaves(c, p)
  }

  ghost predicate Covered(env: Env, n: F.Node, ev: Event) {
    AllLeaves(n, l => SupportedLeaf(l) && Comparable(env, l, ev))
  }

  predicate Present(env: Env, l: F.Leaf, ev: Event) {
    FieldText(env, ev, l.field).Some?
  }

  /** Operators that the matcher answers with "yes" when the field is absent. */
  predicate Negative(op: F.Op) {
    op == F.Neq || op == F.NotIn
  }

  /** Leaves that test for null, and so have a definite answer on an absent field. */
  predicate TestsNull(l: F.Leaf) {
    l.op == F.Exists || ((l.op == F.Eq || l.op == F.Neq) && l.value == F.Null) ||
    ((l.op == F.In || l.op == F.NotIn) && l.value.List? && F.Null in l.value.items)
  }

  /** On an absent field, an ordinary leaf may stand only under an even number of
      negations, and a negative one only under an odd number. */
  ghost predicate PolarityOk(env: Env, n: F.Node, ev: Event, positive: bool) {
    match n
    case Pred(l) => Present(env, l, ev) || TestsNull(l) || (positive != Negative(l.op))
    case Group(_, not, cs) => forall c <- cs :: PolarityOk(env, c, ev, positive != not)
  }

  // -------------------------------------------------------------------- leaves

  function LowText(env: Env, low: bool, o: Option<string>): Datum {
    match o case None => DNull case Some(s) => DText(if low then Lower(env, s) else s)
  }

  lemma ColumnValue(env: Env, l: F.Leaf, args: seq<Datum>, ev: Event)
    requires F.IsAttr(l.field) || F.IsCore(l.field)
    requires SupportedLeaf(l) && Comparable(env, l, ev)
    ensures ValueOf(env, Col(l.field), args, ev) == TextOrNull(FieldText(env, ev, l.field))
    ensures forall low: bool ::
              ValueOf(env, Low(low, Col(l.field)), args, ev) == LowText(env, low, FieldText(env, ev, l.field))
  {
  }

  /** The value bound to a lower-cased placeholder is lower-cased twice, which changes nothing. */
  lemma PlaceholderValue(env: Env, low: bool, s: string, args: seq<Datum>, i: nat, ev: Event)
    requires Lawful(env) && i < |args|
    requires args[i] == DText(if low then Lower(env, s) else s)
    ensures ValueOf(env, Low(low, Arg(i)), args, ev) == DText(if low then Lower(env, s) else s)
  {
    LowerTwice(env, s);
  }

  ghost predicate HoldsAt(args: seq<Datum>, k: nat, mine: seq<Datum>) {
    k + |mine| <= |args| && args[k..k + |mine|] == mine
  }

  /** The values of a list that starts with a text, and their place among the arguments. */
  lemma InListHead(env: Env, items: seq<F.Value>, low: bool, args: seq<Datum>, k: nat)
    requires items != [] && items[0].Str? && InValues(env, items, low).Success? &&
             HoldsAt(args, k, InValues(env, items, low).value)
    ensures InValues(env, items[1..], low).Success? && HoldsAt(args, k + 1, InValues(env, items[1..], low).value)
    ensures k < |args| && args[k] == DText(if low then Lower(env, items[0].s) else items[0].s)
    ensures |InValues(env, items, low).value| == 1 + |InValues(env, items[1..], low).value|
  {
    hide Lower;
    var ds := InValues(env, items, low).value;
    assert args[k..k + |ds|][0] == ds[0];
    assert args[k..k + |ds|][1..] == args[k + 1..k + |ds|];
  }

  lemma In3Head(env: Env, a: Datum, n: nat, low: bool, k: nat, args: seq<Datum>, ev: Event)
    requires n > 0
    ensures In3(env, a, ArgRefs(n, low, k), args, ev) ==
            Or3(Compare3(CEq, a, ValueOf(env, Low(low, Arg(k)), args, ev)),
                In3(env, a, ArgRefs(n - 1, low, k + 1), args, ev))
  {
    hide ValueOf, Compare3, Or3;
    assert ArgRefs(n, low, k)[1..] == ArgRefs(n - 1, low, k + 1);
  }

  lemma {:induction false} InListText(env: Env, l: F.Leaf, items: seq<F.Value>, args: seq<Datum>, k: nat, ev: Event,
                                      got: string)
    requires Lawful(env) && forall v <- items :: TextOrNullValue(v)
    requires InValues(env, items, ShouldLower(l)).Success?
    requires HoldsAt(args, k, InValues(env, items, ShouldLower(l)).value)
    ensures
      var low := ShouldLower(l);
      In3(env, DText(if low then Lower(env, got) else got), ArgRefs(|InValues(env, items, low).value|, low, k), args,
          ev)
        == Truth(InAny(env, l, items, got))
  {
    hide ValueOf, HoldsAt, ShouldLower, Lower, Low, Lawful;
    var low := ShouldLower(l);
    if items != [] {
      assert items[0] in items;
      if items[0] == F.Null {
        InListText(env, l, items[1..], args, k, ev, got);
      } else {
        InListHead(env, items, low, args, k);
        InListText(env, l, items[1..], args, k + 1, ev, got);
        PlaceholderValue(env, low, items[0].s, args, k, ev);
        In3Head(env, DText(if low then Lower(env, got) else got), |InValues(env, items, low).value|, low, k, args, ev);
      }
    }
  }

  lemma {:induction false} InListNull(env: Env, n: nat, low: bool, k: nat, args: seq<Datum>, ev: Event)
    ensures In3(env, DNull, ArgRefs(n, low, k), args, ev) == if n == 0 then F else U
  {
    hide ValueOf, Low;
    if n > 0 {
      In3Head(env, DNull, n, low, k, args, ev);
      InListNull(env, n - 1, low, k + 1, args, ev);
    }
  }

  /** The two halves of a membership condition: the list test and the null test. */
  lemma InPieces(env: Env, l: F.Leaf, args: seq<Datum>, k: nat, ev: Event)
    requires Lawful(env) && (l.op == F.In || l.op == F.NotIn) && SupportedLeaf(l) && Comparable(env, l, ev)
    requires CompileLeaf(env, l).Success? && HoldsAt(args, k, CompileLeaf(env, l).value.args)
    ensures
      var low := ShouldLower(l);
      var neg := l.op == F.NotIn;
      var m := |InValues(env, l.value.items, low).value|;
      var got := FieldText(env, ev, l.field);
      Eval(env, InList(Low(low, Col(l.field)), ArgRefs(m, low, k), neg), args, ev) ==
        (if got.Some? then Truth(InAny(env, l, l.value.items, got.value) != neg)
         else if m == 0 then Truth(neg)
         else U) &&
      Eval(env, NullTest(Col(l.field), neg), args, ev) == Truth(got.None? != neg)
  {
    hide InAny, EvalAll, EvalAny, Lower, FieldText, ColumnOf, Attribute, InValues;
    ColumnValue(env, l, args, ev);
    var low := ShouldLower(l);
    InListNull(env, |InValues(env, l.value.items, low).value|, low, k, args, ev);
    if got :| FieldText(env, ev, l.field) == Some(got) {
      InListText(env, l, l.value.items, args, k, ev, got);
    }
  }

  lemma {:induction false} NoneButNulls(env: Env, l: F.Leaf, items: seq<F.Value>, low: bool, got: string)
    requires InValues(env, items, low) == Success([])
    ensures !InAny(env, l, items, got)
  {
    if items != [] {
      NoneButNulls(env, l, items[1..], low, got);
    }
  }

  /** What a membership leaf evaluates to, present or absent. */
  lemma InLeaf(env: Env, l: F.Leaf, args: seq<Datum>, k: nat, ev: Event)
    requires Lawful(env) && (l.op == F.In || l.op == F.NotIn) && SupportedLeaf(l) && Comparable(env, l, ev)
    requires CompileLeaf(env, l).Success? && HoldsAt(args, k, CompileLeaf(env, l).value.args)
    ensures
      var v := Eval(env, LeafShape(env, l, k), args, ev);
      if Present(env, l, ev) || TestsNull(l) then v == Truth(MatchLeaf(env, l, ev))
      else v == U && MatchLeaf(env, l, ev) == Negative(l.op)
  {
    hide InValues, InAny, EvalAll, EvalAny, FieldText, In3, ArgRefs, ValueOf;
    var low := ShouldLower(l);
    var items := l.value.items;
    var m := |InValues(env, items, low).value|;
    InPieces(env, l, args, k, ev);
    if F.Null !in items {
      InValuesNonEmpty(env, items, low);
    } else {
      var list := InList(Low(low, Col(l.field)), ArgRefs(m, low, k), l.op == F.NotIn);
      PairEval(env, list, NullTest(Col(l.field), l.op == F.NotIn), args, ev);
      if m == 0 && Present(env, l, ev) {
        NoneButNulls(env, l, items, low, FieldText(env, ev, l.field).value);
      }
    }
  }

  lemma EvalCons(env: Env, e: Expr, es: seq<Expr>, args: seq<Datum>, ev: Event)
    ensures EvalAll(env, [e] + es, args, ev) == And3(Eval(env, e, args, ev), EvalAll(env, es, args, ev))
    ensures EvalAny(env, [e] + es, args, ev) == Or3(Eval(env, e, args, ev), EvalAny(env, es, args, ev))
  {
    hide Eval;
    assert ([e] + es)[1..] == es;
  }

  lemma PairEval(env: Env, a: Expr, b: Expr, args: seq<Datum>, ev: Event)
    ensures EvalAll(env, [a, b], args, ev) == And3(Eval(env, a, args, ev), Eval(env, b, args, ev))
    ensures EvalAny(env, [a, b], args, ev) == Or3(Eval(env, a, args, ev), Eval(env, b, args, ev))
  {
    hide Eval;
    EvalCons(env, a, [b], args, ev);
    EvalCons(env, b, [], args, ev);
    assert [a] + [b] == [a, b] && [b] + [] == [b];
  }

  lemma SubstringLeaf(env: Env, l: F.Leaf, args: seq<Datum>, k: nat, ev: Event)
    requires Lawful(env) && (l.op == F.Contains || l.op == F.StartsWith) && SupportedLeaf(l) && Comparable(env, l, ev)
    requires CompileLeaf(env, l).Success? && HoldsAt(args, k, CompileLeaf(env, l).value.args)
    ensures
      var v := Eval(env, LeafShape(env, l, k), args, ev);
      if Present(env, l, ev) then v == Truth(MatchLeaf(env, l, ev)) else v == U && !MatchLeaf(env, l, ev)
  {
    hide Like.Matches, Contains, Lower, Like.EscapeLike, FieldText;
    var low := ShouldLower(l);
    var mine := CompileLeaf(env, l).value.args;
    assert args[k] == args[k..k + |mine|][0] == mine[0];
    ColumnValue(env, l, args, ev);
    var left := if l.op == F.Contains then "%" else "";
    var shown := Show(env, Scalar(l.value).value);
    var needle := Fold(env, l, shown);
    PatternText(env, low, left, shown);
    PlaceholderValue(env, low, left + Like.EscapeLike(shown) + "%", args, k, ev);
    if got :| FieldText(env, ev, l.field) == Some(got) {
      var text := Fold(env, l, got);
      Like.ContainsPatternIsExact(needle, text);
      Like.PrefixPatternIsExact(needle, text);
      assert "" + Like.EscapeLike(needle) + "%" == Like.EscapeLike(needle) + "%";
    }
  }

  /** Lower-casing a whole pattern is building the pattern from lower-cased text. */
  lemma PatternText(env: Env, low: bool, left: string, s: string)
    requires Lawful(env) && (left == "" || left == "%")
    ensures (if low then Lower(env, left + Like.EscapeLike(s) + "%") else left + Like.EscapeLike(s) + "%") ==
            left + Like.EscapeLike(if low then Lower(env, s) else s) + "%"
  {
    if low {
      Like.EscapeCommutesWithLower(env, s);
      LowerConcat(env, left + Like.EscapeLike(s), "%");
      LowerConcat(env, left, Like.EscapeLike(s));
      assert IsLikeSpecial('%');
      assert Lower(env, "%") == "%" && Lower(env, "") == "";
    }
  }

  lemma EqualityLeaf(env: Env, l: F.Leaf, args: seq<Datum>, k: nat, ev: Event)
    requires Lawful(env) && l.op in {F.Exists, F.Eq, F.Neq} && SupportedLeaf(l) && Comparable(env, l, ev)
    requires CompileLeaf(env, l).Success? && HoldsAt(args, k, CompileLeaf(env, l).value.args)
    ensures
      var v := Eval(env, LeafShape(env, l, k), args, ev);
      if Present(env, l, ev) || TestsNull(l) then v == Truth(MatchLeaf(env, l, ev))
      else v == U && MatchLeaf(env, l, ev) == Negative(l.op)
  {
    hide Lower, FieldText, ColumnOf, Attribute, EvalAll, EvalAny, In3, Less;
    ColumnValue(env, l, args, ev);
    var mine := CompileLeaf(env, l).value.args;
    if l.op != F.Exists && l.value != F.Null {
      assert args[k] == args[k..k + |mine|][0] == mine[0];
      PlaceholderValue(env, ShouldLower(l), l.value.s, args, k, ev);
    }
  }

  /** An attribute range with a number: both sides compare the stored text as a number. */
  lemma NumberRangeLeaf(env: Env, l: F.Leaf, args: seq<Datum>, k: nat, ev: Event)
    requires F.IsRangeOp(l.op) && SupportedLeaf(l) && Comparable(env, l, ev) && F.IsAttr(l.field) &&
             NumberOf(env, l.value).Some?
    requires CompileLeaf(env, l).Success? && HoldsAt(args, k, CompileLeaf(env, l).value.args)
    ensures
      var v := Eval(env, LeafShape(env, l, k), args, ev);
      if Present(env, l, ev) then v == Truth(MatchLeaf(env, l, ev)) else v == U && !MatchLeaf(env, l, ev)
  {
    hide Lower, FieldText, ColumnOf, Attribute, EvalAll, EvalAny, In3, Less;
    ColumnValue(env, l, args, ev);
    var mine := CompileLeaf(env, l).value.args;
    assert mine == [DReal(NumberOf(env, l.value).value)];
    assert args[k] == args[k..k + |mine|][0] == mine[0];
  }

  lemma RangeLeaf(env: Env, l: F.Leaf, args: seq<Datum>, k: nat, ev: Event)
    requires F.IsRangeOp(l.op) && SupportedLeaf(l) && Comparable(env, l, ev)
    requires CompileLeaf(env, l).Success? && HoldsAt(args, k, CompileLeaf(env, l).value.args)
    ensures
      var v := Eval(env, LeafShape(env, l, k), args, ev);
      if Present(env, l, ev) || TestsNull(l) then v == Truth(MatchLeaf(env, l, ev))
      else v == U && MatchLeaf(env, l, ev) == Negative(l.op)
  {
    hide Lower, FieldText, ColumnOf, Attribute, EvalAll, EvalAny, In3;
    if F.IsAttr(l.field) && NumberOf(env, l.value).Some? {
      NumberRangeLeaf(env, l, args, k, ev);
    } else {
      ColumnValue(env, l, args, ev);
      var mine := CompileLeaf(env, l).value.args;
      assert mine == [DText(l.value.s)];
      assert args[k] == args[k..k + |mine|][0] == mine[0];
    }
  }

  /** Every leaf: on a present field, or when it tests for null, SQL gives the matcher's
      answer; otherwise SQL gives "unknown" and the matcher says yes only to the
      negative operators. */
  lemma LeafAnswer(env: Env, l: F.Leaf, args: seq<Datum>, k: nat, ev: Event)
    requires Lawful(env) && SupportedLeaf(l) && Comparable(env, l, ev)
    requires CompileLeaf(env, l).Success? && HoldsAt(args, k, CompileLeaf(env, l).value.args)
    ensures
      var v := Eval(env, LeafShape(env, l, k), args, ev);
      if Present(env, l, ev) || TestsNull(l) then v == Truth(MatchLeaf(env, l, ev))
      else v == U && MatchLeaf(env, l, ev) == Negative(l.op)
  {
    match l.op
    case In | NotIn => InLeaf(env, l, args, k, ev);
    case Contains | StartsWith => SubstringLeaf(env, l, args, k, ev);
    case Exists | Eq | Neq => EqualityLeaf(env, l, args, k, ev);
    case Gt | Lt | Gte | Lte => RangeLeaf(env, l, args, k, ev);
  }

  /** For a single condition the polarity condition is exact. */
  lemma LeafAgreesIff(env: Env, l: F.Leaf, ev: Event)
    requires Lawful(env) && SupportedLeaf(l) && Comparable(env, l, ev) && CompileLeaf(env, l).Success?
    ensures
      var v := Eval(env, LeafShape(env, l, 0), CompileLeaf(env, l).value.args, ev);
      ((v == T) == MatchLeaf(env, l, ev)) <==> PolarityOk(env, F.Pred(l), ev, true)
  {
    var mine := CompileLeaf(env, l).value.args;
    assert mine[0..0 + |mine|] == mine;
    LeafAnswer(env, l, mine, 0, ev);
  }

  // --------------------------------------------------------------------- trees

  lemma ArgsOfChildren(env: Env, cs: seq<F.Node>, args: seq<Datum>, k: nat)
    requires cs != [] && CompileAll(env, cs).Success? && HoldsAt(args, k, CompileAll(env, cs).value.args)
    ensures HoldsAt(args, k, Compile(env, cs[0]).value.args)
    ensures HoldsAt(args, k + |Compile(env, cs[0]).value.args|, CompileAll(env, cs[1..]).value.args)
  {
    var a := Compile(env, cs[0]).value.args;
    var b := CompileAll(env, cs[1..]).value.args;
    assert (a + b)[..|a|] == a && (a + b)[|a|..] == b;
    assert args[k..k + |a|] == args[k..k + |a + b|][..|a|];
    assert args[k + |a|..k + |a| + |b|] == args[k..k + |a + b|][|a|..];
  }

  /** Agreement under a polarity: a positively placed tree is TRUE exactly when it
      matches, a negatively placed one is FALSE exactly when it does not. */
  ghost predicate AgreesAt(v: TV, matched: bool, positive: bool) {
    if positive then (v == T) == matched else (v == F) == !matched
  }

  lemma ConjunctionEval(env: Env, es: seq<Expr>, args: seq<Datum>, ev: Event)
    requires es != []
    ensures Eval(env, Conjunction(es), args, ev) == EvalAll(env, es, args, ev)
    ensures Eval(env, Disjunction(es), args, ev) == EvalAny(env, es, args, ev)
  {
    if |es| == 1 {
      EvalCons(env, es[0], [], args, ev);
      assert [es[0]] + [] == es;
    }
  }

  /** The shapes of the children, split at the first. */
  lemma ShapesSplit(env: Env, cs: seq<F.Node>, args: seq<Datum>, k: nat, ev: Event)
    requires cs != [] && CompileAll(env, cs).Success?
    ensures
      var es := ShapeAll(env, cs, k);
      var k1 := k + |Compile(env, cs[0]).value.args|;
      var v := Eval(env, Shape(env, cs[0], k), args, ev);
      EvalAll(env, es, args, ev) == And3(v, EvalAll(env, ShapeAll(env, cs[1..], k1), args, ev)) &&
      EvalAny(env, es, args, ev) == Or3(v, EvalAny(env, ShapeAll(env, cs[1..], k1), args, ev))
  {
    hide Shape, Eval;
    var es := ShapeAll(env, cs, k);
    assert es[0] == Shape(env, cs[0], k) && es[1..] == ShapeAll(env, cs[1..], k + |Compile(env, cs[0]).value.args|);
  }

  lemma {:induction false} TreeAgrees(env: Env, n: F.Node, args: seq<Datum>, k: nat, ev: Event, positive: bool)
    requires Lawful(env) && Covered(env, n, ev) && PolarityOk(env, n, ev, positive)
    requires Compile(env, n).Success? && HoldsAt(args, k, Compile(env, n).value.args)
    ensures AgreesAt(Eval(env, Shape(env, n, k), args, ev), Match(env, n, ev), positive)
    decreases n
  {
    match n {
      case Pred(l) => LeafAnswer(env, l, args, k, ev);
      case Group(op, not, cs) =>
        var es := ShapeAll(env, cs, k);
        TreesAgree(env, cs, args, k, ev, positive != not);
        ConjunctionEval(env, es, args, ev);
    }
  }

  lemma {:induction false} TreesAgree(env: Env, cs: seq<F.Node>, args: seq<Datum>, k: nat, ev: Event, positive: bool)
    requires Lawful(env) && forall c <- cs :: Covered(env, c, ev) && PolarityOk(env, c, ev, positive)
    requires CompileAll(env, cs).Success? && HoldsAt(args, k, CompileAll(env, cs).value.args)
    ensures AgreesAt(EvalAll(env, ShapeAll(env, cs, k), args, ev), MatchAll(env, cs, ev), positive)
    ensures AgreesAt(EvalAny(env, ShapeAll(env, cs, k), args, ev), MatchAny(env, cs, ev), positive)
    decreases cs
  {
    hide Shape, Eval, Match, PolarityOk, AllLeaves, HoldsAt, Compile;
    if cs != [] {
      ArgsOfChildren(env, cs, args, k);
      var k1 := k + |Compile(env, cs[0]).value.args|;
      assert cs[0] in cs && forall c <- cs[1..] :: c in cs;
      TreeAgrees(env, cs[0], args, k, ev, positive);
      TreesAgree(env, cs[1..], args, k1, ev, positive);
      ShapesSplit(env, cs, args, k, ev);
    }
  }

  /** No condition on absent fields: whatever SQL answers definitely, the matcher answers
      the same; the only divergence is SQL's "unknown". */
  lemma {:induction false} MatcherRefinesSql(env: Env, n: F.Node, args: seq<Datum>, k: nat, ev: Event)
    requires Lawful(env) && Covered(env, n, ev)
    requires Compile(env, n).Success? && HoldsAt(args, k, Compile(env, n).value.args)
    ensures var v := Eval(env, Shape(env, n, k), args, ev); v == U || v == Truth(Match(env, n, ev))
    decreases n
  {
    match n {
      case Pred(l) => LeafAnswer(env, l, args, k, ev);
      case Group(op, not, cs) =>
        var es := ShapeAll(env, cs, k);
        MatcherRefinesSqlAll(env, cs, args, k, ev);
        ConjunctionEval(env, es, args, ev);
    }
  }

  lemma {:induction false} MatcherRefinesSqlAll(env: Env, cs: seq<F.Node>, args: seq<Datum>, k: nat, ev: Event)
    requires Lawful(env) && forall c <- cs :: Covered(env, c, ev)
    requires CompileAll(env, cs).Success? && HoldsAt(args, k, CompileAll(env, cs).value.args)
    ensures var v := EvalAll(env, ShapeAll(env, cs, k), args, ev); v == U || v == Truth(MatchAll(env, cs, ev))
    ensures var v := EvalAny(env, ShapeAll(env, cs, k), args, ev); v == U || v == Truth(MatchAny(env, cs, ev))
    decreases cs
  {
    hide Shape, Eval, Match, PolarityOk, AllLeaves, HoldsAt, Compile;
    if cs != [] {
      ArgsOfChildren(env, cs, args, k);
      var k1 := k + |Compile(env, cs[0]).value.args|;
      assert cs[0] in cs && forall c <- cs[1..] :: c in cs;
      MatcherRefinesSql(env, cs[0], args, k, ev);
      MatcherRefinesSqlAll(env, cs[1..], args, k1, ev);
      ShapesSplit(env, cs, args, k, ev);
    }
  }

  // -------------------------------------------------------- the emitted clause

  /** The meaning of an emitted fragment: read it, then evaluate it with its arguments. */
  predicate Selects(env: Env, f: Fragment, ev: Event) {
    var r := ReadOr(f.sql, 0);
    r.Got? && r.rest == [] && r.next == |f.args| && Eval(env, r.val, f.args, ev) == T
  }

  lemma EmittedMeaning(env: Env, n: F.Node)
    requires Compile(env, n).Success?
    ensures var f := Compile(env, n).value; ReadOr(f.sql, 0) == Got(Shape(env, n, 0), [], |f.args|)
    ensures var a := Compile(env, n).value.args; HoldsAt(a, 0, a)
  {
    hide ReadOr, Shape, Compile;
    var f := Compile(env, n).value;
    TreeReads(env, n, 0);
    assert Stops([]);
    assert f.sql + [] == f.sql && f.args[0..0 + |f.args|] == f.args;
  }

  /** Main result: the text and arguments the compiler emits select exactly the events the
      matcher accepts, whenever absent fields occur only at the polarity allowed above. */
  lemma CompiledAgreesWithMatch(env: Env, n: F.Node, ev: Event)
    requires Lawful(env) && Covered(env, n, ev) && PolarityOk(env, n, ev, true) && Compile(env, n).Success?
    ensures Selects(env, Compile(env, n).value, ev) <==> Match(env, n, ev)
  {
    hide ReadOr, Eval, Match, Shape;
    EmittedMeaning(env, n);
    TreeAgrees(env, n, Compile(env, n).value.args, 0, ev, true);
  }

  /** With every mentioned field present the clause is two-valued and agrees outright. */
  lemma PresentFieldsAgree(env: Env, n: F.Node, ev: Event)
    requires Lawful(env) && Covered(env, n, ev) && Compile(env, n).Success?
    requires AllLeaves(n, l => Present(env, l, ev))
    ensures Eval(env, Shape(env, n, 0), Compile(env, n).value.args, ev) == Truth(Match(env, n, ev))
    ensures Selects(env, Compile(env, n).value, ev) <==> Match(env, n, ev)
  {
    hide ReadOr, Eval, Match, Shape;
    PresentIsOk(env, n, ev, true);
    PresentIsOk(env, n, ev, false);
    EmittedMeaning(env, n);
    TreeAgrees(env, n, Compile(env, n).value.args, 0, ev, true);
    TreeAgrees(env, n, Compile(env, n).value.args, 0, ev, false);
  }

  lemma {:induction false} PresentIsOk(env: Env, n: F.Node, ev: Event, positive: bool)
    requires AllLeaves(n, l => Present(env, l, ev))
    ensures PolarityOk(env, n, ev, positive)
  {
    if n.Group? {
      forall c <- n.children ensures PolarityOk(env, c, ev, positive != n.not) {
        PresentIsOk(env, c, ev, positive != n.not);
      }
    }
  }

  ghost predicate NegationFree(n: F.Node) {
    match n
    case Pred(l) => !Negative(l.op)
    case Group(_, not, cs) => !not && forall c <- cs :: NegationFree(c)
  }

  /** Without NOT, neq and not_in the two agree even on absent fields. */
  lemma NegationFreeAgrees(env: Env, n: F.Node, ev: Event)
    requires Lawful(env) && Covered(env, n, ev) && Compile(env, n).Success? && NegationFree(n)
    ensures Selects(env, Compile(env, n).value, ev) <==> Match(env, n, ev)
  {
    NegationFreeIsOk(env, n, ev);
    CompiledAgreesWithMatch(env, n, ev);
  }

  lemma {:induction false} NegationFreeIsOk(env: Env, n: F.Node, ev: Event)
    requires NegationFree(n)
    ensures PolarityOk(env, n, ev, true)
  {
    if n.Group? {
      forall c <- n.children ensures PolarityOk(env, c, ev, true) {
        NegationFreeIsOk(env, c, ev);
      }
    }
  }

  /** Whatever the stored search returns, live tail shows too. */
  lemma SelectedImpliesMatched(env: Env, n: F.Node, ev: Event)
    requires Lawful(env) && Covered(env, n, ev) && Compile(env, n).Success? && Selects(env, Compile(env, n).value, ev)
    ensures Match(env, n, ev)
  {
    hide ReadOr, Eval, Match, Shape;
    EmittedMeaning(env, n);
    MatcherRefinesSql(env, n, Compile(env, n).value.args, 0, ev);
  }

  // --------------------------------------------------------- where they differ

  /** A single condition under any number of groups of one child, negated or not. */
  ghost predicate IsChain(n: F.Node) {
    n.Pred? || (|n.children| == 1 && IsChain(n.children[0]))
  }

  /** What is answered when the polarity is wrong: SQL does not know, and the matcher says yes to
      a positively placed condition and no to a negatively placed one. */
  lemma {:induction false} WrongPolarity(env: Env, n: F.Node, args: seq<Datum>, k: nat, ev: Event, positive: bool)
    requires Lawful(env) && IsChain(n) && Covered(env, n, ev) && !PolarityOk(env, n, ev, positive)
    requires Compile(env, n).Success? && HoldsAt(args, k, Compile(env, n).value.args)
    ensures Eval(env, Shape(env, n, k), args, ev) == U && Match(env, n, ev) == positive
    decreases n
  {
    hide HoldsAt, CompileLeaf, MatchLeaf, LeafShape, Present, SupportedLeaf, Comparable, TestsNull, Lawful;
    match n {
      case Pred(l) => LeafAnswer(env, l, args, k, ev);
      case Group(op, not, cs) =>
        var c := cs[0];
        assert cs == [c] && cs[1..] == [];
        ArgsOfChildren(env, cs, args, k);
        WrongPolarity(env, c, args, k, ev, positive != not);
        ConjunctionEval(env, ShapeAll(env, cs, k), args, ev);
        ShapesSplit(env, cs, args, k, ev);
        assert ShapeAll(env, [], k + |Compile(env, c).value.args|) == [];
        OneChildMatches(env, c, ev);
    }
  }

  lemma OneChildMatches(env: Env, c: F.Node, ev: Event)
    ensures MatchAll(env, [c], ev) == MatchAny(env, [c], ev) == Match(env, c, ev)
  {
    hide Match;
    assert [c][1..] == [];
  }

  /** For a condition under any chain of NOTs, stored search and live tail agree if and only if an
      absent field occurs at the allowed polarity. */
  lemma ChainAgreesIff(env: Env, n: F.Node, ev: Event)
    requires Lawful(env) && IsChain(n) && Covered(env, n, ev) && Compile(env, n).Success?
    ensures (Selects(env, Compile(env, n).value, ev) <==> Match(env, n, ev)) <==> PolarityOk(env, n, ev, true)
  {
    hide ReadOr, Eval, Match, Shape, PolarityOk, Compile, IsChain;
    if PolarityOk(env, n, ev, true) {
      CompiledAgreesWithMatch(env, n, ev);
    } else {
      EmittedMeaning(env, n);
      WrongPolarity(env, n, Compile(env, n).value.args, 0, ev, true);
    }
  }

  lemma NegatedCompiles(env: Env, c: F.Node)
    requires Compile(env, c).Success?
    ensures Compile(env, F.Group(F.And, true, [c])).Success?
  {
    assert [c][1..] == [];
    assert CompileAll(env, []).Success?;
  }

  lemma NegatedIsCovered(env: Env, l: F.Leaf, ev: Event)
    requires SupportedLeaf(l) && Comparable(env, l, ev)
    ensures Covered(env, F.Group(F.And, true, [F.Pred(l)]), ev) && IsChain(F.Group(F.And, true, [F.Pred(l)]))
  {
    hide SupportedLeaf, Comparable;
    var c := F.Pred(l);
    assert Covered(env, c, ev) && IsChain(c);
    assert F.Group(F.And, true, [c]).children == [c];
  }

  /** NOT over a positive condition on an absent field: nothing is selected, everything matches. */
  lemma NotOnAbsentFieldDiffers(env: Env, l: F.Leaf, ev: Event)
    requires Lawful(env) && SupportedLeaf(l) && Comparable(env, l, ev) && CompileLeaf(env, l).Success?
    requires !Present(env, l, ev) && !TestsNull(l) && !Negative(l.op)
    ensures var n := F.Group(F.And, true, [F.Pred(l)]);
            Compile(env, n).Success? && !Selects(env, Compile(env, n).value, ev) && Match(env, n, ev)
  {
    hide ReadOr, Eval, Match, Shape, CompileLeaf, Present, SupportedLeaf, Comparable, TestsNull, AllLeaves, IsChain;
    var c := F.Pred(l);
    var n := F.Group(F.And, true, [c]);
    NegatedCompiles(env, c);
    NegatedIsCovered(env, l, ev);
    assert !PolarityOk(env, c, ev, false);
    assert c in n.children;
    assert !PolarityOk(env, n, ev, true);
    EmittedMeaning(env, n);
    WrongPolarity(env, n, Compile(env, n).value.args, 0, ev, true);
  }
}

/** The filter compiler: from a tree to a WHERE fragment and its bound arguments. */
module Compiler {
  import opened Text
  import F = Filter
  import opened Sql
  import Like

  datatype Result<+V, +E> = Success(value: V) | Failure(error: E)

  datatype Error =
    | EmptyGroup | MissingField | UnknownField(field: string) | InvalidOp
    | UnsupportedValue | NeedsArray | NeedsNonEmptyArray | NullNotAccepted

  datatype Fragment = Fragment(sql: seq<Tok>, args: seq<Datum>)

  // ------------------------------------------------------- specification

  function Scalar(v: F.Value): Result<Datum, Error> {
    match v
    case Null => Success(DNull)
    case Str(s) => Success(DText(s))
    case Bool(b) => Success(DBool(b))
    case Int(n) => Success(DInt(n))
    case Real(r) => Success(if r == r.Floor as real then DInt(r.Floor) else DReal(r))
    case List(_) => Failure(UnsupportedValue)
  }

  /** Lower-casing touches text only. */
  function LowerDatum(env: Env, d: Datum): Datum {
    if d.DText? then DText(Lower(env, d.s)) else d
  }

  function Show(env: Env, d: Datum): string {
    match d
    case DNull => ""
    case DText(s) => s
    case DInt(n) => ShowInt(n)
    case DReal(r) => env.showReal(r)
    case DBool(b) => if b then "true" else "false"
    case DTime(t) => ShowInt(t)
  }

  function ToFloat(env: Env, d: Datum): Option<real> {
    match d
    case DInt(n) => Some(n as real)
    case DReal(r) => Some(r)
    case DText(s) => env.num(s)
    case _ => None
  }

  predicate ShouldLower(l: F.Leaf) {
    !l.caseSensitive && l.op in {F.Eq, F.Neq, F.Contains, F.StartsWith, F.In, F.NotIn}
  }

  function ColumnTok(field: string): Tok {
    if F.IsAttr(field) then ATTR(F.AttrPath(field)) else COL(field)
  }

  function Wrap(lower: bool, t: Tok): seq<Tok> {
    if lower then [LOWER, LP, t, RP] else [t]
  }

  function JoinToks(parts: seq<seq<Tok>>, sep: Tok): seq<Tok> {
    if parts == [] then [] else if |parts| == 1 then parts[0]
    else parts[0] + [sep] + JoinToks(parts[1..], sep)
  }

  function CompileExists(field: string): Fragment {
    Fragment([if F.IsAttr(field) then ATTRJSON(F.AttrPath(field)) else COL(field), IS, NOT, NULL], [])
  }

  function CompileEq(env: Env, l: F.Leaf): Result<Fragment, Error> {
    match Scalar(l.value)
    case Failure(e) => Failure(e)
    case Success(d) =>
      if d == DNull then
        Success(Fragment([ColumnTok(l.field)] + (if l.op == F.Eq then [IS, NULL] else [IS, NOT, NULL]), []))
      else
        var low := ShouldLower(l);
        Success(Fragment(
          Wrap(low, ColumnTok(l.field)) + [OP(if l.op == F.Neq then CNe else CEq)] + Wrap(low, PARAM),
          [if low then LowerDatum(env, d) else d]))
  }

  /** The non-null values of an IN list, lower-cased when the comparison is. */
  function InValues(env: Env, items: seq<F.Value>, low: bool): Result<seq<Datum>, Error> {
    if items == [] then Success([])
    else match Scalar(items[0])
      case Failure(e) => Failure(e)
      case Success(d) =>
        match InValues(env, items[1..], low)
        case Failure(e) => Failure(e)
        case Success(ds) => Success(if d == DNull then ds else [if low then LowerDatum(env, d) else d] + ds)
  }

  function Placeholders(n: nat, low: bool): seq<Tok> {
    JoinToks(seq(n, _ => Wrap(low, PARAM)), COMMA)
  }

  function CompileIn(env: Env, l: F.Leaf): Result<Fragment, Error> {
    if !l.value.List? then Failure(NeedsArray)
    else if l.value.items == [] then Failure(NeedsNonEmptyArray)
    else
      var low := ShouldLower(l);
      match InValues(env, l.value.items, low)
      case Failure(e) => Failure(e)
      case Success(ds) =>
        var neg := l.op == F.NotIn;
        var list := Wrap(low, ColumnTok(l.field)) + (if neg then [NOT, IN, LP] else [IN, LP]) +
            Placeholders(|ds|, low) + [RP];
        var nulls := [ColumnTok(l.field)] + if neg then [IS, NOT, NULL] else [IS, NULL];
        if F.Null !in l.value.items then Success(Fragment(list, ds))
        else if ds == [] then Success(Fragment(nulls, ds))
        else Success(Fragment([LP] + list + [if neg then AND else OR] + nulls + [RP], ds))
  }

  function CompileLike(env: Env, l: F.Leaf, leftWild: string, rightWild: string): Result<Fragment, Error> {
    match Scalar(l.value)
    case Failure(e) => Failure(e)
    case Success(d) =>
      if d == DNull then Failure(NullNotAccepted)
      else
        var low := ShouldLower(l);
        var pattern := leftWild + Like.EscapeLike(Show(env, d)) + rightWild;
        Success(Fragment(
          Wrap(low, ColumnTok(l.field)) + [LIKE] + Wrap(low, PARAM) + [ESCAPE],
          [DText(if low then Lower(env, pattern) else pattern)]))
  }

  function RangeCmp(op: F.Op): Cmp {
    match op
    case Gt => CGt
    case Lt => CLt
    case Gte => CGe
    case Lte => CLe
    case _ => CEq
  }

  function CompileRange(env: Env, l: F.Leaf): Result<Fragment, Error> {
    match Scalar(l.value)
    case Failure(e) => Failure(e)
    case Success(d) =>
      if d == DNull then Failure(NullNotAccepted)
      else if F.IsAttr(l.field) && ToFloat(env, d).Some? then
        Success(Fragment([CAST, LP, ColumnTok(l.field), ASDOUBLE, RP, OP(RangeCmp(l.op)), PARAM],
                         [DReal(ToFloat(env, d).value)]))
      else
        Success(Fragment([ColumnTok(l.field), OP(RangeCmp(l.op)), PARAM], [d]))
  }

  function CompileLeaf(env: Env, l: F.Leaf): Result<Fragment, Error> {
    if l.field == "" then Failure(MissingField)
    else if !F.IsAttr(l.field) && !F.IsCore(l.field) then Failure(UnknownField(l.field))
    else match l.op
      case Exists => Success(CompileExists(l.field))
      case Eq | Neq => CompileEq(env, l)
      case In | NotIn => CompileIn(env, l)
      case Contains => CompileLike(env, l, "%", "%")
      case StartsWith => CompileLike(env, l, "", "%")
      case Gt | Lt | Gte | Lte => CompileRange(env, l)
      case UnknownOp(_) => Failure(InvalidOp)
  }

  function Separator(op: F.GroupOp): Tok {
    if op == F.Or then OR else AND
  }

  function Parens(ts: seq<Tok>): seq<Tok> {
    [LP] + ts + [RP]
  }

  datatype Parts = Parts(sqls: seq<seq<Tok>>, args: seq<Datum>)

  function Compile(env: Env, n: F.Node): Result<Fragment, Error>
    decreases n
  {
    match n
    case Pred(l) => CompileLeaf(env, l)
    case Group(op, not, children) =>
      if children == [] then Failure(EmptyGroup)
      else match CompileAll(env, children)
        case Failure(e) => Failure(e)
        case Success(p) =>
          var joined := JoinToks(p.sqls, Separator(op));
          Success(Fragment(if not then [NOT] + Parens(joined) else joined, p.args))
  }

  /** The children in order, each in its own parentheses. */
  function CompileAll(env: Env, cs: seq<F.Node>): (r: Result<Parts, Error>)
    ensures r.Success? ==> |r.value.sqls| == |cs|
    decreases cs
  {
    if cs == [] then Success(Parts([], []))
    else match Compile(env, cs[0])
      case Failure(e) => Failure(e)
      case Success(f) =>
        match CompileAll(env, cs[1..])
        case Failure(e) => Failure(e)
        case Success(p) => Success(Parts([Parens(f.sql)] + p.sqls, f.args + p.args))
  }

  function CompileSearch(env: Env, text: string): Fragment {
    var t := TrimSpace(env, text);
    if t == "" then Fragment([], [])
    else
      var pattern := DText("%" + Lower(env, Like.EscapeLike(t)) + "%");
      Fragment(
        [LP, LOWER, LP, COL("message"), RP, LIKE, PARAM, ESCAPE, OR,
         LOWER, LP, COL("raw"), RP, LIKE, PARAM, ESCAPE, RP],
        [pattern, pattern])
  }

  function NonEmpty(parts: seq<Fragment>): seq<Fragment> {
    if parts == [] then [] else (if parts[0].sql == [] then [] else [parts[0]]) + NonEmpty(parts[1..])
  }

  function ParenthesisedSqls(parts: seq<Fragment>): seq<seq<Tok>> {
    if parts == [] then [] else [Parens(parts[0].sql)] + ParenthesisedSqls(parts[1..])
  }

  function AllArgs(parts: seq<Fragment>): seq<Datum> {
    if parts == [] then [] else parts[0].args + AllArgs(parts[1..])
  }

  function CombineAnd(parts: seq<Fragment>): Fragment {
    var keep := NonEmpty(parts);
    if keep == [] then Fragment([], [])
    else if |keep| == 1 then keep[0]
    else Fragment(JoinToks(ParenthesisedSqls(keep), AND), AllArgs(keep))
  }

  // ------------------------------------------------------ implementation

  /** The argument slice that every level of the compiler appends to. */
  class ArgBuffer {
    var items: seq<Datum>

    constructor ()
      ensures items == []
    {
      items := [];
    }

    method Append(ds: seq<Datum>)
      modifies this
      ensures items == old(items) + ds
    {
      items := items + ds;
    }
  }

  /** What a compiling method owes its caller: the specified text, and exactly the
      specified arguments appended; on an error the arguments already appended stay. */
  ghost predicate Emits(want: Result<Fragment, Error>, got: Result<seq<Tok>, Error>, before: seq<Datum>,
                        after: seq<Datum>) {
    match want
    case Success(f) => got == Success(f.sql) && after == before + f.args
    case Failure(e) => got == Failure(e) && before <= after
  }

  method CompileFilter(env: Env, root: F.Node) returns (r: Result<Fragment, Error>)
    ensures r == Compile(env, root)
  {
    var args := new ArgBuffer();
    var sql := CompileNode(env, root, args);
    match sql {
      case Failure(e) => r := Failure(e);
      case Success(s) =>
        NothingBefore(Compile(env, root).value.args);
        r := Success(Fragment(s, args.items));
    }
  }

  method CompileNode(env: Env, n: F.Node, args: ArgBuffer) returns (r: Result<seq<Tok>, Error>)
    modifies args
    ensures Emits(Compile(env, n), r, old(args.items), args.items)
    decreases n, 1
  {
    hide CompileAll, CompileIn, JoinToks;
    match n {
      case Pred(l) => r := CompileLeafNode(env, l, args);
      case Group(op, not, children) =>
        if children == [] {
          return Failure(EmptyGroup);
        }
        var parts := CompileChildren(env, children, args);
        if parts.Failure? {
          return Failure(parts.error);
        }
        var joined := JoinToks(parts.value, Separator(op));
        r := Success(if not then [NOT] + Parens(joined) else joined);
    }
  }

  method CompileLeafNode(env: Env, l: F.Leaf, args: ArgBuffer) returns (r: Result<seq<Tok>, Error>)
    modifies args
    ensures Emits(CompileLeaf(env, l), r, old(args.items), args.items)
  {
    hide CompileIn, CompileEq, CompileLike, CompileRange;
    if l.op == F.In || l.op == F.NotIn {
      if l.field == "" {
        return Failure(MissingField);
      } else if !F.IsAttr(l.field) && !F.IsCore(l.field) {
        return Failure(UnknownField(l.field));
      }
      r := CompileInLoop(env, l, args);
    } else {
      match CompileLeaf(env, l) {
        case Failure(e) => r := Failure(e);
        case Success(f) => args.Append(f.args); r := Success(f.sql);
      }
    }
  }

  /** The children in order: their parenthesised texts, and their arguments appended. */
  ghost predicate EmitsAll(want: Result<Parts, Error>, got: Result<seq<seq<Tok>>, Error>, before: seq<Datum>,
                           after: seq<Datum>) {
    match want
    case Success(p) => got == Success(p.sqls) && after == before + p.args
    case Failure(e) => got == Failure(e) && before <= after
  }

  method CompileChildren(env: Env, children: seq<F.Node>, args: ArgBuffer) returns (r: Result<seq<seq<Tok>>, Error>)
    modifies args
    ensures EmitsAll(CompileAll(env, children), r, old(args.items), args.items)
    decreases children, 0
  {
    hide Compile, CompileAll;
    var parts: seq<seq<Tok>> := [];
    ghost var mine: seq<Datum> := [];
    ghost var before := args.items;
    assert children[0..] == children && before + [] == before;
    PrependNothing(CompileAll(env, children));
    for i := 0 to |children|
      invariant args.items == before + mine
      invariant CompileAll(env, children) == Prepend(parts, mine, CompileAll(env, children[i..]))
    {
      NextChild(env, children, i, parts, mine);
      var s := CompileNode(env, children[i], args);
      if s.Failure? {
        return Failure(s.error);
      }
      NeverEmpty(env, children[i]);
      ghost var f := Compile(env, children[i]).value;
      assert before + mine + f.args == before + (mine + f.args);
      mine := mine + f.args;
      if s.value != [] {
        parts := parts + [Parens(s.value)];
      }
    }
    NoMoreChildren(env, children, parts, mine);
    r := Success(parts);
  }

  /** One child moves from what is to come to what is there. */
  lemma NextChild(env: Env, children: seq<F.Node>, i: nat, parts: seq<seq<Tok>>, mine: seq<Datum>)
    requires i < |children| && CompileAll(env, children) == Prepend(parts, mine, CompileAll(env, children[i..]))
    ensures match Compile(env, children[i])
            case Failure(e) => CompileAll(env, children) == Failure(e)
            case Success(f) => CompileAll(env, children) ==
                                 Prepend(parts + [Parens(f.sql)], mine + f.args, CompileAll(env, children[i + 1..]))
  {
    hide Compile;
    assert children[i..] == [children[i]] + children[i + 1..];
    if Compile(env, children[i]).Success? {
      var f := Compile(env, children[i]).value;
      PrependTwice(parts, mine, [Parens(f.sql)], f.args, CompileAll(env, children[i + 1..]));
    }
  }

  lemma NoMoreChildren(env: Env, children: seq<F.Node>, parts: seq<seq<Tok>>, mine: seq<Datum>)
    requires CompileAll(env, children) == Prepend(parts, mine, CompileAll(env, children[|children|..]))
    ensures CompileAll(env, children) == Success(Parts(parts, mine))
  {
    assert children[|children|..] == [];
    assert parts + [] == parts && mine + [] == mine;
  }

  ghost function Prepend(sqls: seq<seq<Tok>>, args: seq<Datum>, r: Result<Parts, Error>): Result<Parts, Error> {
    match r
    case Failure(e) => Failure(e)
    case Success(p) => Success(Parts(sqls + p.sqls, args + p.args))
  }

  lemma NothingBefore(a: seq<Datum>)
    ensures [] + a == a
  {
  }

  lemma PrependNothing(r: Result<Parts, Error>)
    ensures Prepend([], [], r) == r
  {
    if r.Success? {
      assert [] + r.value.sqls == r.value.sqls && [] + r.value.args == r.value.args;
    }
  }

  lemma PrependTwice(s1: seq<seq<Tok>>, a1: seq<Datum>, s2: seq<seq<Tok>>, a2: seq<Datum>, r: Result<Parts, Error>)
    ensures Prepend(s1, a1, Prepend(s2, a2, r)) == Prepend(s1 + s2, a1 + a2, r)
  {
    if r.Success? {
      assert s1 + (s2 + r.value.sqls) == (s1 + s2) + r.value.sqls;
      assert a1 + (a2 + r.value.args) == (a1 + a2) + r.value.args;
    }
  }

  /** The scan over an IN list: its non-null values and whether it holds a null. */
  method CollectInValues(env: Env, arr: seq<F.Value>, low: bool) returns (r: Result<seq<Datum>, Error>, hasNull: bool)
    ensures r == InValues(env, arr, low)
    ensures r.Success? ==> (hasNull <==> F.Null in arr)
  {
    hasNull := false;
    var values: seq<Datum> := [];
    assert arr[0..] == arr;
    AppendAfterNothing(InValues(env, arr, low));
    for i := 0 to |arr|
      invariant hasNull <==> F.Null in arr[..i]
      invariant InValues(env, arr, low) == AppendAfter(values, InValues(env, arr[i..], low))
    {
      assert arr[i..][1..] == arr[i + 1..] && arr[..i + 1] == arr[..i] + [arr[i]];
      var d := Scalar(arr[i]);
      if d.Failure? {
        return Failure(d.error), hasNull;
      }
      if d.value == DNull {
        hasNull := true;
      } else {
        var v := if low then LowerDatum(env, d.value) else d.value;
        AppendAfterTwice(values, v, InValues(env, arr[i + 1..], low));
        values := values + [v];
      }
    }
    assert arr[..|arr|] == arr && arr[|arr|..] == [] && values + [] == values;
    r := Success(values);
  }

  ghost function AppendAfter(ds: seq<Datum>, r: Result<seq<Datum>, Error>): Result<seq<Datum>, Error> {
    match r case Failure(e) => r case Success(more) => Success(ds + more)
  }

  lemma AppendAfterNothing(r: Result<seq<Datum>, Error>)
    ensures AppendAfter([], r) == r
  {
    if r.Success? {
      NothingBefore(r.value);
    }
  }

  lemma AppendAfterTwice(ds: seq<Datum>, d: Datum, r: Result<seq<Datum>, Error>)
    ensures AppendAfter(ds, AppendAfter([d], r)) == AppendAfter(ds + [d], r)
  {
    if r.Success? {
      assert ds + ([d] + r.value) == ds + [d] + r.value;
    }
  }

  method CompileInLoop(env: Env, l: F.Leaf, args: ArgBuffer) returns (r: Result<seq<Tok>, Error>)
    modifies args
    ensures Emits(CompileIn(env, l), r, old(args.items), args.items)
  {
    if !l.value.List? {
      return Failure(NeedsArray);
    }
    var arr := l.value.items;
    if arr == [] {
      return Failure(NeedsNonEmptyArray);
    }
    var low := ShouldLower(l);
    var collected, hasNull := CollectInValues(env, arr, low);
    if collected.Failure? {
      return Failure(collected.error);
    }
    var values := collected.value;
    var neg := l.op == F.NotIn;
    var sql: seq<Tok> := [];
    if |values| > 0 {
      sql := Wrap(low, ColumnTok(l.field)) + (if neg then [NOT, IN, LP] else [IN, LP]) + Placeholders(|values|, low) +
          [RP];
      args.Append(values);
    } else {
      assert args.items + values == args.items;
    }
    if hasNull {
      var nulls := [ColumnTok(l.field)] + if neg then [IS, NOT, NULL] else [IS, NULL];
      if sql == [] {
        sql := nulls;
      } else {
        sql := [LP] + sql + [if neg then AND else OR] + nulls + [RP];
      }
    } else {
      InValuesNonEmpty(env, arr, low);
    }
    r := Success(sql);
  }

  lemma {:induction false} InValuesNonEmpty(env: Env, items: seq<F.Value>, low: bool)
    requires InValues(env, items, low).Success? && items != [] && F.Null !in items
    ensures InValues(env, items, low).value != []
  {
    assert items[0] in items;
  }

  /** Keeps the fragments that say something, then joins them. */
  method CombineAndLoop(parts: seq<Fragment>) returns (r: Fragment)
    ensures r == CombineAnd(parts)
  {
    var keep: seq<Fragment> := [];
    assert parts[0..] == parts;
    for i := 0 to |parts|
      invariant NonEmpty(parts) == keep + NonEmpty(parts[i..])
    {
      assert parts[i..][1..] == parts[i + 1..];
      if parts[i].sql != [] {
        keep := keep + [parts[i]];
      }
    }
    assert parts[|parts|..] == [] && keep + [] == keep;
    if |keep| == 0 {
      return Fragment([], []);
    }
    if |keep| == 1 {
      return keep[0];
    }
    r := JoinWithAnd(keep);
  }

  method JoinWithAnd(keep: seq<Fragment>) returns (r: Fragment)
    ensures r == Fragment(JoinToks(ParenthesisedSqls(keep), AND), AllArgs(keep))
  {
    hide JoinToks, Parens;
    var sqls: seq<seq<Tok>> := [];
    var args: seq<Datum> := [];
    assert keep[0..] == keep;
    for i := 0 to |keep|
      invariant ParenthesisedSqls(keep) == sqls + ParenthesisedSqls(keep[i..])
      invariant AllArgs(keep) == args + AllArgs(keep[i..])
    {
      assert keep[i..][1..] == keep[i + 1..];
      sqls := sqls + [Parens(keep[i].sql)];
      args := args + keep[i].args;
    }
    assert keep[|keep|..] == [] && sqls + [] == sqls && args + [] == args;
    r := Fragment(JoinToks(sqls, AND), args);
  }

  /** A filter that compiles never compiles to empty text. */
  lemma {:induction false} NeverEmpty(env: Env, n: F.Node)
    requires Compile(env, n).Success?
    ensures Compile(env, n).value.sql != []
  {
    if n.Group? {
      var p := CompileAll(env, n.children).value;
      assert p.sqls[0] != [];
      if |p.sqls| > 1 {
        assert JoinToks(p.sqls, Separator(n.op)) ==
                 p.sqls[0] + [Separator(n.op)] + JoinToks(p.sqls[1..], Separator(n.op));
      }
    }
  }
}

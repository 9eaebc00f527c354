/** The fragment of SQL the compiler writes: its tokens, a reader with the usual
    precedence (NOT over AND over OR), and its three-valued meaning (ISO/IEC
    9075-2:2003, section 6.34). */
module Sql {
  import opened Text
  import opened Events
  import Like

  datatype Cmp = CEq | CNe | CLt | CLe | CGt | CGe

  datatype Tok =
    | LP | RP | AND | OR | NOT | IS | NULL | IN | LIKE | ESCAPE | COMMA | PARAM
    | LOWER | CAST | ASDOUBLE
    | COL(name: string) | ATTR(path: string) | ATTRJSON(path: string)
    | OP(cmp: Cmp)

  // ---------------------------------------------------------------- syntax

  datatype Operand =
    | Arg(i: nat)
    | Column(name: string)
    | AttrText(path: string)
    | AttrJson(path: string)
    | Lowered(of: Operand)
    | AsDouble(of: Operand)

  datatype Expr =
    | Compare(cmp: Cmp, left: Operand, right: Operand)
    | NullTest(of: Operand, negated: bool)
    | InList(of: Operand, items: seq<Operand>, negated: bool)
    | LikeTest(of: Operand, pattern: Operand)
    | NotOf(e: Expr)
    | AllOf(es: seq<Expr>)
    | AnyOf(es: seq<Expr>)

  /** Reading either fails or yields a value, the unread tokens, and the number of
      the next placeholder. */
  datatype Read<T> = Fail | Got(val: T, rest: seq<Tok>, next: nat)

  function ReadOperand(ts: seq<Tok>, k: nat): (r: Read<Operand>)
    ensures r.Got? ==> |r.rest| < |ts|
  {
    if ts == [] then Fail
    else match ts[0]
      case PARAM => Got(Arg(k), ts[1..], k + 1)
      case COL(f) => Got(Column(f), ts[1..], k)
      case ATTR(p) => Got(AttrText(p), ts[1..], k)
      case ATTRJSON(p) => Got(AttrJson(p), ts[1..], k)
      case LOWER =>
        if |ts| > 1 && ts[1] == LP then
          match ReadOperand(ts[2..], k)
          case Got(o, rest, k1) => if rest != [] && rest[0] == RP then Got(Lowered(o), rest[1..], k1) else Fail
          case Fail => Fail
        else Fail
      case CAST =>
        if |ts| > 1 && ts[1] == LP then
          match ReadOperand(ts[2..], k)
          case Got(o, rest, k1) =>
            if |rest| > 1 && rest[0] == ASDOUBLE && rest[1] == RP then Got(AsDouble(o), rest[2..], k1) else Fail
          case Fail => Fail
        else Fail
      case _ => Fail
  }

  /** One or more operands separated by commas, up to and including the closing parenthesis. */
  function ReadOperands(ts: seq<Tok>, k: nat): (r: Read<seq<Operand>>)
    ensures r.Got? ==> |r.rest| < |ts|
    decreases |ts|
  {
    match ReadOperand(ts, k)
    case Fail => Fail
    case Got(o, rest, k1) =>
      if rest == [] then Fail
      else if rest[0] == RP then Got([o], rest[1..], k1)
      else if rest[0] != COMMA then Fail
      else match ReadOperands(rest[1..], k1)
        case Fail => Fail
        case Got(os, rest', k2) => Got([o] + os, rest', k2)
  }

  function ReadPredicate(ts: seq<Tok>, k: nat): (r: Read<Expr>)
    ensures r.Got? ==> |r.rest| < |ts|
  {
    match ReadOperand(ts, k)
    case Fail => Fail
    case Got(o, rest, k1) =>
      if rest == [] then Fail
      else match rest[0]
        case IS =>
          if |rest| > 1 && rest[1] == NULL then Got(NullTest(o, false), rest[2..], k1)
          else if |rest| > 2 && rest[1] == NOT && rest[2] == NULL then Got(NullTest(o, true), rest[3..], k1)
          else Fail
        case IN => if |rest| > 1 && rest[1] == LP then ReadInTail(o, rest[2..], k1, false) else Fail
        case NOT =>
          if |rest| > 2 && rest[1] == IN && rest[2] == LP then ReadInTail(o, rest[3..], k1, true) else Fail
        case LIKE =>
          (match ReadOperand(rest[1..], k1)
           case Got(p, rest', k2) =>
             if rest' != [] && rest'[0] == ESCAPE then Got(LikeTest(o, p), rest'[1..], k2) else Fail
           case Fail => Fail)
        case OP(c) =>
          (match ReadOperand(rest[1..], k1)
           case Got(p, rest', k2) => Got(Compare(c, o, p), rest', k2)
           case Fail => Fail)
        case _ => Fail
  }

  function ReadInTail(o: Operand, ts: seq<Tok>, k: nat, negated: bool): (r: Read<Expr>)
    ensures r.Got? ==> |r.rest| < |ts|
  {
    match ReadOperands(ts, k)
    case Got(os, rest, k1) => Got(InList(o, os, negated), rest, k1)
    case Fail => Fail
  }

  function ReadOr(ts: seq<Tok>, k: nat): (r: Read<Expr>)
    ensures r.Got? ==> |r.rest| < |ts|
    decreases |ts|, 4
  {
    match ReadAnd(ts, k)
    case Fail => Fail
    case Got(e, rest, k1) => ReadOrMore([e], rest, k1)
  }

  function ReadOrMore(acc: seq<Expr>, ts: seq<Tok>, k: nat): (r: Read<Expr>)
    requires acc != []
    ensures r.Got? ==> |r.rest| <= |ts|
    decreases |ts|, 4
  {
    if ts != [] && ts[0] == OR then
      match ReadAnd(ts[1..], k)
      case Fail => Fail
      case Got(e, rest, k1) => ReadOrMore(acc + [e], rest, k1)
    else Got(Disjunction(acc), ts, k)
  }

  function ReadAnd(ts: seq<Tok>, k: nat): (r: Read<Expr>)
    ensures r.Got? ==> |r.rest| < |ts|
    decreases |ts|, 3
  {
    match ReadNot(ts, k)
    case Fail => Fail
    case Got(e, rest, k1) => ReadAndMore([e], rest, k1)
  }

  function ReadAndMore(acc: seq<Expr>, ts: seq<Tok>, k: nat): (r: Read<Expr>)
    requires acc != []
    ensures r.Got? ==> |r.rest| <= |ts|
    decreases |ts|, 3
  {
    if ts != [] && ts[0] == AND then
      match ReadNot(ts[1..], k)
      case Fail => Fail
      case Got(e, rest, k1) => ReadAndMore(acc + [e], rest, k1)
    else Got(Conjunction(acc), ts, k)
  }

  function ReadNot(ts: seq<Tok>, k: nat): (r: Read<Expr>)
    ensures r.Got? ==> |r.rest| < |ts|
    decreases |ts|, 2
  {
    if ts != [] && ts[0] == NOT then
      match ReadNot(ts[1..], k)
      case Fail => Fail
      case Got(e, rest, k1) => Got(NotOf(e), rest, k1)
    else ReadPrimary(ts, k)
  }

  function ReadPrimary(ts: seq<Tok>, k: nat): (r: Read<Expr>)
    ensures r.Got? ==> |r.rest| < |ts|
    decreases |ts|, 1
  {
    if ts != [] && ts[0] == LP then
      match ReadOr(ts[1..], k)
      case Fail => Fail
      case Got(e, rest, k1) => if rest != [] && rest[0] == RP then Got(e, rest[1..], k1) else Fail
    else ReadPredicate(ts, k)
  }

  function Conjunction(es: seq<Expr>): Expr
    requires es != []
  {
    if |es| == 1 then es[0] else AllOf(es)
  }

  function Disjunction(es: seq<Expr>): Expr
    requires es != []
  {
    if |es| == 1 then es[0] else AnyOf(es)
  }

  // --------------------------------------------------------------- meaning

  datatype Datum = DNull | DText(s: string) | DInt(n: int) | DReal(r: real) | DBool(b: bool) | DTime(t: int)

  datatype TV = T | F | U

  function Truth(b: bool): TV {
    if b then T else F
  }

  function Not3(a: TV): TV {
    match a case T => F case F => T case U => U
  }

  function And3(a: TV, b: TV): TV {
    if a == F || b == F then F else if a == T && b == T then T else U
  }

  function Or3(a: TV, b: TV): TV {
    if a == T || b == T then T else if a == F && b == F then F else U
  }

  /** How an event is stored: the four optional columns hold NULL for "", the
      mandatory ones never do. */
  function ColumnOf(ev: Event, name: string): Datum {
    if name == "timestamp" then DTime(ev.timestamp)
    else if name == "source" || name == "raw" then DText(CoreText(ev, name))
    else if CoreText(ev, name) == "" then DNull
    else DText(CoreText(ev, name))
  }

  function TextOrNull(o: Option<string>): Datum {
    match o case None => DNull case Some(s) => DText(s)
  }

  function ValueOf(env: Env, o: Operand, args: seq<Datum>, ev: Event): Datum {
    match o
    case Arg(i) => if i < |args| then args[i] else DNull
    case Column(name) => ColumnOf(ev, name)
    case AttrText(p) => TextOrNull(Attribute(ev, p))
    case AttrJson(p) => TextOrNull(Attribute(ev, p))
    case Lowered(x) =>
      (match ValueOf(env, x, args, ev)
       case DText(s) => DText(Lower(env, s))
       case d => d)
    case AsDouble(x) =>
      match ValueOf(env, x, args, ev)
      case DText(s) => (match env.num(s) case Some(r) => DReal(r) case None => DNull)
      case DInt(n) => DReal(n as real)
      case d => d
  }

  /** Comparison of two values of the same kind; anything else is unknown here. */
  function Compare3(c: Cmp, a: Datum, b: Datum): TV {
    match (a, b)
    case (DText(x), DText(y)) => Truth(Holds(c, Less(x, y), x == y))
    case (DInt(x), DInt(y)) => Truth(Holds(c, x < y, x == y))
    case (DReal(x), DReal(y)) => Truth(Holds(c, x < y, x == y))
    case (DTime(x), DTime(y)) => Truth(Holds(c, x < y, x == y))
    case (DBool(x), DBool(y)) => if c == CEq then Truth(x == y) else if c == CNe then Truth(x != y) else U
    case _ => U
  }

  predicate Holds(c: Cmp, less: bool, equal: bool) {
    match c
    case CEq => equal
    case CNe => !equal
    case CLt => less
    case CLe => less || equal
    case CGt => !less && !equal
    case CGe => !less
  }

  function Like3(a: Datum, p: Datum): TV {
    if a.DText? && p.DText? then Truth(Like.Matches(p.s, a.s)) else U
  }

  function In3(env: Env, a: Datum, items: seq<Operand>, args: seq<Datum>, ev: Event): TV {
    if items == [] then F
    else Or3(Compare3(CEq, a, ValueOf(env, items[0], args, ev)), In3(env, a, items[1..], args, ev))
  }

  function Eval(env: Env, e: Expr, args: seq<Datum>, ev: Event): TV
    decreases e
  {
    match e
    case Compare(c, l, r) => Compare3(c, ValueOf(env, l, args, ev), ValueOf(env, r, args, ev))
    case NullTest(o, negated) => Truth((ValueOf(env, o, args, ev) == DNull) != negated)
    case InList(o, items, negated) =>
      var v := In3(env, ValueOf(env, o, args, ev), items, args, ev);
      if negated then Not3(v) else v
    case LikeTest(o, p) => Like3(ValueOf(env, o, args, ev), ValueOf(env, p, args, ev))
    case NotOf(e1) => Not3(Eval(env, e1, args, ev))
    case AllOf(es) => EvalAll(env, es, args, ev)
    case AnyOf(es) => EvalAny(env, es, args, ev)
  }

  function EvalAll(env: Env, es: seq<Expr>, args: seq<Datum>, ev: Event): TV
    decreases es
  {
    if es == [] then T else And3(Eval(env, es[0], args, ev), EvalAll(env, es[1..], args, ev))
  }

  function EvalAny(env: Env, es: seq<Expr>, args: seq<Datum>, ev: Event): TV
    decreases es
  {
    if es == [] then F else Or3(Eval(env, es[0], args, ev), EvalAny(env, es[1..], args, ev))
  }
}

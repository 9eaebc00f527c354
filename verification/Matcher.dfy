/** The in-memory evaluator of filter trees used by live tail. */
module Matcher {
  import opened Text
  import F = Filter
  import opened Events
  import opened Compiler
  import opened Sql

  // ------------------------------------------------------- specification

  /** A value as the matcher reads it: the scalar, and whether it is null. An
      unsupported value reads as an empty, non-null one. */
  function ScalarOrNil(v: F.Value): (Datum, bool) {
    match Scalar(v)
    case Success(d) => (d, d == DNull)
    case Failure(_) => (DNull, false)
  }

  function Fold(env: Env, l: F.Leaf, s: string): string {
    if ShouldLower(l) then Lower(env, s) else s
  }

  predicate MatchEq(env: Env, l: F.Leaf, ev: Event, negate: bool) {
    var got := FieldText(env, ev, l.field);
    var (want, isNil) := ScalarOrNil(l.value);
    if isNil then got.Some? == negate
    else if got.None? then negate
    else (Fold(env, l, got.value) == Fold(env, l, Show(env, want))) != negate
  }

  /** Does any non-null value of the list equal the field? */
  predicate InAny(env: Env, l: F.Leaf, items: seq<F.Value>, got: string) {
    items != [] &&
    (var (d, isNil) := ScalarOrNil(items[0]);
     (!isNil && Fold(env, l, got) == Fold(env, l, Show(env, d))) || InAny(env, l, items[1..], got))
  }

  predicate MatchIn(env: Env, l: F.Leaf, ev: Event, negate: bool) {
    l.value.List? &&
    (var got := FieldText(env, ev, l.field);
     var hasNull := F.Null in l.value.items;
     if got.None? then hasNull != negate
     else InAny(env, l, l.value.items, got.value) != negate)
  }

  predicate MatchSubstring(env: Env, l: F.Leaf, ev: Event, anywhere: bool) {
    var got := FieldText(env, ev, l.field);
    var (d, isNil) := ScalarOrNil(l.value);
    got.Some? && !isNil &&
    (var text, needle := Fold(env, l, got.value), Fold(env, l, Show(env, d));
     if anywhere then Contains(text, needle) else needle <= text)
  }

  predicate CompareWith(op: F.Op, less: bool, equal: bool) {
    match op
    case Gt => !less && !equal
    case Lt => less
    case Gte => !less
    case Lte => less || equal
    case _ => false
  }

  predicate MatchRange(env: Env, l: F.Leaf, ev: Event) {
    var (d, isNil) := ScalarOrNil(l.value);
    if isNil then false
    else if l.field == "timestamp" then
      d.DText? && env.time(d.s).Some? &&
      CompareWith(l.op, ev.timestamp < env.time(d.s).value, ev.timestamp == env.time(d.s).value)
    else
      match FieldText(env, ev, l.field)
      case None => false
      case Some(got) =>
        if F.IsAttr(l.field) && env.num(got).Some? && ToFloat(env, d).Some? then
          CompareWith(l.op, env.num(got).value < ToFloat(env, d).value, env.num(got).value == ToFloat(env, d).value)
        else CompareWith(l.op, Less(got, Show(env, d)), got == Show(env, d))
  }

  predicate MatchLeaf(env: Env, l: F.Leaf, ev: Event) {
    (F.IsAttr(l.field) || F.IsCore(l.field)) &&
    match l.op
    case Exists => FieldText(env, ev, l.field).Some?
    case Eq => MatchEq(env, l, ev, false)
    case Neq => MatchEq(env, l, ev, true)
    case In => MatchIn(env, l, ev, false)
    case NotIn => MatchIn(env, l, ev, true)
    case Contains => MatchSubstring(env, l, ev, true)
    case StartsWith => MatchSubstring(env, l, ev, false)
    case Gt | Lt | Gte | Lte => MatchRange(env, l, ev)
    case UnknownOp(_) => false
  }

  predicate Match(env: Env, n: F.Node, ev: Event)
    decreases n
  {
    match n
    case Pred(l) => MatchLeaf(env, l, ev)
    case Group(op, not, children) =>
      if children == [] then true
      else (if op == F.Or then MatchAny(env, children, ev) else MatchAll(env, children, ev)) != not
  }

  predicate MatchAll(env: Env, cs: seq<F.Node>, ev: Event)
    decreases cs
  {
    cs == [] || (Match(env, cs[0], ev) && MatchAll(env, cs[1..], ev))
  }

  predicate MatchAny(env: Env, cs: seq<F.Node>, ev: Event)
    decreases cs
  {
    cs != [] && (Match(env, cs[0], ev) || MatchAny(env, cs[1..], ev))
  }

  predicate MatchSearch(env: Env, search: string, ev: Event) {
    var t := TrimSpace(env, search);
    t == "" ||
    Contains(Lower(env, ev.message), Lower(env, t)) ||
    Contains(Lower(env, ev.raw), Lower(env, t))
  }

  // ------------------------------------------------------ implementation

  method MatchNode(env: Env, n: F.Node, ev: Event) returns (b: bool)
    ensures b == Match(env, n, ev)
    decreases n, 1
  {
    match n {
      case Group(_, _, _) => b := MatchGroup(env, n, ev);
      case Pred(l) =>
        if (F.IsAttr(l.field) || F.IsCore(l.field)) && (l.op == F.In || l.op == F.NotIn) {
          b := MatchInLoop(env, l, ev, l.op == F.NotIn);
        } else {
          b := MatchLeaf(env, l, ev);
        }
    }
  }

  /** Children are tried in order and the loop stops once the outcome is fixed. */
  method MatchGroup(env: Env, g: F.Node, ev: Event) returns (b: bool)
    requires g.Group?
    ensures b == Match(env, g, ev)
    decreases g, 0
  {
    var cs := g.children;
    if cs == [] {
      return true;
    }
    var isOr := g.op == F.Or;
    var result := !isOr;
    var i := 0;
    assert cs[0..] == cs;
    while i < |cs|
      invariant 0 <= i <= |cs|
      invariant result == !isOr
      invariant isOr ==> MatchAny(env, cs, ev) == MatchAny(env, cs[i..], ev)
      invariant !isOr ==> MatchAll(env, cs, ev) == MatchAll(env, cs[i..], ev)
    {
      assert cs[i..][1..] == cs[i + 1..];
      var ok := MatchNode(env, cs[i], ev);
      if isOr {
        result := result || ok;
        if result {
          break;
        }
      } else {
        result := result && ok;
        if !result {
          break;
        }
      }
      i := i + 1;
    }
    if g.not {
      return !result;
    }
    return result;
  }

  method MatchInLoop(env: Env, l: F.Leaf, ev: Event, negate: bool) returns (b: bool)
    ensures b == MatchIn(env, l, ev, negate)
  {
    if !l.value.List? {
      return false;
    }
    var arr := l.value.items;
    var got := FieldText(env, ev, l.field);
    var matched := false;
    var hasNull := false;
    var i := 0;
    assert arr[0..] == arr;
    while i < |arr|
      invariant 0 <= i <= |arr|
      invariant !matched
      invariant hasNull <==> F.Null in arr[..i]
      invariant got.Some? ==> InAny(env, l, arr, got.value) == InAny(env, l, arr[i..], got.value)
    {
      assert arr[i..][1..] == arr[i + 1..] && arr[..i + 1] == arr[..i] + [arr[i]];
      var (d, isNil) := ScalarOrNil(arr[i]);
      if isNil {
        hasNull := true;
      } else if got.Some? && Fold(env, l, got.value) == Fold(env, l, Show(env, d)) {
        matched := true;
        break;
      }
      i := i + 1;
    }
    assert !matched ==> arr[..|arr|] == arr;
    if hasNull && got.None? {
      matched := true;
    }
    if negate {
      if hasNull && got.None? {
        return false;
      }
      return !matched;
    }
    return matched;
  }
}

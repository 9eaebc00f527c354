/** What each condition asks of an event, said outright: which text a field stands for, when two texts
    count as equal, and what every operator compares. Both evaluators are held to it. */
module Conditions {
  import opened Text
  import opened Events
  import opened Compiler
  import opened Matcher
  import opened Agreement
  import F = Filter

  // ------------------------------------------------------------------- fields

  /** The stored text columns. */
  function Columns(ev: Event): map<string, string> {
    map["service" := ev.service, "level" := ev.level, "message" := ev.message, "host" := ev.host,
        "source" := ev.source, "raw" := ev.raw]
  }

  lemma CoreFieldsAreNotAttributes(field: string)
    requires F.IsCore(field)
    ensures !F.IsAttr(field)
  {
    assert F.ATTRIBUTE_PREFIX[0] == 'a';
    assert field[0] != 'a';
  }

  /** A field is the column of its name, an attribute the entry under its path; what is empty, missing
      or unknown is absent. */
  lemma FieldsAreColumns(env: Env, ev: Event, field: string)
    ensures field in Columns(ev) ==>
              FieldText(env, ev, field) == if Columns(ev)[field] == "" then None else Some(Columns(ev)[field])
    ensures field == "timestamp" ==>
              FieldText(env, ev, field) == if ev.timestamp == ZERO_TIME then None else Some(env.showTime(ev.timestamp))
    ensures field !in Columns(ev) && field != "timestamp" && !(F.ATTRIBUTE_PREFIX <= field) ==>
              FieldText(env, ev, field).None?
  {
    if F.IsCore(field) {
      CoreFieldsAreNotAttributes(field);
    }
  }

  lemma AttributesAreEntries(env: Env, ev: Event, path: string)
    ensures FieldText(env, ev, "attributes." + path) ==
            if path != "" && path in ev.attributes then Some(ev.attributes[path]) else None
  {
    assert F.AttrPath("attributes." + path) == path;
  }

  // ------------------------------------------------------------------- comparisons

  /** Equal texts: letter by letter, or letter case aside. */
  predicate SameText(env: Env, caseSensitive: bool, a: string, b: string) {
    if caseSensitive then a == b else Lower(env, a) == Lower(env, b)
  }

  predicate Begins(env: Env, caseSensitive: bool, text: string, s: string) {
    |s| <= |text| && SameText(env, caseSensitive, text[..|s|], s)
  }

  ghost predicate Inside(env: Env, caseSensitive: bool, text: string, s: string) {
    exists i :: 0 <= i <= |text| && Begins(env, caseSensitive, text[i..], s)
  }

  /** How a value is written: whole numbers without a fraction. */
  function AsText(env: Env, v: F.Value): string {
    match v
    case Str(s) => s
    case Bool(b) => if b then "true" else "false"
    case Int(n) => ShowInt(n)
    case Real(r) => if r == r.Floor as real then ShowInt(r.Floor) else env.showReal(r)
    case _ => ""
  }

  ghost predicate Listed(env: Env, caseSensitive: bool, items: seq<F.Value>, text: string) {
    exists v <- items :: !v.Null? && SameText(env, caseSensitive, text, AsText(env, v))
  }

  /** A number given for an attribute, or a text that reads as one, compares with a text that reads as
      a number by size; everything else compares as text. */
  function AsNumber(env: Env, v: F.Value): Option<real> {
    match v
    case Int(n) => Some(n as real)
    case Real(r) => Some(r)
    case Str(s) => env.num(s)
    case _ => None
  }

  predicate BySize(env: Env, l: F.Leaf, text: string) {
    F.IsAttr(l.field) && env.num(text).Some? && AsNumber(env, l.value).Some?
  }

  predicate Below(env: Env, l: F.Leaf, text: string) {
    if BySize(env, l, text) then env.num(text).value < AsNumber(env, l.value).value
    else Less(text, AsText(env, l.value))
  }

  predicate Above(env: Env, l: F.Leaf, text: string) {
    if BySize(env, l, text) then env.num(text).value > AsNumber(env, l.value).value
    else Less(AsText(env, l.value), text)
  }

  // ------------------------------------------------------------------- conditions

  predicate Single(v: F.Value) {
    !v.List? && !v.Null?
  }

  /** Conditions with the values their operators take. */
  predicate Plain(l: F.Leaf) {
    match l.op
    case Exists => true
    case Eq | Neq => !l.value.List?
    case In | NotIn => l.value.List? && forall v <- l.value.items :: !v.List?
    case Contains | StartsWith => Single(l.value)
    case Gt | Lt | Gte | Lte => l.field != "timestamp" && Single(l.value)
    case UnknownOp(_) => false
  }

  /** What a condition asks of the text of its field. */
  ghost predicate Asks(env: Env, l: F.Leaf, text: string)
    requires Plain(l)
  {
    match l.op
    case Exists => true
    case Eq => !l.value.Null? && SameText(env, l.caseSensitive, text, AsText(env, l.value))
    case Neq => !(!l.value.Null? && SameText(env, l.caseSensitive, text, AsText(env, l.value)))
    case In => Listed(env, l.caseSensitive, l.value.items, text)
    case NotIn => !Listed(env, l.caseSensitive, l.value.items, text)
    case Contains => Inside(env, l.caseSensitive, text, AsText(env, l.value))
    case StartsWith => Begins(env, l.caseSensitive, text, AsText(env, l.value))
    case Gt => Above(env, l, text)
    case Lt => Below(env, l, text)
    case Gte => !Below(env, l, text)
    case Lte => !Above(env, l, text)
    case UnknownOp(_) => false
  }

  lemma LowerPrefix(env: Env, text: string, s: string)
    ensures Lower(env, s) <= Lower(env, text) <==> Begins(env, false, text, s)
    ensures s <= text <==> Begins(env, true, text, s)
  {
    if |s| <= |text| {
      assert Lower(env, text[..|s|]) == Lower(env, text)[..|s|];
    }
  }

  lemma LowerSuffix(env: Env, text: string, i: nat)
    requires i <= |text|
    ensures Lower(env, text[i..]) == Lower(env, text)[i..]
  {
  }

  lemma ContainsIsInside(env: Env, text: string, s: string)
    ensures Contains(Lower(env, text), Lower(env, s)) <==> Inside(env, false, text, s)
    ensures Contains(text, s) <==> Inside(env, true, text, s)
  {
    hide Lower;
    ContainsMeansOccurs(text, s);
    ContainsMeansOccurs(Lower(env, text), Lower(env, s));
    LowerLength(env, text);
    forall i | 0 <= i <= |text|
      ensures Lower(env, s) <= Lower(env, text)[i..] <==> Begins(env, false, text[i..], s)
      ensures s <= text[i..] <==> Begins(env, true, text[i..], s)
    {
      LowerSuffix(env, text, i);
      LowerPrefix(env, text[i..], s);
    }
  }

  lemma LowerLength(env: Env, s: string)
    ensures |Lower(env, s)| == |s|
  {
  }

  lemma {:induction false} InAnyIsListed(env: Env, l: F.Leaf, items: seq<F.Value>, text: string)
    requires (l.op == F.In || l.op == F.NotIn) && forall v <- items :: !v.List?
    ensures InAny(env, l, items, text) <==> Listed(env, l.caseSensitive, items, text)
  {
    hide Lower;
    if items != [] {
      InAnyIsListed(env, l, items[1..], text);
      assert items[0] in items && forall v <- items :: v == items[0] || v in items[1..];
    }
  }

  /** On a present field the matcher answers exactly what the condition asks. */
  lemma MatcherAnswers(env: Env, l: F.Leaf, ev: Event, text: string)
    requires FieldText(env, ev, l.field) == Some(text) && Plain(l)
    ensures MatchLeaf(env, l, ev) <==> Asks(env, l, text)
  {
    hide FieldText, Lower, Contains, InAny, Less;
    KnownIfPresent(env, ev, l.field);
    match l.op {
      case In | NotIn => InAnyIsListed(env, l, l.value.items, text);
      case Contains => ContainsIsInside(env, text, AsText(env, l.value));
      case StartsWith => LowerPrefix(env, text, AsText(env, l.value));
      case Gt | Lt | Gte | Lte =>
        LessTrichotomy(text, AsText(env, l.value));
      case _ =>
    }
  }

  lemma KnownIfPresent(env: Env, ev: Event, field: string)
    requires FieldText(env, ev, field).Some?
    ensures F.IsAttr(field) || F.IsCore(field)
  {
  }

  /** A range on the timestamp compares instants; a text that is no instant bounds nothing. */
  lemma TimestampAnswers(env: Env, l: F.Leaf, ev: Event)
    requires l.field == "timestamp" && l.value.Str? && F.IsRangeOp(l.op)
    ensures MatchLeaf(env, l, ev) <==>
            env.time(l.value.s).Some? &&
            var t := env.time(l.value.s).value;
            if l.op == F.Gt then ev.timestamp > t
            else if l.op == F.Lt then ev.timestamp < t
            else if l.op == F.Gte then ev.timestamp >= t
            else ev.timestamp <= t
  {
  }

  /** On an absent field only denials and tests for null hold. */
  lemma AbsentAnswers(env: Env, l: F.Leaf, ev: Event)
    requires FieldText(env, ev, l.field).None? && (F.IsAttr(l.field) || F.IsCore(l.field)) && Plain(l)
    ensures MatchLeaf(env, l, ev) <==>
            if l.op == F.Eq then l.value == F.Null
            else if l.op == F.Neq then l.value != F.Null
            else if l.op == F.In then F.Null in l.value.items
            else l.op == F.NotIn && F.Null !in l.value.items
  {
    hide FieldText;
  }

  /** And so does the emitted clause. */
  lemma ClauseAnswers(env: Env, l: F.Leaf, ev: Event, text: string)
    requires Lawful(env) && SupportedLeaf(l) && Comparable(env, l, ev) && CompileLeaf(env, l).Success?
    requires FieldText(env, ev, l.field) == Some(text) && Plain(l)
    ensures Selects(env, CompileLeaf(env, l).value, ev) <==> Asks(env, l, text)
  {
    hide Asks, Plain, FieldText, SupportedLeaf, Comparable, CompileLeaf, Selects;
    MatcherAnswers(env, l, ev, text);
    LeafIsCovered(env, l, ev);
    PresentFieldsAgree(env, F.Pred(l), ev);
  }

  lemma LeafIsCovered(env: Env, l: F.Leaf, ev: Event)
    requires SupportedLeaf(l) && Comparable(env, l, ev)
    ensures Covered(env, F.Pred(l), ev)
    ensures FieldText(env, ev, l.field).Some? ==> AllLeaves(F.Pred(l), x => Present(env, x, ev))
    ensures Compile(env, F.Pred(l)) == CompileLeaf(env, l)
  {
    hide CompileLeaf;
  }
}

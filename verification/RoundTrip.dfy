/** Any predicate-only tree, written out with parentheses, AND/OR/NOT, quoted and escaped texts and
    bare numbers, parses back to a filter with the same meaning, at any depth and however spaced. */
module RoundTrip {
  import opened Text
  import opened Lexer
  import opened Spelling
  import opened Grammar
  import opened Finalize
  import opened Events
  import opened Matcher
  import opened ParserProperties
  import opened TypedPredicates
  import opened TypedQueries
  import opened TypedMeaning
  import Compiler
  import F = Filter

  // ------------------------------------------------------------------ rendering

  /** Texts between quotes, lists with commas. */
  const QUOTED := Style({}, None)

  predicate IsNegative(l: F.Leaf) {
    l.op == F.Neq || l.op == F.NotIn
  }

  /** The condition that a negative one denies. */
  function PositiveOf(l: F.Leaf): F.Leaf {
    if l.op == F.Neq then l.(op := F.Eq) else if l.op == F.NotIn then l.(op := F.In) else l
  }

  /** The trees that can be written: no empty groups, known fields, texts and numbers. */
  ghost predicate Renderable(env: Env, n: F.Node) {
    match n
    case Pred(l) => KnownField(l.field) && LeafOk(env, QUOTED, PositiveOf(l))
    case Group(op, _, cs) => (op == F.And || op == F.Or) && cs != [] && forall c <- cs :: Renderable(env, c)
  }

  function Single(t: Term): Typed {
    Typed([Alternative("OR", [t])])
  }

  function Denied(x: Item): Item {
    Nested(Single(Term(Adjacent, Not("NOT"), x)))
  }

  /** Groups are parenthesised, and so is every negation, written with NOT. */
  function AsItem(n: F.Node): Item
    decreases n
  {
    match n
    case Pred(l) => if IsNegative(l) then Denied(Pred(PositiveOf(l), QUOTED)) else Pred(l, QUOTED)
    case Group(op, not, cs) =>
      var body := Nested(if op == F.Or then Typed(AsAlternatives(cs)) else Typed([Alternative("OR", AsTerms(cs))]));
      if not then Denied(body) else body
  }

  function AsTerms(cs: seq<F.Node>): (r: seq<Term>)
    ensures |r| == |cs|
    decreases cs
  {
    if cs == [] then [] else [Term(AndWord("AND"), Plain, AsItem(cs[0]))] + AsTerms(cs[1..])
  }

  function AsAlternatives(cs: seq<F.Node>): (r: seq<Alternative>)
    ensures |r| == |cs|
    decreases cs
  {
    if cs == [] then []
    else [Alternative("OR", [Term(Adjacent, Plain, AsItem(cs[0]))])] + AsAlternatives(cs[1..])
  }

  /** The query a tree is written as. */
  function AsQuery(n: F.Node): Typed {
    Single(Term(Adjacent, Plain, AsItem(n)))
  }

  // ------------------------------------------------------------------ it can be typed

  lemma Keywords()
    ensures IsKeyword(Word("AND"), "AND") && IsKeyword(Word("OR"), "OR") && IsKeyword(Word("NOT"), "NOT")
  {
  }

  lemma SingleOk(env: Env, t: Term)
    requires TermOk(env, t)
    ensures TypedOk(env, Single(t))
  {
    hide TermOk, IsKeyword;
    Keywords();
    assert forall u <- [t] :: u == t;
    assert AlternativeOk(env, Alternative("OR", [t]));
  }

  lemma PlainItemOk(env: Env, x: Item, link: Link)
    requires ItemOk(env, x) && !x.Bare? && LinkOk(link)
    ensures TermOk(env, Term(link, Plain, x))
  {
  }

  lemma DeniedOk(env: Env, x: Item)
    requires ItemOk(env, x)
    ensures ItemOk(env, Denied(x))
  {
    hide TypedOk;
    Keywords();
    SingleOk(env, Term(Adjacent, Not("NOT"), x));
  }

  lemma {:induction false} TreeCanBeTyped(env: Env, n: F.Node)
    requires Renderable(env, n)
    ensures ItemOk(env, AsItem(n)) && !AsItem(n).Bare?
    decreases n
  {
    hide TypedOk, LeafOk;
    match n {
      case Pred(l) =>
        if IsNegative(l) {
          DeniedOk(env, Pred(PositiveOf(l), QUOTED));
        }
      case Group(op, not, cs) =>
        TreesCanBeTyped(env, cs);
        var q := if op == F.Or then Typed(AsAlternatives(cs)) else Typed([Alternative("OR", AsTerms(cs))]);
        ListOk(env, cs, op == F.Or);
        DeniedOk(env, Nested(q));
    }
  }

  lemma ListOk(env: Env, cs: seq<F.Node>, isOr: bool)
    requires cs != [] && (forall t <- AsTerms(cs) :: TermOk(env, t)) &&
             forall a <- AsAlternatives(cs) :: AlternativeOk(env, a)
    ensures TypedOk(env, if isOr then Typed(AsAlternatives(cs)) else Typed([Alternative("OR", AsTerms(cs))]))
  {
    hide TermOk, IsKeyword;
    Keywords();
    if !isOr {
      assert AlternativeOk(env, Alternative("OR", AsTerms(cs)));
    }
  }

  lemma {:induction false} TreesCanBeTyped(env: Env, cs: seq<F.Node>)
    requires forall c <- cs :: Renderable(env, c)
    ensures (forall t <- AsTerms(cs) :: TermOk(env, t)) && forall a <- AsAlternatives(cs) :: AlternativeOk(env, a)
    decreases cs
  {
    hide ItemOk, TermOk, AsItem, IsKeyword;
    if cs != [] {
      assert cs[0] in cs;
      TreeCanBeTyped(env, cs[0]);
      TreesCanBeTyped(env, cs[1..]);
      Keywords();
      PlainItemOk(env, AsItem(cs[0]), AndWord("AND"));
      PlainItemOk(env, AsItem(cs[0]), Adjacent);
      OneTermOk(env, Term(Adjacent, Plain, AsItem(cs[0])));
    }
  }

  lemma OneTermOk(env: Env, t: Term)
    requires TermOk(env, t)
    ensures AlternativeOk(env, Alternative("OR", [t]))
  {
    hide TermOk, IsKeyword;
    Keywords();
    assert forall u <- [t] :: u == t;
  }

  // ------------------------------------------------------------------ it means the same

  lemma {:induction false} AnyOfTexts(env: Env, l: F.Leaf, items: seq<F.Value>, got: string, l': F.Leaf)
    requires l.field == l'.field && ShouldLowerSame(l, l')
    ensures InAny(env, l, items, got) == InAny(env, l', items, got)
  {
    if items != [] {
      AnyOfTexts(env, l, items[1..], got, l');
    }
  }

  /** A negative condition is the denial of its positive. */
  lemma NegativeMeans(env: Env, l: F.Leaf, ev: Event)
    requires KnownField(l.field) && LeafOk(env, QUOTED, PositiveOf(l))
    ensures MatchLeaf(env, l, ev) == (MatchLeaf(env, PositiveOf(l), ev) != IsNegative(l))
  {
    hide Fold, FieldText, InAny, Compiler.Show;
    var got := FieldText(env, ev, l.field);
    if l.op == F.NotIn {
      assert F.Null !in l.value.items;
      if got.Some? {
        AnyOfTexts(env, l, l.value.items, got.value, PositiveOf(l));
      }
    } else if l.op == F.Neq && got.Some? {
      FoldSame(env, l, PositiveOf(l), got.value, Compiler.Show(env, ScalarOrNil(l.value).0));
    }
  }

  lemma SingleHolds(env: Env, t: Term, ev: Event)
    ensures Holds(env, Single(t), ev) <==> TermHolds(env, t, ev)
  {
    hide TermHolds;
    var a := Alternative("OR", [t]);
    assert AlternativeHolds(env, a, ev) <==> TermHolds(env, t, ev) by {
      assert t in [t] && forall u <- [t] :: u == t;
    }
    assert a in [a] && forall b <- [a] :: b == a;
  }

  lemma DeniedHolds(env: Env, x: Item, ev: Event)
    ensures ItemHolds(env, Denied(x), ev) <==> !ItemHolds(env, x, ev)
  {
    hide Holds;
    var t := Term(Adjacent, Not("NOT"), x);
    SingleHolds(env, t, ev);
    assert TermHolds(env, t, ev) == (ItemHolds(env, x, ev) == false);
  }

  lemma {:induction false} TreeHolds(env: Env, n: F.Node, ev: Event)
    requires Renderable(env, n)
    ensures ItemHolds(env, AsItem(n), ev) <==> Match(env, n, ev)
    decreases n
  {
    hide MatchLeaf, LeafOk, Holds;
    match n {
      case Pred(l) =>
        NegativeMeans(env, l, ev);
        DeniedHolds(env, Pred(PositiveOf(l), QUOTED), ev);
      case Group(op, not, cs) =>
        TreesHold(env, cs, ev);
        var a := Alternative("OR", AsTerms(cs));
        var q := if op == F.Or then Typed(AsAlternatives(cs)) else Typed([a]);
        ListHolds(env, cs, op == F.Or, ev);
        DeniedHolds(env, Nested(q), ev);
    }
  }

  lemma ListHolds(env: Env, cs: seq<F.Node>, isOr: bool, ev: Event)
    ensures Holds(env, if isOr then Typed(AsAlternatives(cs)) else Typed([Alternative("OR", AsTerms(cs))]), ev) <==>
            if isOr then exists a <- AsAlternatives(cs) :: AlternativeHolds(env, a, ev)
            else forall t <- AsTerms(cs) :: TermHolds(env, t, ev)
  {
    hide TermHolds;
    if !isOr {
      var a := Alternative("OR", AsTerms(cs));
      assert a in [a] && forall b <- [a] :: b == a;
    }
  }

  lemma {:induction false} TreesHold(env: Env, cs: seq<F.Node>, ev: Event)
    requires forall c <- cs :: Renderable(env, c)
    ensures (forall t <- AsTerms(cs) :: TermHolds(env, t, ev)) <==> MatchAll(env, cs, ev)
    ensures (exists a <- AsAlternatives(cs) :: AlternativeHolds(env, a, ev)) <==> MatchAny(env, cs, ev)
    decreases cs
  {
    hide ItemHolds, AsItem, Match, Renderable;
    if cs != [] {
      assert cs[0] in cs;
      TreeHolds(env, cs[0], ev);
      TreesHold(env, cs[1..], ev);
      PlainHolds(env, AsItem(cs[0]), ev);
      FirstOfLists(cs);
    }
  }

  lemma PlainHolds(env: Env, x: Item, ev: Event)
    ensures TermHolds(env, Term(AndWord("AND"), Plain, x), ev) == ItemHolds(env, x, ev)
    ensures AlternativeHolds(env, Alternative("OR", [Term(Adjacent, Plain, x)]), ev) == ItemHolds(env, x, ev)
  {
    hide ItemHolds;
    var t := Term(Adjacent, Plain, x);
    assert t in [t] && forall u <- [t] :: u == t;
  }

  lemma FirstOfLists(cs: seq<F.Node>)
    requires cs != []
    ensures var t := Term(AndWord("AND"), Plain, AsItem(cs[0]));
            t in AsTerms(cs) && forall u :: u in AsTerms(cs) <==> u == t || u in AsTerms(cs[1..])
    ensures var a := Alternative("OR", [Term(Adjacent, Plain, AsItem(cs[0]))]);
            a in AsAlternatives(cs) && forall b :: b in AsAlternatives(cs) <==> b == a || b in AsAlternatives(cs[1..])
  {
    hide AsItem;
  }

  // ------------------------------------------------------------------ it is all filter

  /** No free text at all. */
  predicate NoText(x: Item) {
    FreeText(x).None? && (x.Nested? ==> Lifted(x.query) == [] && !OnlyText(x.query))
  }

  lemma OneTermIsNotText(a: Alternative)
    requires |a.terms| == 1 && (a.terms[0].sign.Plain? ==> NoText(a.terms[0].item))
    ensures NoText(Nested(Typed([a])))
  {
    hide FreeText;
    var q, t := Typed([a]), a.terms[0];
    assert t in a.terms;
    assert FreeTexts(a.terms[1..]) == [];
    assert FreeText(Nested(q)).None? by {
      FreeTextOfOne(a);
    }
  }

  lemma FreeTextOfOne(a: Alternative)
    requires |a.terms| == 1
    ensures FreeText(Nested(Typed([a]))) == if a.terms[0].sign.Plain? then FreeText(a.terms[0].item) else None
  {
  }

  lemma ManyAreNotText(q: Typed)
    requires |q.alternatives| != 1 || (|q.alternatives[0].terms| > 1 && FreeTexts(q.alternatives[0].terms) == [])
    requires |q.alternatives| == 1 ==>
               !(q.alternatives[0].terms[0].sign.Plain? && FreeText(q.alternatives[0].terms[0].item).Some?)
    ensures NoText(Nested(q))
  {
    if |q.alternatives| == 1 {
      assert q.alternatives[0].terms[0] in q.alternatives[0].terms;
    }
  }

  lemma {:induction false} TreeIsNotText(env: Env, n: F.Node)
    requires Renderable(env, n)
    ensures NoText(AsItem(n))
    decreases n
  {
    hide NoText, LeafOk, FreeTexts;
    match n {
      case Pred(l) =>
        PredIsNotText(l);
        OneTermIsNotText(Alternative("OR", [Term(Adjacent, Not("NOT"), Pred(PositiveOf(l), QUOTED))]));
      case Group(op, not, cs) =>
        TreesAreNotText(env, cs);
        var q := if op == F.Or then Typed(AsAlternatives(cs)) else Typed([Alternative("OR", AsTerms(cs))]);
        FirstChild(cs);
        if |cs| == 1 {
          OneTermIsNotText(q.alternatives[0]);
          assert q == Typed([q.alternatives[0]]);
        } else {
          NotFree(AsItem(cs[0]));
          ManyAreNotText(q);
        }
        OneTermIsNotText(Alternative("OR", [Term(Adjacent, Not("NOT"), Nested(q))]));
    }
  }

  lemma PredIsNotText(l: F.Leaf)
    ensures NoText(Pred(l, QUOTED))
  {
  }

  lemma NotFree(x: Item)
    requires NoText(x)
    ensures FreeText(x).None?
  {
  }

  lemma FirstChild(cs: seq<F.Node>)
    requires cs != []
    ensures AsTerms(cs)[0] == Term(AndWord("AND"), Plain, AsItem(cs[0]))
    ensures AsAlternatives(cs)[0] == Alternative("OR", [Term(Adjacent, Plain, AsItem(cs[0]))])
  {
  }

  lemma {:induction false} TreesAreNotText(env: Env, cs: seq<F.Node>)
    requires forall c <- cs :: Renderable(env, c)
    ensures FreeTexts(AsTerms(cs)) == [] && forall c <- cs :: NoText(AsItem(c))
    decreases cs
  {
    hide NoText, AsItem, FreeText, Renderable;
    if cs != [] {
      assert cs[0] in cs;
      TreeIsNotText(env, cs[0]);
      NotFree(AsItem(cs[0]));
      TreesAreNotText(env, cs[1..]);
      assert AsTerms(cs)[1..] == AsTerms(cs[1..]);
    }
  }

  // ------------------------------------------------------------------ round trip

  lemma QueryCanBeTyped(env: Env, n: F.Node)
    requires Renderable(env, n)
    ensures TypedOk(env, AsQuery(n))
  {
    hide TypedOk, AsItem;
    TreeCanBeTyped(env, n);
    PlainItemOk(env, AsItem(n), Adjacent);
    SingleOk(env, Term(Adjacent, Plain, AsItem(n)));
  }

  function Pieces(env: Env, n: F.Node): seq<Token>
    requires Renderable(env, n)
  {
    QueryCanBeTyped(env, n);
    TypedPieces(env, AsQuery(n))
  }

  /** A tree written out, with white space of one's own in front and after each token. */
  function Render(env: Env, n: F.Node, lead: string, gaps: seq<string>): string
    requires Renderable(env, n) && |gaps| == |Pieces(env, n)|
  {
    QueryCanBeTyped(env, n);
    TypedText(env, AsQuery(n), lead, gaps)
  }

  lemma QueryHolds(env: Env, n: F.Node, ev: Event)
    requires Renderable(env, n)
    ensures Holds(env, AsQuery(n), ev) <==> Match(env, n, ev)
  {
    hide Holds, Match, AsItem, ItemHolds;
    SingleHolds(env, Term(Adjacent, Plain, AsItem(n)), ev);
    TreeHolds(env, n, ev);
  }

  lemma QueryIsNotText(env: Env, n: F.Node)
    requires Renderable(env, n)
    ensures Lifted(AsQuery(n)) == [] && !OnlyText(AsQuery(n))
  {
    hide AsItem;
    TreeIsNotText(env, n);
    OneTermIsNotText(Alternative("OR", [Term(Adjacent, Plain, AsItem(n))]));
  }

  /** Main result: however it is spaced, a written tree parses back to a filter that means the same. */
  lemma RenderParsesBack(env: Env, n: F.Node, lead: string, gaps: seq<string>, ev: Event)
    requires Renderable(env, n) && Blank(lead) && Separated(Pieces(env, n), gaps)
    ensures var r := ParseText(env, Render(env, n, lead, gaps));
            r.Accepted? && r.search == "" && r.filter.Some? && (Match(env, r.filter.value, ev) <==> Match(env, n, ev))
  {
    hide ParseText, TypedText, TypedPieces, Holds, Match, TypedOk, AsQuery, Lifted, OnlyText;
    QueryCanBeTyped(env, n);
    TypedQueryMeans(env, AsQuery(n), lead, gaps, ev);
    QueryHolds(env, n, ev);
    QueryIsNotText(env, n);
  }

  /** One space after each token always separates. */
  lemma SpacesSeparate(ps: seq<Token>)
    ensures Separated(ps, seq(|ps|, _ => " ")) && Blank("")
  {
  }
}

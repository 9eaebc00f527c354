/** What a query typed into the search bar means: alternatives joined by OR, each a list of terms
    joined by AND or merely standing side by side, each term a predicate, a word, a quoted phrase or
    a parenthesised query, perhaps negated by NOT, by a dash, or by a dash glued to it. */
module TypedQueries {
  import opened Text
  import opened Lexer
  import opened Spelling
  import opened Grammar
  import opened Events
  import opened Matcher
  import opened TypedPredicates
  import F = Filter

  // ------------------------------------------------------------------- what is typed

  /** Keywords are typed in any letter case. */
  datatype Sign = Plain | Not(word: string) | Dash | Glued

  datatype Link = Adjacent | AndWord(word: string)

  datatype End = Star | Limit(value: F.Value)

  datatype Item =
    | Pred(leaf: F.Leaf, style: Style)
    | Wild(field: string, word: string)
    | Path(path: string)
    | Between(field: string, inclusive: bool, lo: End, hi: Option<End>, style: Style)
    | Bare(word: string)
    | Phrase(text: string)
    | Nested(query: Typed)

  datatype Term = Term(link: Link, sign: Sign, item: Item)

  /** The word before the first alternative, like the link of the first term, is not typed. */
  datatype Alternative = Alternative(or: string, terms: seq<Term>)

  datatype Typed = Typed(alternatives: seq<Alternative>)

  predicate EndOk(env: Env, st: Style, end: End) {
    end.Limit? ==> Writable(env, st, end.value) && end.value != F.Str("*")
  }

  predicate LinkOk(link: Link) {
    link.AndWord? ==> IsKeyword(Word(link.word), "AND")
  }

  predicate SignOk(sign: Sign) {
    sign.Not? ==> IsKeyword(Word(sign.word), "NOT")
  }

  /** A dash can be glued to what begins with a word. */
  predicate Gluable(x: Item) {
    match x
    case Pred(l, _) => !F.IsAttr(l.field)
    case Wild(field, _) => !F.IsAttr(field)
    case Between(field, _, _, _, _) => !F.IsAttr(field)
    case Bare(_) => true
    case _ => false
  }

  ghost predicate ItemOk(env: Env, x: Item) {
    match x
    case Pred(l, st) => LeafOk(env, st, l)
    case Wild(field, word) => FieldOk(field) && IsIdent(word) && Wildcards(word)
    case Path(p) => IsIdent(p)
    case Between(field, _, lo, hi, st) =>
      FieldOk(field) && EndOk(env, st, lo) && (hi.Some? ==> EndOk(env, st, hi.value))
    case Bare(w) => IsIdent(w)
    case Phrase(_) => true
    case Nested(q) => TypedOk(env, q)
  }

  ghost predicate TermOk(env: Env, t: Term) {
    LinkOk(t.link) && SignOk(t.sign) && ItemOk(env, t.item) &&
    (t.sign.Plain? && t.item.Bare? ==> PlainWord(t.item.word)) && (t.sign.Glued? ==> Gluable(t.item))
  }

  ghost predicate AlternativeOk(env: Env, a: Alternative) {
    IsKeyword(Word(a.or), "OR") && a.terms != [] && forall t <- a.terms :: TermOk(env, t)
  }

  ghost predicate TypedOk(env: Env, q: Typed) {
    q.alternatives != [] && forall a <- q.alternatives :: AlternativeOk(env, a)
  }

  // ------------------------------------------------------------------- what it means

  /** The message contains the text, letter case aside; an empty message contains nothing. */
  predicate InMessage(env: Env, text: string, ev: Event) {
    ev.message != "" && Contains(Lower(env, ev.message), Lower(env, text))
  }

  /** Each end of a range that is not a star bounds the field, inclusively or not; without a bound the
      field must exist. */
  predicate BetweenHolds(env: Env, field: string, inclusive: bool, lo: End, hi: Option<End>, ev: Event) {
    var bounded := hi.Some? && hi.value.Limit?;
    if lo.Star? && !bounded then MatchLeaf(env, MakeLeaf(field, F.Exists, F.Null), ev)
    else
      (lo.Limit? ==> MatchLeaf(env, MakeLeaf(field, if inclusive then F.Gte else F.Gt, lo.value), ev)) &&
      (bounded ==> MatchLeaf(env, MakeLeaf(field, if inclusive then F.Lte else F.Lt, hi.value.value), ev))
  }

  ghost predicate ItemHolds(env: Env, x: Item, ev: Event) {
    match x
    case Pred(l, _) => MatchLeaf(env, l, ev)
    case Wild(field, word) => MatchLeaf(env, MakeLeaf(field, F.Contains, F.Str(Literal(word))), ev)
    case Path(p) => MatchLeaf(env, MakeLeaf(F.ATTRIBUTE_PREFIX + p, F.Exists, F.Null), ev)
    case Between(field, inclusive, lo, hi, _) => BetweenHolds(env, field, inclusive, lo, hi, ev)
    case Bare(w) => InMessage(env, w, ev)
    case Phrase(s) => InMessage(env, s, ev)
    case Nested(q) => Holds(env, q, ev)
  }

  /** Every sign negates. */
  ghost predicate TermHolds(env: Env, t: Term, ev: Event) {
    ItemHolds(env, t.item, ev) == t.sign.Plain?
  }

  ghost predicate AlternativeHolds(env: Env, a: Alternative, ev: Event) {
    forall t <- a.terms :: TermHolds(env, t, ev)
  }

  /** Some alternative has all its terms true. */
  ghost predicate Holds(env: Env, q: Typed, ev: Event) {
    exists a <- q.alternatives :: AlternativeHolds(env, a, ev)
  }

  /** A word or a phrase, parentheses aside. */
  function FreeText(x: Item): Option<string>
    decreases x
  {
    match x
    case Bare(w) => Some(w)
    case Phrase(s) => Some(s)
    case Nested(q) =>
      if |q.alternatives| == 1 && |q.alternatives[0].terms| == 1 && q.alternatives[0].terms[0].sign.Plain? then
        FreeText(q.alternatives[0].terms[0].item)
      else None
    case _ => None
  }

  /** The free text of a list of terms, in order. */
  function FreeTexts(terms: seq<Term>): seq<string> {
    if terms == [] then []
    else
      var text := if terms[0].sign.Plain? then FreeText(terms[0].item) else None;
      (if text.Some? then [text.value] else []) + FreeTexts(terms[1..])
  }

  /** The free text that goes into the search: that of the terms of a single alternative; parentheses
      around a whole query do not count. */
  function Lifted(q: Typed): seq<string>
    decreases q
  {
    if |q.alternatives| != 1 then []
    else
      var terms := q.alternatives[0].terms;
      if |terms| == 1 && terms[0].sign.Plain? && terms[0].item.Nested? then Lifted(terms[0].item.query)
      else FreeTexts(terms)
  }

  /** Nothing but free text was typed: no filter is left. */
  predicate OnlyText(q: Typed)
    decreases q
  {
    |q.alternatives| == 1 &&
    var terms := q.alternatives[0].terms;
    if |terms| == 1 && terms[0].sign.Plain? && terms[0].item.Nested? then OnlyText(terms[0].item.query)
    else forall t <- terms :: t.sign.Plain? && FreeText(t.item).Some?
  }

  // ------------------------------------------------------------------- written form

  function EndPiece(env: Env, st: Style, end: End): Token
    requires EndOk(env, st, end)
  {
    if end.Star? then Word("*") else ValuePiece(env, st, end.value)
  }

  function RangePieces(env: Env, st: Style, inclusive: bool, lo: End, hi: Option<End>): seq<Token>
    requires EndOk(env, st, lo) && (hi.Some? ==> EndOk(env, st, hi.value))
  {
    [Piece(if inclusive then LBRACKET else LBRACE, ""), EndPiece(env, st, lo), Word("TO")] +
    (if hi.Some? then [EndPiece(env, st, hi.value)] else []) + [Piece(if inclusive then RBRACKET else RBRACE, "")]
  }

  function ItemPieces(env: Env, x: Item): seq<Token>
    requires ItemOk(env, x)
    decreases x
  {
    match x
    case Pred(l, st) => Positive(env, st, l)
    case Wild(field, word) => FieldPieces(field) + ([Piece(COLON, "")] + [Word(word)])
    case Path(p) => [Piece(AT, ""), Word(p)]
    case Between(field, inclusive, lo, hi, st) =>
      FieldPieces(field) + ([Piece(COLON, "")] + RangePieces(env, st, inclusive, lo, hi))
    case Bare(w) => [Word(w)]
    case Phrase(s) => [Piece(STRING, s)]
    case Nested(q) => Enclosed(TypedPieces(env, q))
  }

  /** The first word with a dash glued to it. */
  function WithDash(ps: seq<Token>): seq<Token>
    requires ps != []
  {
    [Word("-" + ps[0].text)] + ps[1..]
  }

  function TermPieces(env: Env, t: Term): seq<Token>
    requires TermOk(env, t)
    decreases t
  {
    var ps := ItemPieces(env, t.item);
    match t.sign
    case Plain => ps
    case Not(w) => [Word(w)] + ps
    case Dash => [Word("-")] + ps
    case Glued => if ps == [] then [] else WithDash(ps)
  }

  function LinkPieces(link: Link): seq<Token> {
    match link case Adjacent => [] case AndWord(w) => [Word(w)]
  }

  function MoreTerms(env: Env, terms: seq<Term>): seq<Token>
    requires forall t <- terms :: TermOk(env, t)
    decreases terms
  {
    if terms == [] then []
    else
      assert terms[0] in terms;
      LinkPieces(terms[0].link) + (TermPieces(env, terms[0]) + MoreTerms(env, terms[1..]))
  }

  function TermsPieces(env: Env, terms: seq<Term>): seq<Token>
    requires terms != [] && forall t <- terms :: TermOk(env, t)
    decreases terms
  {
    assert terms[0] in terms;
    TermPieces(env, terms[0]) + MoreTerms(env, terms[1..])
  }

  function MoreAlternatives(env: Env, alts: seq<Alternative>): seq<Token>
    requires forall a <- alts :: AlternativeOk(env, a)
    decreases alts
  {
    if alts == [] then []
    else
      assert AlternativeOk(env, alts[0]);
      [Word(alts[0].or)] + (TermsPieces(env, alts[0].terms) + MoreAlternatives(env, alts[1..]))
  }

  function TypedPieces(env: Env, q: Typed): seq<Token>
    requires TypedOk(env, q)
    decreases q
  {
    assert AlternativeOk(env, q.alternatives[0]);
    TermsPieces(env, q.alternatives[0].terms) + MoreAlternatives(env, q.alternatives[1..])
  }

  // ------------------------------------------------------------------- parse trees

  function EndScalar(env: Env, st: Style, end: End): Scalar
    requires EndOk(env, st, end)
  {
    ScalarOf(EndPiece(env, st, end))
  }

  function ItemTree(env: Env, x: Item): PNode
    requires ItemOk(env, x)
    decreases x
  {
    match x
    case Pred(l, st) => LeafTree(env, st, l)
    case Wild(field, word) =>
      FieldIsNamed(field);
      PLeaf(MakeLeaf(field, F.Contains, F.Str(Literal(word))))
    case Path(p) => PLeaf(MakeLeaf(F.ATTRIBUTE_PREFIX + p, F.Exists, F.Null))
    case Between(field, inclusive, lo, hi, st) =>
      FieldIsNamed(field);
      RangeTree(env, field, inclusive, Some(EndScalar(env, st, lo)),
                if hi.Some? then Some(EndScalar(env, st, hi.value)) else None)
    case Bare(w) => PTerm(w)
    case Phrase(s) => PTerm(s)
    case Nested(q) => TypedTree(env, q)
  }

  lemma FieldIsNamed(field: string)
    requires FieldOk(field)
    ensures field != ""
  {
  }

  function TermTree(env: Env, t: Term): PNode
    requires TermOk(env, t)
    decreases t
  {
    var n := ItemTree(env, t.item);
    if t.sign.Plain? then n else PGroup(F.And, true, [n], false)
  }

  function TermTrees(env: Env, terms: seq<Term>): (r: seq<PNode>)
    requires forall t <- terms :: TermOk(env, t)
    ensures |r| == |terms|
    decreases terms
  {
    if terms == [] then []
    else
      assert terms[0] in terms;
      [TermTree(env, terms[0])] + TermTrees(env, terms[1..])
  }

  function AlternativeTrees(env: Env, alts: seq<Alternative>): (r: seq<PNode>)
    requires forall a <- alts :: AlternativeOk(env, a)
    ensures |r| == |alts|
    decreases alts
  {
    if alts == [] then []
    else
      assert AlternativeOk(env, alts[0]);
      [Conjoined(TermTrees(env, alts[0].terms))] + AlternativeTrees(env, alts[1..])
  }

  function TypedTree(env: Env, q: Typed): PNode
    requires TypedOk(env, q)
    decreases q
  {
    Disjoined(AlternativeTrees(env, q.alternatives))
  }
}

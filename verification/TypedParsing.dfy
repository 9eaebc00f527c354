/** The parser reads a typed query, however nested, as its tree. */
module TypedParsing {
  import opened Text
  import opened Lexer
  import opened Spelling
  import opened Grammar
  import opened TypedPredicates
  import opened TypedQueries
  import F = Filter

  // ------------------------------------------------------------------- how it begins

  /** A token that can begin a term, and one that can end a list of terms. */
  predicate Opens(t: Token) {
    CanStartFactor(t) && !IsKeyword(t, "AND") && !IsKeyword(t, "OR") && t.kind != COLON && t.kind != EOF
  }

  predicate Ends(t: Token) {
    Closes(t) || IsKeyword(t, "OR")
  }

  /** A token that can end a query: one that begins nothing, or TO. */
  predicate Closes(t: Token) {
    t.kind !in {IDENT, STRING, AT, LPAREN, COLON} || IsKeyword(t, "TO")
  }

  lemma OneKeyword(t: Token)
    ensures IsKeyword(t, "NOT") ==>
              !IsKeyword(t, "AND") && !IsKeyword(t, "OR") && !IsKeyword(t, "TO") && t.text != "" && t.text[0] != '-'
    ensures IsKeyword(t, "OR") ==> !IsKeyword(t, "AND")
    ensures IsKeyword(t, "TO") ==> !IsKeyword(t, "AND") && !IsKeyword(t, "OR")
    ensures t.text != "" && t.text[0] == '-' ==>
              !IsKeyword(t, "NOT") && !IsKeyword(t, "AND") && !IsKeyword(t, "OR") && !IsKeyword(t, "TO")
  {
    if t.kind == IDENT && t.text != "" {
      assert "NOT"[0] == 'N' && "AND"[0] == 'A' && "OR"[0] == 'O' && "TO"[0] == 'T';
      assert UpperByte('-') == '-';
    }
  }

  lemma SameToken(t: Token, p: Token)
    requires t.kind == p.kind && t.text == p.text
    ensures forall k :: IsKeyword(t, k) <==> IsKeyword(p, k)
    ensures Opens(t) <==> Opens(p)
  {
  }

  lemma PlainWordOpens(w: string)
    requires PlainWord(w)
    ensures Opens(Word(w)) && !IsKeyword(Word(w), "NOT")
  {
    assert "AND" in ["AND", "OR", "NOT", "TO"] && "OR" in ["AND", "OR", "NOT", "TO"];
    assert "NOT" in ["AND", "OR", "NOT", "TO"] && "TO" in ["AND", "OR", "NOT", "TO"];
  }

  /** How an item begins. */
  lemma ItemBegins(env: Env, x: Item)
    requires ItemOk(env, x)
    ensures var ps := ItemPieces(env, x);
            ps != [] && (ps[0].kind == IDENT || ps[0].kind == STRING || ps[0].kind == AT || ps[0].kind == LPAREN) &&
            (ps[0].kind == IDENT && !x.Bare? ==> PlainWord(ps[0].text)) &&
            (ps[0].kind == IDENT ==> ps[0] == Word(ps[0].text)) &&
            (Gluable(x) ==> ps[0].kind == IDENT)
  {
    hide PlainWord, ValuePieces, RangePieces, TypedPieces;
  }

  lemma TermBegins(env: Env, t: Term)
    requires TermOk(env, t)
    ensures TermPieces(env, t) != [] && Opens(TermPieces(env, t)[0])
    ensures t.sign.Plain? ==> !IsKeyword(TermPieces(env, t)[0], "NOT")
    ensures t.sign.Plain? && TermPieces(env, t)[0].kind == IDENT ==>
              TermPieces(env, t)[0].text != "" && TermPieces(env, t)[0].text[0] != '-'
  {
    hide ItemOk, ItemPieces;
    ItemBegins(env, t.item);
    var ps := ItemPieces(env, t.item);
    match t.sign {
      case Plain =>
        if ps[0].kind == IDENT {
          assert t.item.Bare? ==> ps[0].text == t.item.word by {
            BareIsItself(env, t.item);
          }
          PlainWordOpens(ps[0].text);
        }
      case Not(w) => OneKeyword(Word(w));
      case Dash => OneKeyword(Word("-"));
      case Glued => OneKeyword(Word("-" + ps[0].text));
    }
  }

  lemma BareIsItself(env: Env, x: Item)
    requires ItemOk(env, x)
    ensures x.Bare? ==> ItemPieces(env, x) == [Word(x.word)]
  {
  }

  // ------------------------------------------------------------------- items

  lemma BareIsParsed(env: Env, w: string, ts: seq<Token>)
    requires WellFormed(ts) && |ts| > 1 && ts[0].kind == IDENT && ts[0].text == w && ts[1].kind != COLON
    ensures Built(Atom(env, ts), PTerm(w), ts, 1)
  {
    hide Columns, Sound, RightHandSide, Disjunction;
  }

  lemma PhraseIsParsed(env: Env, s: string, ts: seq<Token>)
    requires WellFormed(ts) && |ts| > 1 && ts[0].kind == STRING && ts[0].text == s
    ensures Built(Atom(env, ts), PTerm(s), ts, 1)
  {
    hide Columns, Sound, RightHandSide, Disjunction;
  }

  lemma PathIsParsed(env: Env, p: string, ts: seq<Token>)
    requires WellFormed(ts) && |ts| > 2 && ts[0].kind == AT && ts[1].kind == IDENT && ts[1].text == p
    requires ts[2].kind != COLON
    ensures Built(Atom(env, ts), PLeaf(MakeLeaf(F.ATTRIBUTE_PREFIX + p, F.Exists, F.Null)), ts, 2)
  {
    hide Columns, Sound, RightHandSide, Disjunction;
    assert ts[1..][0] == ts[1] && ts[1..][1..] == ts[2..] && ts[2..][0] == ts[2];
  }

  lemma EndIsRead(env: Env, st: Style, end: End, t: Token)
    requires EndOk(env, st, end) && t.kind == EndPiece(env, st, end).kind && t.text == EndPiece(env, st, end).text
    ensures IsValue(t) && CoerceValue(env, ScalarOf(t)) == CoerceValue(env, EndScalar(env, st, end))
    ensures t.text == EndScalar(env, st, end).text
    ensures end.Limit? ==> CoerceValue(env, ScalarOf(t)) == end.value
    ensures t.text == "*" <==> end.Star?
  {
    hide ParseInt;
    if end.Limit? {
      PieceIsCoerced(env, st, end.value, t);
      PieceIsCoerced(env, st, end.value, EndPiece(env, st, end));
    }
  }

  lemma ToIsKeyword(t: Token)
    requires t.kind == IDENT && t.text == "TO"
    ensures IsKeyword(t, "TO")
  {
  }

  /** The same range tree is built whatever the columns of its ends. */
  lemma SameRange(env: Env, field: string, inclusive: bool, lo: Scalar, hi: Option<Scalar>, lo': Scalar,
                  hi': Option<Scalar>)
    requires field != "" && lo.text == lo'.text && CoerceValue(env, lo) == CoerceValue(env, lo')
    requires hi.Some? == hi'.Some?
    requires hi.Some? ==> hi.value.text == hi'.value.text && CoerceValue(env, hi.value) == CoerceValue(env, hi'.value)
    ensures RangeTree(env, field, inclusive, Some(lo), hi) == RangeTree(env, field, inclusive, Some(lo'), hi')
  {
    hide CoerceValue;
  }

  lemma RangeIsBuilt(env: Env, st: Style, field: string, inclusive: bool, lo: End, hi: Option<End>, ts: seq<Token>)
    requires ItemOk(env, Between(field, inclusive, lo, hi, st)) && field != ""
    requires WellFormed(ts) && Starts(ts, RangePieces(env, st, inclusive, lo, hi)) &&
             |ts| > |RangePieces(env, st, inclusive, lo, hi)|
    ensures Built(RightHandSide(env, field, ts), ItemTree(env, Between(field, inclusive, lo, hi, st)), ts,
                  |RangePieces(env, st, inclusive, lo, hi)|)
  {
    hide CoerceValue, Columns, WellFormed, RangeTree, EndPiece, Sound, Comparison, ValueList, ValueLeaf, Range, Starts;
    var ps := RangePieces(env, st, inclusive, lo, hi);
    PieceAt(ts, ps, 0);
    PieceAt(ts, ps, 1);
    PieceAt(ts, ps, 2);
    PieceAt(ts, ps, 3);
    EndIsRead(env, st, lo, ts[1]);
    ToIsKeyword(ts[2]);
    if hi.Some? {
      PieceAt(ts, ps, 4);
      EndIsRead(env, st, hi.value, ts[3]);
      SameRange(env, field, inclusive, ScalarOf(ts[1]), Some(ScalarOf(ts[3])), EndScalar(env, st, lo),
                Some(EndScalar(env, st, hi.value)));
    } else {
      SameRange(env, field, inclusive, ScalarOf(ts[1]), None, EndScalar(env, st, lo), None);
    }
    RangeIsRead(env, field, inclusive, ts, hi.None?);
    BracketIsRange(env, field, inclusive, ts);
  }

  lemma PieceAt(ts: seq<Token>, ps: seq<Token>, i: nat)
    requires Starts(ts, ps) && i < |ps|
    ensures i < |ts| && ts[i].kind == ps[i].kind && ts[i].text == ps[i].text
  {
  }

  lemma BracketIsRange(env: Env, field: string, inclusive: bool, ts: seq<Token>)
    requires field != "" && WellFormed(ts) && ts[0].kind == (if inclusive then LBRACKET else LBRACE)
    ensures RightHandSide(env, field, ts) == Range(env, field, inclusive, ts)
  {
    hide WellFormed, Comparison, Sound, Columns, ValueList, ValueLeaf, Range;
  }

  lemma RangeIsRead(env: Env, field: string, inclusive: bool, ts: seq<Token>, open: bool)
    requires field != "" && WellFormed(ts) && ts[0].kind == (if inclusive then LBRACKET else LBRACE)
    requires |ts| > 4 && IsValue(ts[1]) && IsKeyword(ts[2], "TO")
    requires var close := if inclusive then RBRACKET else RBRACE;
             if open then ts[3].kind == close else IsValue(ts[3]) && ts[4].kind == close && |ts| > 5
    ensures Built(Range(env, field, inclusive, ts),
                  RangeTree(env, field, inclusive, Some(ScalarOf(ts[1])), if open then None else Some(ScalarOf(ts[3]))),
                  ts, if open then 4 else 5)
  {
    hide CoerceValue, Columns, WellFormed, IsKeyword, RangeTree, Bound;
    SuffixWellFormed(ts, 1);
    BoundIsRead(ts[1..]);
    KeywordIsWord(ts[2], "TO");
    SuffixWellFormed(ts, 3);
    assert ts[1..][1..] == ts[2..] && ts[2..][1..] == ts[3..] && ts[3..][0] == ts[3];
    BoundIsRead(ts[3..]);
    assert ts[3..][1..] == ts[4..];
    NextAfter(ts, 3);
    NextAfter(ts, 4);
  }

  lemma BetweenIsParsed(env: Env, st: Style, field: string, inclusive: bool, lo: End, hi: Option<End>, ts: seq<Token>)
    requires ItemOk(env, Between(field, inclusive, lo, hi, st)) && WellFormed(ts)
    requires var ps := ItemPieces(env, Between(field, inclusive, lo, hi, st)); Starts(ts, ps) && |ts| > |ps|
    ensures var x := Between(field, inclusive, lo, hi, st);
            Built(Atom(env, ts), ItemTree(env, x), ts, |ItemPieces(env, x)|)
  {
    hide RightHandSide, RangePieces, Atom, Starts, WellFormed, Built, ItemTree, FieldOk;
    FieldIsNamed(field);
    var fp, rp := FieldPieces(field), RangePieces(env, st, inclusive, lo, hi);
    assert ItemPieces(env, Between(field, inclusive, lo, hi, st)) == (fp + [Piece(COLON, "")]) + rp;
    StartsSplit(ts, fp + [Piece(COLON, "")], rp);
    SuffixWellFormed(ts, |fp| + 1);
    RangeIsBuilt(env, st, field, inclusive, lo, hi, ts[|fp| + 1..]);
    FieldIsParsed(env, field, ts, ItemTree(env, Between(field, inclusive, lo, hi, st)), |rp|);
  }

  // ------------------------------------------------------------------- terms

  lemma EnclosedIsParsed(env: Env, ts: seq<Token>, t: PNode, n: nat)
    requires WellFormed(ts) && ts[0].kind == LPAREN && 1 + n < |ts| && ts[n + 1].kind == RPAREN
    requires WellFormed(ts[1..]) && Built(Disjunction(env, ts[1..]), t, ts[1..], n)
    ensures Built(Atom(env, ts), t, ts, n + 2)
  {
    hide Disjunction, Sound, Columns;
    assert ts[1..][n..] == ts[n + 1..] && ts[n + 1..][0] == ts[n + 1] && ts[n + 1..][1..] == ts[n + 2..];
  }

  /** A first token that neither negates nor has a dash is read as it is. */
  lemma PlainIsAtom(env: Env, ts: seq<Token>)
    requires WellFormed(ts) && !IsKeyword(ts[0], "NOT") && (ts[0].kind == IDENT ==> ts[0].text[0] != '-')
    ensures Factor(env, ts) == Atom(env, ts)
  {
    hide Atom, Columns, Sound;
  }

  /** NOT, or a dash on its own, negates what comes next. */
  lemma SignNegates(env: Env, ts: seq<Token>, t: PNode, n: nat)
    requires WellFormed(ts) && |ts| > 1 && ts[0].kind == IDENT && (IsKeyword(ts[0], "NOT") || ts[0].text == "-")
    requires WellFormed(ts[1..]) && n <= |ts[1..]| && Built(Atom(env, ts[1..]), t, ts[1..], n)
    ensures Built(Factor(env, ts), PGroup(F.And, true, [t], false), ts, n + 1)
  {
    hide Atom, Sound, Columns;
    assert ts[1..][n..] == ts[n + 1..];
  }

  /** A dash glued to a word negates what begins with that word. */
  lemma GluedNegates(env: Env, ts: seq<Token>, t: PNode, n: nat)
    requires WellFormed(ts) && ts[0].kind == IDENT && |ts[0].text| > 1 && ts[0].text[0] == '-'
    requires 0 < n <= |ts| && Built(Atom(env, Stripped(ts)), t, Stripped(ts), n)
    ensures Built(Factor(env, ts), PGroup(F.And, true, [t], false), ts, n)
  {
    hide Atom, Sound, Columns, WellFormed, Stripped;
    OneKeyword(ts[0]);
    StrippedKeepsRest(ts, n);
  }

  lemma StrippedKeepsRest(ts: seq<Token>, n: nat)
    requires WellFormed(ts) && ts[0].kind == IDENT && |ts[0].text| > 1 && 0 < n <= |ts|
    ensures Stripped(ts)[n..] == ts[n..]
  {
    var r := Stripped(ts);
    assert r[n..] == r[1..][n - 1..] && ts[n..] == ts[1..][n - 1..];
  }

  lemma StrippedBegins(ts: seq<Token>, ps: seq<Token>)
    requires WellFormed(ts) && ps != [] && ps[0].kind == IDENT && ps[0].text != "" && Starts(ts, WithDash(ps))
    ensures ts[0].kind == IDENT && |ts[0].text| > 1 && ts[0].text[0] == '-' && Starts(Stripped(ts), ps)
    ensures forall i | 0 < i < |ts| :: Stripped(ts)[i] == ts[i]
  {
    var r, ds := Stripped(ts), WithDash(ps);
    assert ts[0].text == "-" + ps[0].text && ("-" + ps[0].text)[1..] == ps[0].text;
    forall i | 0 < i < |ts| ensures r[i] == ts[i] {
      assert r[1..][i - 1] == ts[1..][i - 1];
    }
    forall i | 0 < i < |ps| ensures ds[i] == ps[i] {
    }
  }

  /** Every item parses, as an atom, to its tree. */
  lemma {:induction false} ItemIsParsed(env: Env, x: Item, ts: seq<Token>)
    requires ItemOk(env, x) && WellFormed(ts) && Starts(ts, ItemPieces(env, x)) && |ts| > |ItemPieces(env, x)|
    requires ts[|ItemPieces(env, x)|].kind != COLON
    ensures Built(Atom(env, ts), ItemTree(env, x), ts, |ItemPieces(env, x)|)
    decreases x, 0
  {
    hide Atom, Disjunction, WellFormed, Starts, Built, Positive, LeafTree, RangePieces, TypedPieces, TypedTree, LeafOk,
         FieldOk;
    match x {
      case Pred(l, st) => LeafIsParsed(env, st, l, ts);
      case Wild(field, w) =>
        FieldIsNamed(field);
        WildIsParsed(env, field, w, ts);
      case Path(p) =>
        PieceAt(ts, ItemPieces(env, x), 0);
        PieceAt(ts, ItemPieces(env, x), 1);
        PathIsParsed(env, p, ts);
      case Between(field, inclusive, lo, hi, st) => BetweenIsParsed(env, st, field, inclusive, lo, hi, ts);
      case Bare(w) =>
        PieceAt(ts, ItemPieces(env, x), 0);
        BareIsParsed(env, w, ts);
      case Phrase(s) =>
        PieceAt(ts, ItemPieces(env, x), 0);
        PhraseIsParsed(env, s, ts);
      case Nested(q) =>
        var ps := TypedPieces(env, q);
        EnclosedPieces(ts, ps);
        assert ts[1..][|ps|] == ts[|ps| + 1];
        TypedIsParsed(env, q, ts[1..]);
        EnclosedIsParsed(env, ts, TypedTree(env, q), |ps|);
    }
  }

  lemma {:induction false} TermIsParsed(env: Env, t: Term, ts: seq<Token>)
    requires TermOk(env, t) && WellFormed(ts) && Starts(ts, TermPieces(env, t)) && |ts| > |TermPieces(env, t)|
    requires ts[|TermPieces(env, t)|].kind != COLON
    ensures Built(Factor(env, ts), TermTree(env, t), ts, |TermPieces(env, t)|)
    decreases t, 0
  {
    hide Atom, Factor, WellFormed, Starts, Built, ItemPieces, ItemTree, ItemOk;
    var ps := ItemPieces(env, t.item);
    ItemBegins(env, t.item);
    TermBegins(env, t);
    PieceAt(ts, TermPieces(env, t), 0);
    SameToken(ts[0], TermPieces(env, t)[0]);
    match t.sign {
      case Plain =>
        PlainIsAtom(env, ts);
        ItemIsParsed(env, t.item, ts);
      case Not(w) =>
        SignIsFirst(ts, w, ps);
        SameToken(ts[0], Word(w));
        ItemIsParsed(env, t.item, ts[1..]);
        SignNegates(env, ts, ItemTree(env, t.item), |ps|);
      case Dash =>
        SignIsFirst(ts, "-", ps);
        ItemIsParsed(env, t.item, ts[1..]);
        SignNegates(env, ts, ItemTree(env, t.item), |ps|);
      case Glued =>
        FirstIsNotEmpty(env, t.item);
        StrippedBegins(ts, ps);
        ItemIsParsed(env, t.item, Stripped(ts));
        GluedNegates(env, ts, ItemTree(env, t.item), |ps|);
    }
  }

  lemma FirstIsNotEmpty(env: Env, x: Item)
    requires ItemOk(env, x) && Gluable(x)
    ensures ItemPieces(env, x) != [] && ItemPieces(env, x)[0].text != ""
  {
    hide ValuePieces, RangePieces;
  }

  lemma SignIsFirst(ts: seq<Token>, w: string, ps: seq<Token>)
    requires WellFormed(ts) && Starts(ts, [Word(w)] + ps) && |ts| > |ps| + 1
    ensures ts[0].kind == IDENT && ts[0].text == w && WellFormed(ts[1..]) && Starts(ts[1..], ps) && |ts[1..]| > |ps|
    ensures ts[1..][|ps|] == ts[|ps| + 1]
  {
    hide WellFormed, Starts;
    StartsHead(ts, Word(w), ps);
    SuffixWellFormed(ts, 1);
  }

  /** Cutting the tokens after a first part. */
  lemma SplitParts(ts: seq<Token>, a: seq<Token>, b: seq<Token>)
    requires WellFormed(ts) && Starts(ts, a + b) && |ts| > |a + b|
    ensures Starts(ts, a) && |ts| > |a| && WellFormed(ts[|a|..]) && Starts(ts[|a|..], b) && |ts[|a|..]| > |b|
    ensures ts[|a|..][|b|] == ts[|a + b|] && ts[|a|..][|b|..] == ts[|a + b|..] && ts[|a|..][0] == ts[|a|]
  {
    hide WellFormed, Starts;
    StartsSplit(ts, a, b);
    SuffixWellFormed(ts, |a|);
  }

  /** What follows a term is not a colon. */
  lemma AfterTerm(env: Env, terms: seq<Term>, ts: seq<Token>)
    requires (forall t <- terms :: TermOk(env, t)) && Starts(ts, MoreTerms(env, terms)) &&
             |ts| > |MoreTerms(env, terms)|
    requires Ends(ts[|MoreTerms(env, terms)|])
    ensures ts[0].kind != COLON
  {
    hide TermPieces, TermOk, Starts;
    if terms != [] {
      assert terms[0] in terms;
      LinkAndTerm(env, terms[0]);
      PieceAt(ts, MoreTerms(env, terms), 0);
    }
  }

  lemma LinkAndTerm(env: Env, t: Term)
    requires TermOk(env, t)
    ensures LinkOk(t.link) && TermPieces(env, t) != [] && Opens(TermPieces(env, t)[0])
    ensures var ps := LinkPieces(t.link) + TermPieces(env, t); ps != [] && ps[0].kind != COLON
  {
    TermBegins(env, t);
  }

  // ------------------------------------------------------------------- lists of terms

  lemma FirstFactor(env: Env, ts: seq<Token>)
    requires WellFormed(ts) && Factor(env, ts).Ok?
    ensures var f := Factor(env, ts);
            ParserTree(f.val) && WellFormed(f.rest) &&
            Conjunction(env, ts) == Warned(f.warns, MoreFactors(env, [f.val], f.rest))
  {
    hide Factor, MoreFactors;
  }

  lemma BuiltParts(r: Parsed<PNode>, t: PNode, ts: seq<Token>, n: nat)
    requires n <= |ts| && Built(r, t, ts, n)
    ensures r.Ok? && r.val == t && r.rest == ts[n..]
  {
  }

  lemma TermsEnd(env: Env, acc: seq<PNode>, ts: seq<Token>)
    requires WellFormed(ts) && acc != [] && (forall a <- acc :: ParserTree(a)) && Ends(ts[0])
    ensures MoreFactors(env, acc, ts) == Ok(Conjoined(acc), ts, [])
  {
    hide Factor;
    OneKeyword(ts[0]);
  }

  /** Standing side by side joins terms as AND does. */
  lemma OneMoreTerm(env: Env, acc: seq<PNode>, ts: seq<Token>, link: Link)
    requires WellFormed(ts) && acc != [] && (forall a <- acc :: ParserTree(a)) && LinkOk(link)
    requires Starts(ts, LinkPieces(link)) && |ts| > |LinkPieces(link)|
    requires link.Adjacent? ==> Opens(ts[0])
    requires var us := ts[|LinkPieces(link)|..]; WellFormed(us) && Factor(env, us).Ok?
    ensures var us := ts[|LinkPieces(link)|..];
            var f := Factor(env, us);
            ParserTree(f.val) && WellFormed(f.rest) &&
            MoreFactors(env, acc, ts) == Warned(f.warns, MoreFactors(env, acc + [f.val], f.rest))
  {
    hide Factor, Warned, Conjoined, ParserTree;
    if link.AndWord? {
      PieceAt(ts, LinkPieces(link), 0);
      SameToken(ts[0], Word(link.word));
    } else {
      assert ts[0..] == ts;
    }
  }

  lemma AccumulatedTerms(env: Env, acc: seq<PNode>, terms: seq<Term>)
    requires terms != [] && forall t <- terms :: TermOk(env, t)
    ensures TermOk(env, terms[0]) &&
            acc + [TermTree(env, terms[0])] + TermTrees(env, terms[1..]) == acc + TermTrees(env, terms)
  {
    hide TermTree;
    assert terms[0] in terms;
  }

  lemma BuiltAfter(ws: seq<Warning>, r: Parsed<PNode>, t: PNode, rest: seq<Token>, m: nat, ts: seq<Token>, n: nat)
    requires m <= |rest| && n <= |ts| && Built(r, t, rest, m) && rest[m..] == ts[n..]
    ensures Built(Warned(ws, r), t, ts, n)
  {
  }

  lemma MoreTermsParts(env: Env, terms: seq<Term>, ts: seq<Token>)
    requires terms != [] && (forall t <- terms :: TermOk(env, t)) && WellFormed(ts)
    requires Starts(ts, MoreTerms(env, terms)) && |ts| > |MoreTerms(env, terms)| && Ends(ts[|MoreTerms(env, terms)|])
    ensures var t := terms[0];
            TermOk(env, t) && LinkOk(t.link) && Starts(ts, LinkPieces(t.link)) && |ts| > |LinkPieces(t.link)| &&
            (t.link.Adjacent? ==> Opens(ts[0]))
    ensures var us := ts[|LinkPieces(terms[0].link)|..];
            var ps := TermPieces(env, terms[0]);
            WellFormed(us) && Starts(us, ps) && |us| > |ps| && us[|ps|].kind != COLON && WellFormed(us[|ps|..])
    ensures var rest := ts[|LinkPieces(terms[0].link)|..][|TermPieces(env, terms[0])|..];
            var more := MoreTerms(env, terms[1..]);
            Starts(rest, more) && |rest| > |more| && Ends(rest[|more|]) &&
            rest[|more|..] == ts[|MoreTerms(env, terms)|..]
  {
    hide TermPieces, TermOk, Starts, WellFormed, Ends, Opens, LinkOk;
    assert terms[0] in terms;
    var k, ps, more := LinkPieces(terms[0].link), TermPieces(env, terms[0]), MoreTerms(env, terms[1..]);
    assert MoreTerms(env, terms) == k + (ps + more);
    SplitParts(ts, k, ps + more);
    var us := ts[|k|..];
    SplitParts(us, ps, more);
    LinkAndTerm(env, terms[0]);
    AfterTerm(env, terms[1..], us[|ps|..]);
    AdjacentOpens(env, terms[0], ts, us);
  }

  lemma AdjacentOpens(env: Env, t: Term, ts: seq<Token>, us: seq<Token>)
    requires TermOk(env, t) && us != [] && ts != [] && (t.link.Adjacent? ==> us[0] == ts[0])
    requires Starts(us, TermPieces(env, t))
    ensures t.link.Adjacent? ==> Opens(ts[0])
  {
    hide TermPieces, TermOk;
    LinkAndTerm(env, t);
    PieceAt(us, TermPieces(env, t), 0);
    SameToken(us[0], TermPieces(env, t)[0]);
  }

  lemma {:induction false} MoreTermsParsed(env: Env, terms: seq<Term>, acc: seq<PNode>, ts: seq<Token>)
    requires (forall t <- terms :: TermOk(env, t)) && acc != [] && (forall a <- acc :: ParserTree(a)) && WellFormed(ts)
    requires Starts(ts, MoreTerms(env, terms)) && |ts| > |MoreTerms(env, terms)| && Ends(ts[|MoreTerms(env, terms)|])
    ensures Built(MoreFactors(env, acc, ts), Conjoined(acc + TermTrees(env, terms)), ts, |MoreTerms(env, terms)|)
    decreases terms, 0
  {
    hide Atom, Factor, MoreFactors, TermPieces, TermTree, TermTrees, Columns, WellFormed, Starts, ParserTree, Conjoined,
         Warned, TermOk, Ends, Opens, LinkOk;
    if terms == [] {
      assert TermTrees(env, terms) == [] && acc + [] == acc && ts[0..] == ts;
      TermsEnd(env, acc, ts);
    } else {
      MoreTermsParts(env, terms, ts);
      var k, ps := |LinkPieces(terms[0].link)|, TermPieces(env, terms[0]);
      var us := ts[k..];
      var rest := us[|ps|..];
      TermIsParsed(env, terms[0], us);
      BuiltParts(Factor(env, us), TermTree(env, terms[0]), us, |ps|);
      OneMoreTerm(env, acc, ts, terms[0].link);
      MoreTermsParsed(env, terms[1..], acc + [TermTree(env, terms[0])], rest);
      AccumulatedTerms(env, acc, terms);
      BuiltAfter(Factor(env, us).warns, MoreFactors(env, acc + [TermTree(env, terms[0])], rest),
                 Conjoined(acc + TermTrees(env, terms)), rest, |MoreTerms(env, terms[1..])|,
                 ts, |MoreTerms(env, terms)|);
    }
  }

  lemma {:induction false} TermsAreParsed(env: Env, terms: seq<Term>, ts: seq<Token>)
    requires terms != [] && (forall t <- terms :: TermOk(env, t)) && WellFormed(ts)
    requires Starts(ts, TermsPieces(env, terms)) && |ts| > |TermsPieces(env, terms)| &&
             Ends(ts[|TermsPieces(env, terms)|])
    ensures Built(Conjunction(env, ts), Conjoined(TermTrees(env, terms)), ts, |TermsPieces(env, terms)|)
    decreases terms, 1
  {
    hide Atom, Factor, Conjunction, MoreFactors, TermPieces, TermTree, WellFormed, Starts, Built, Conjoined, TermOk,
         Ends, ParserTree, MoreTerms;
    assert terms[0] in terms;
    var a, b := TermPieces(env, terms[0]), MoreTerms(env, terms[1..]);
    SplitParts(ts, a, b);
    var rest := ts[|a|..];
    AfterTerm(env, terms[1..], rest);
    TermIsParsed(env, terms[0], ts);
    BuiltParts(Factor(env, ts), TermTree(env, terms[0]), ts, |a|);
    FirstFactor(env, ts);
    MoreTermsParsed(env, terms[1..], [TermTree(env, terms[0])], rest);
    assert [TermTree(env, terms[0])] + TermTrees(env, terms[1..]) == TermTrees(env, terms);
    BuiltAfter(Factor(env, ts).warns, MoreFactors(env, [TermTree(env, terms[0])], rest),
               Conjoined(TermTrees(env, terms)), rest, |b|, ts, |a| + |b|);
  }

  // ------------------------------------------------------------------- alternatives

  lemma FirstConjunction(env: Env, ts: seq<Token>)
    requires WellFormed(ts) && Conjunction(env, ts).Ok?
    ensures var c := Conjunction(env, ts);
            ParserTree(c.val) && WellFormed(c.rest) &&
            Disjunction(env, ts) == Warned(c.warns, MoreBranches(env, [c.val], c.rest))
  {
    hide Conjunction, MoreBranches;
  }

  lemma AlternativesEnd(env: Env, acc: seq<PNode>, ts: seq<Token>)
    requires WellFormed(ts) && acc != [] && (forall a <- acc :: ParserTree(a))
    requires Closes(ts[0])
    ensures MoreBranches(env, acc, ts) == Ok(Disjoined(acc), ts, [])
  {
    OneKeyword(ts[0]);
    hide Conjunction;
  }

  lemma OrStep(env: Env, acc: seq<PNode>, ts: seq<Token>)
    requires WellFormed(ts) && acc != [] && (forall a <- acc :: ParserTree(a)) && IsKeyword(ts[0], "OR")
    requires WellFormed(ts[1..]) && Conjunction(env, ts[1..]).Ok?
    ensures var f := Conjunction(env, ts[1..]);
            ParserTree(f.val) && WellFormed(f.rest) &&
            MoreBranches(env, acc, ts) == Warned(f.warns, MoreBranches(env, acc + [f.val], f.rest))
  {
    hide Conjunction;
  }

  lemma MoreAlternativesParts(env: Env, alts: seq<Alternative>, ts: seq<Token>)
    requires alts != [] && (forall a <- alts :: AlternativeOk(env, a)) && WellFormed(ts)
    requires Starts(ts, MoreAlternatives(env, alts)) && |ts| > |MoreAlternatives(env, alts)|
    requires Closes(ts[|MoreAlternatives(env, alts)|])
    ensures AlternativeOk(env, alts[0]) && alts[0].terms != [] && (forall t <- alts[0].terms :: TermOk(env, t))
    ensures IsKeyword(ts[0], "OR") && WellFormed(ts[1..])
    ensures var ps := TermsPieces(env, alts[0].terms);
            Starts(ts[1..], ps) && |ts[1..]| > |ps| && Ends(ts[1..][|ps|]) && WellFormed(ts[1..][|ps|..])
    ensures var rest := ts[1..][|TermsPieces(env, alts[0].terms)|..];
            var more := MoreAlternatives(env, alts[1..]);
            Starts(rest, more) && |rest| > |more| && Closes(rest[|more|]) &&
            rest[|more|..] == ts[|MoreAlternatives(env, alts)|..]
  {
    hide TermsPieces, Starts, WellFormed, Ends, Closes, IsKeyword, TermOk;
    AlternativeIs(env, alts[0]) by {
      assert alts[0] in alts;
    }
    var ps, more := TermsPieces(env, alts[0].terms), MoreAlternatives(env, alts[1..]);
    assert MoreAlternatives(env, alts) == [Word(alts[0].or)] + (ps + more);
    SignIsFirst(ts, alts[0].or, ps + more);
    SameToken(ts[0], Word(alts[0].or));
    SplitParts(ts[1..], ps, more);
    assert ts[1..][|ps + more|] == ts[|ps + more| + 1] && ts[1..][|ps + more|..] == ts[|ps + more| + 1..];
    AlternativesNext(env, alts[1..], ts[1..][|ps|..]);
  }

  lemma AlternativeIs(env: Env, a: Alternative)
    requires AlternativeOk(env, a)
    ensures IsKeyword(Word(a.or), "OR") && a.terms != [] && forall t <- a.terms :: TermOk(env, t)
  {
  }

  /** What follows an alternative: another OR, or the end. */
  lemma AlternativesNext(env: Env, alts: seq<Alternative>, ts: seq<Token>)
    requires forall a <- alts :: AlternativeOk(env, a)
    requires Starts(ts, MoreAlternatives(env, alts)) && |ts| > |MoreAlternatives(env, alts)|
    requires Closes(ts[|MoreAlternatives(env, alts)|])
    ensures Ends(ts[0])
  {
    hide TermsPieces, Starts, IsKeyword, TermOk;
    if alts != [] {
      AlternativeIs(env, alts[0]) by {
        assert alts[0] in alts;
      }
      assert MoreAlternatives(env, alts)[0] == Word(alts[0].or);
      PieceAt(ts, MoreAlternatives(env, alts), 0);
      SameToken(ts[0], Word(alts[0].or));
    }
  }

  lemma AccumulatedAlternatives(env: Env, acc: seq<PNode>, alts: seq<Alternative>)
    requires alts != [] && forall a <- alts :: AlternativeOk(env, a)
    ensures AlternativeOk(env, alts[0]) && alts[0].terms != [] && forall t <- alts[0].terms :: TermOk(env, t)
    ensures acc + [Conjoined(TermTrees(env, alts[0].terms))] + AlternativeTrees(env, alts[1..]) ==
              acc + AlternativeTrees(env, alts)
  {
    hide TermTrees, TermOk, Conjoined;
    assert AlternativeOk(env, alts[0]);
  }

  lemma {:induction false} MoreAlternativesParsed(env: Env, alts: seq<Alternative>, acc: seq<PNode>, ts: seq<Token>)
    requires (forall a <- alts :: AlternativeOk(env, a)) && acc != [] && (forall a <- acc :: ParserTree(a)) &&
             WellFormed(ts)
    requires Starts(ts, MoreAlternatives(env, alts)) && |ts| > |MoreAlternatives(env, alts)|
    requires Closes(ts[|MoreAlternatives(env, alts)|])
    ensures Built(MoreBranches(env, acc, ts), Disjoined(acc + AlternativeTrees(env, alts)), ts,
                  |MoreAlternatives(env, alts)|)
    decreases alts, 0
  {
    hide Conjunction, MoreBranches, TermsPieces, TermTrees, AlternativeTrees, Columns, WellFormed, Starts, ParserTree,
         Disjoined, Conjoined, Warned, AlternativeOk, Ends, IsKeyword;
    if alts == [] {
      assert AlternativeTrees(env, alts) == [] && acc + [] == acc && ts[0..] == ts;
      AlternativesEnd(env, acc, ts);
    } else {
      MoreAlternativesParts(env, alts, ts);
      var ps := TermsPieces(env, alts[0].terms);
      var tree := Conjoined(TermTrees(env, alts[0].terms));
      var rest := ts[1..][|ps|..];
      TermsAreParsed(env, alts[0].terms, ts[1..]);
      BuiltParts(Conjunction(env, ts[1..]), tree, ts[1..], |ps|);
      OrStep(env, acc, ts);
      MoreAlternativesParsed(env, alts[1..], acc + [tree], rest);
      AccumulatedAlternatives(env, acc, alts);
      BuiltAfter(Conjunction(env, ts[1..]).warns, MoreBranches(env, acc + [tree], rest),
                 Disjoined(acc + AlternativeTrees(env, alts)), rest, |MoreAlternatives(env, alts[1..])|,
                 ts, |MoreAlternatives(env, alts)|);
    }
  }

  /** Main step: what is typed parses to its tree, up to the closing parenthesis, the end, or
      whatever else cannot go on with it. */
  lemma {:induction false} TypedIsParsed(env: Env, q: Typed, ts: seq<Token>)
    requires TypedOk(env, q) && WellFormed(ts) && Starts(ts, TypedPieces(env, q)) && |ts| > |TypedPieces(env, q)|
    requires Closes(ts[|TypedPieces(env, q)|])
    ensures Built(Disjunction(env, ts), TypedTree(env, q), ts, |TypedPieces(env, q)|)
    decreases q, 0
  {
    hide Conjunction, Disjunction, MoreBranches, TermsPieces, TermTrees, WellFormed, Starts, Built, Conjoined,
         Disjoined, AlternativeOk, Ends, ParserTree, MoreAlternatives;
    var alts := q.alternatives;
    assert AlternativeOk(env, alts[0]);
    AlternativeIs(env, alts[0]);
    var a, b := TermsPieces(env, alts[0].terms), MoreAlternatives(env, alts[1..]);
    SplitParts(ts, a, b);
    var rest := ts[|a|..];
    AlternativesNext(env, alts[1..], rest);
    TermsAreParsed(env, alts[0].terms, ts);
    var tree := Conjoined(TermTrees(env, alts[0].terms));
    BuiltParts(Conjunction(env, ts), tree, ts, |a|);
    FirstConjunction(env, ts);
    MoreAlternativesParsed(env, alts[1..], [tree], rest);
    assert [tree] + AlternativeTrees(env, alts[1..]) == AlternativeTrees(env, alts);
    BuiltAfter(Conjunction(env, ts).warns, MoreBranches(env, [tree], rest), Disjoined(AlternativeTrees(env, alts)),
               rest, |b|, ts, |a| + |b|);
  }
}

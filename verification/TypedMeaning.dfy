/** Lexing, parsing and finalizing a typed query keep what it means. */
module TypedMeaning {
  import opened Text
  import opened Lexer
  import opened Spelling
  import opened Grammar
  import opened Finalize
  import opened Events
  import opened Matcher
  import opened ParserProperties
  import opened TypedPredicates
  import opened TypedQueries
  import opened TypedParsing
  import F = Filter

  // ------------------------------------------------------------------- meaning

  lemma NegationMeans(env: Env, t: PNode, ev: Event)
    ensures Means(env, PGroup(F.And, true, [t], false), ev) == !Means(env, t, ev)
  {
    hide MatchLeaf;
    assert [t][1..] == [];
    assert AllMean(env, [t], ev) == (Means(env, t, ev) && AllMean(env, [], ev));
  }

  lemma JoinedMeans(env: Env, ts: seq<PNode>, ev: Event)
    requires ts != []
    ensures Means(env, Conjoined(ts), ev) == AllMean(env, ts, ev)
    ensures Means(env, Disjoined(ts), ev) == AnyMeans(env, ts, ev)
  {
    hide MatchLeaf;
    if |ts| == 1 {
      assert ts[1..] == [];
      assert AllMean(env, ts, ev) == (Means(env, ts[0], ev) && AllMean(env, [], ev));
      assert AnyMeans(env, ts, ev) == (Means(env, ts[0], ev) || AnyMeans(env, [], ev));
    }
  }

  lemma WordMeans(env: Env, v: string, ev: Event)
    ensures Means(env, PTerm(v), ev) <==> InMessage(env, v, ev)
  {
  }

  lemma BetweenMeans(env: Env, st: Style, field: string, inclusive: bool, lo: End, hi: Option<End>, ev: Event)
    requires ItemOk(env, Between(field, inclusive, lo, hi, st))
    ensures Means(env, ItemTree(env, Between(field, inclusive, lo, hi, st)), ev) <==>
            BetweenHolds(env, field, inclusive, lo, hi, ev)
  {
    hide CoerceValue, MatchLeaf, EndPiece, RangeTree, Means;
    FieldIsNamed(field);
    EndIsRead(env, st, lo, EndPiece(env, st, lo));
    if hi.Some? {
      EndIsRead(env, st, hi.value, EndPiece(env, st, hi.value));
    }
    RangeTreeMeans(env, field, inclusive, Some(EndScalar(env, st, lo)),
                   if hi.Some? then Some(EndScalar(env, st, hi.value)) else None, ev);
  }

  lemma {:induction false} ItemMeans(env: Env, x: Item, ev: Event)
    requires ItemOk(env, x)
    ensures Means(env, ItemTree(env, x), ev) <==> ItemHolds(env, x, ev)
    decreases x, 0
  {
    hide LeafTree, MatchLeaf, TypedTree, LeafOk, BetweenHolds, RangeTree, InMessage;
    match x {
      case Pred(l, st) => LeafTreeMeans(env, st, l, ev);
      case Wild(_, _) =>
      case Path(_) =>
      case Between(field, inclusive, lo, hi, st) => BetweenMeans(env, st, field, inclusive, lo, hi, ev);
      case Bare(w) => WordMeans(env, w, ev);
      case Phrase(s) => WordMeans(env, s, ev);
      case Nested(q) => TypedMeans(env, q, ev);
    }
  }

  lemma {:induction false} TermMeans(env: Env, t: Term, ev: Event)
    requires TermOk(env, t)
    ensures Means(env, TermTree(env, t), ev) <==> TermHolds(env, t, ev)
    decreases t, 0
  {
    hide ItemTree, ItemHolds, Means, ItemOk;
    ItemMeans(env, t.item, ev);
    NegationMeans(env, ItemTree(env, t.item), ev);
  }

  lemma {:induction false} TermsMean(env: Env, terms: seq<Term>, ev: Event)
    requires forall t <- terms :: TermOk(env, t)
    ensures AllMean(env, TermTrees(env, terms), ev) <==> forall t <- terms :: TermHolds(env, t, ev)
    decreases terms, 0
  {
    hide TermTree, TermHolds, Means, TermOk;
    if terms != [] {
      assert terms[0] in terms;
      TermMeans(env, terms[0], ev);
      TermsMean(env, terms[1..], ev);
      var trees := TermTrees(env, terms);
      assert trees[0] == TermTree(env, terms[0]) && trees[1..] == TermTrees(env, terms[1..]);
      assert AllMean(env, trees, ev) == (Means(env, trees[0], ev) && AllMean(env, trees[1..], ev));
      assert forall t <- terms :: t == terms[0] || t in terms[1..];
    }
  }

  lemma {:induction false} AlternativesMean(env: Env, alts: seq<Alternative>, ev: Event)
    requires forall a <- alts :: AlternativeOk(env, a)
    ensures AnyMeans(env, AlternativeTrees(env, alts), ev) <==> exists a <- alts :: AlternativeHolds(env, a, ev)
    decreases alts, 0
  {
    hide TermTrees, Conjoined, Means, TermOk, TermHolds;
    if alts != [] {
      assert AlternativeOk(env, alts[0]);
      TermsMean(env, alts[0].terms, ev);
      JoinedMeans(env, TermTrees(env, alts[0].terms), ev);
      AlternativesMean(env, alts[1..], ev);
      var trees := AlternativeTrees(env, alts);
      assert trees[0] == Conjoined(TermTrees(env, alts[0].terms)) && trees[1..] == AlternativeTrees(env, alts[1..]);
      assert AnyMeans(env, trees, ev) == (Means(env, trees[0], ev) || AnyMeans(env, trees[1..], ev));
      assert alts[0] in alts && forall a <- alts :: a == alts[0] || a in alts[1..];
    }
  }

  lemma {:induction false} TypedMeans(env: Env, q: Typed, ev: Event)
    requires TypedOk(env, q)
    ensures Means(env, TypedTree(env, q), ev) <==> Holds(env, q, ev)
    decreases q, 0
  {
    hide AlternativeTrees, Disjoined, Means, AlternativeHolds, AlternativeOk;
    AlternativesMean(env, q.alternatives, ev);
    JoinedMeans(env, AlternativeTrees(env, q.alternatives), ev);
  }

  // ------------------------------------------------------------------- free text

  lemma {:induction false} TreeOfText(env: Env, x: Item)
    requires ItemOk(env, x)
    ensures match FreeText(x)
            case Some(text) => ItemTree(env, x) == PTerm(text)
            case None => !ItemTree(env, x).PTerm?
    decreases x
  {
    hide RangeTree, LeafTree, LeafOk;
    match x {
      case Pred(l, st) => LeafTreeIsNotTerm(env, st, l);
      case Between(field, inclusive, lo, hi, st) =>
        FieldIsNamed(field);
        RangeIsNotTerm(env, field, inclusive, EndScalar(env, st, lo),
                       if hi.Some? then Some(EndScalar(env, st, hi.value)) else None);
      case Nested(q) =>
        assert AlternativeOk(env, q.alternatives[0]);
        var terms := q.alternatives[0].terms;
        assert terms[0] in terms;
        SingleTree(env, q);
        if |q.alternatives| == 1 && |terms| == 1 && terms[0].sign.Plain? {
          TreeOfText(env, terms[0].item);
        }
      case _ =>
    }
  }

  /** The tree of a query is its one term's, or a group. */
  lemma SingleTree(env: Env, q: Typed)
    requires TypedOk(env, q)
    ensures q.alternatives != []
    ensures AlternativeOk(env, q.alternatives[0]) && q.alternatives[0].terms != [] &&
            TermOk(env, q.alternatives[0].terms[0])
    ensures var terms := q.alternatives[0].terms;
            var t := TypedTree(env, q);
            if |q.alternatives| > 1 then t.PGroup? && t.op == F.Or
            else if |terms| > 1 then t == PGroup(F.And, false, TermTrees(env, terms), true)
            else t == TermTree(env, terms[0])
  {
    hide TermTree, TermOk;
    var alts := q.alternatives;
    assert AlternativeOk(env, alts[0]);
    AlternativeIs(env, alts[0]);
    assert alts[0].terms[0] in alts[0].terms;
    assert AlternativeTrees(env, alts)[0] == Conjoined(TermTrees(env, alts[0].terms));
    assert TermTrees(env, alts[0].terms)[0] == TermTree(env, alts[0].terms[0]);
  }

  lemma RangeIsNotTerm(env: Env, field: string, inclusive: bool, lo: Scalar, hi: Option<Scalar>)
    requires field != ""
    ensures var t := RangeTree(env, field, inclusive, Some(lo), hi); !t.PTerm? && (t.PGroup? ==> !t.flat)
  {
    hide CoerceValue;
  }

  lemma TermOfText(env: Env, t: Term)
    requires TermOk(env, t)
    ensures var text := if t.sign.Plain? then FreeText(t.item) else None;
            if text.Some? then TermTree(env, t) == PTerm(text.value) else !TermTree(env, t).PTerm?
  {
    hide ItemOk, ItemTree, FreeText;
    TreeOfText(env, t.item);
  }

  lemma {:induction false} TermsOfText(env: Env, terms: seq<Term>)
    requires forall t <- terms :: TermOk(env, t)
    ensures TopTerms(TermTrees(env, terms)) == FreeTexts(terms)
  {
    hide TermOk, TermTree, FreeText;
    if terms != [] {
      assert terms[0] in terms;
      TermOfText(env, terms[0]);
      TermsOfText(env, terms[1..]);
      assert TermTrees(env, terms)[0] == TermTree(env, terms[0]) &&
             TermTrees(env, terms)[1..] == TermTrees(env, terms[1..]);
    }
  }

  lemma {:induction false} AllText(env: Env, terms: seq<Term>)
    requires forall t <- terms :: TermOk(env, t)
    ensures (forall n <- TermTrees(env, terms) :: n.PTerm?) <==>
            forall t <- terms :: t.sign.Plain? && FreeText(t.item).Some?
  {
    hide TermOk, TermTree, FreeText;
    if terms != [] {
      assert terms[0] in terms;
      TermOfText(env, terms[0]);
      AllText(env, terms[1..]);
      assert forall t <- terms :: t == terms[0] || t in terms[1..];
      assert TermTrees(env, terms) == [TermTree(env, terms[0])] + TermTrees(env, terms[1..]);
      assert TermTrees(env, terms)[0] in TermTrees(env, terms);
      assert forall n <- TermTrees(env, terms[1..]) :: n in TermTrees(env, terms);
    }
  }

  lemma OneTop(n: PNode)
    ensures TopTerms([n]) == if n.PTerm? then [n.value] else []
  {
    assert [n][1..] == [];
  }

  /** A tree that is not a top-level list of terms is one factor. */
  lemma TermIsOneFactor(env: Env, t: Term)
    requires TermOk(env, t) && !(t.sign.Plain? && t.item.Nested?)
    ensures TopFactors(TermTree(env, t)) == [TermTree(env, t)]
  {
    hide LeafTree, LeafOk, RangeTree;
    match t.item {
      case Pred(l, st) => LeafTreeIsNotTerm(env, st, l);
      case Between(field, inclusive, lo, hi, st) =>
        FieldIsNamed(field);
        RangeIsNotTerm(env, field, inclusive, EndScalar(env, st, lo),
                       if hi.Some? then Some(EndScalar(env, st, hi.value)) else None);
      case _ =>
    }
  }

  lemma {:induction false} LiftedAtTop(env: Env, q: Typed)
    requires TypedOk(env, q)
    ensures TopTerms(TopFactors(TypedTree(env, q))) == Lifted(q)
    ensures (forall n <- TopFactors(TypedTree(env, q)) :: n.PTerm?) <==> OnlyText(q)
    decreases q
  {
    hide TermTree, TermTrees, TermOk, TopTerms, FreeTexts, TypedTree, TypedOk, FreeText;
    SingleTree(env, q);
    var terms := q.alternatives[0].terms;
    OneTop(TypedTree(env, q));
    AlternativeIs(env, q.alternatives[0]);
    if |q.alternatives| == 1 {
      if |terms| == 1 && terms[0].sign.Plain? && terms[0].item.Nested? {
        NestedTree(env, terms[0]);
        LiftedAtTop(env, terms[0].item.query);
      } else {
        TermsOfText(env, terms);
        AllText(env, terms);
        if |terms| == 1 {
          TermIsOneFactor(env, terms[0]);
          OneTree(env, terms);
        }
      }
    }
  }

  lemma NestedTree(env: Env, t: Term)
    requires TermOk(env, t) && t.sign.Plain? && t.item.Nested?
    ensures TypedOk(env, t.item.query) && TermTree(env, t) == TypedTree(env, t.item.query)
  {
    hide TypedTree;
  }

  lemma OneTree(env: Env, terms: seq<Term>)
    requires |terms| == 1 && TermOk(env, terms[0]) && forall t <- terms :: TermOk(env, t)
    ensures TermTrees(env, terms) == [TermTree(env, terms[0])]
  {
    hide TermTree, TermOk;
  }

  // ------------------------------------------------------------------- main result

  lemma {:induction false} ItemPiecesOk(env: Env, x: Item)
    requires ItemOk(env, x)
    ensures forall p <- ItemPieces(env, x) :: PieceOk(p)
    decreases x, 0
  {
    hide Positive, LeafOk, ValuePieces, TypedPieces, FieldPieces, ValuePiece, RangePieces, FieldOk;
    match x {
      case Pred(l, st) => LeafPiecesOk(env, st, l);
      case Wild(field, _) => FieldPiecesOk(field);
      case Path(p) =>
      case Between(field, inclusive, lo, hi, st) =>
        FieldPiecesOk(field);
        RangePiecesOk(env, st, inclusive, lo, hi);
      case Bare(w) =>
      case Phrase(s) =>
      case Nested(q) => TypedPiecesOk(env, q);
    }
  }

  lemma EndPieceOk(env: Env, st: Style, end: End)
    requires EndOk(env, st, end)
    ensures PieceOk(EndPiece(env, st, end))
  {
    if end.Limit? {
      ValuePieceOk(env, st, end.value);
    }
  }

  lemma RangePiecesOk(env: Env, st: Style, inclusive: bool, lo: End, hi: Option<End>)
    requires EndOk(env, st, lo) && (hi.Some? ==> EndOk(env, st, hi.value))
    ensures forall p <- RangePieces(env, st, inclusive, lo, hi) :: PieceOk(p)
  {
    hide EndPiece, EndOk;
    EndPieceOk(env, st, lo);
    if hi.Some? {
      EndPieceOk(env, st, hi.value);
    }
  }

  lemma KeywordIsIdent(w: string, k: string)
    requires IsKeyword(Word(w), k) && k in ["AND", "OR", "NOT"]
    ensures IsIdent(w)
  {
    forall i | 0 <= i < |w| ensures IsIdentByte(w[i]) {
      assert UpperByte(w[i]) == k[i];
      assert 'A' <= k[i] <= 'Z';
    }
  }

  lemma {:induction false} TermPiecesOk(env: Env, t: Term)
    requires TermOk(env, t)
    ensures forall p <- TermPieces(env, t) :: PieceOk(p)
    decreases t, 0
  {
    hide ItemPieces, ItemOk;
    var ps := ItemPieces(env, t.item);
    ItemPiecesOk(env, t.item);
    match t.sign {
      case Plain =>
      case Not(w) => KeywordIsIdent(w, "NOT");
      case Dash =>
      case Glued =>
        ItemBegins(env, t.item);
        assert ps[0] in ps;
        assert forall p <- ps[1..] :: p in ps;
    }
  }

  lemma LinkPiecesOk(link: Link)
    requires LinkOk(link)
    ensures forall p <- LinkPieces(link) :: PieceOk(p)
  {
    if link.AndWord? {
      KeywordIsIdent(link.word, "AND");
    }
  }

  lemma {:induction false} MoreTermsOk(env: Env, terms: seq<Term>)
    requires forall t <- terms :: TermOk(env, t)
    ensures forall p <- MoreTerms(env, terms) :: PieceOk(p)
    decreases terms, 0
  {
    hide TermPieces, PieceOk, LinkPieces;
    if terms != [] {
      assert terms[0] in terms;
      LinkPiecesOk(terms[0].link);
      TermPiecesOk(env, terms[0]);
      MoreTermsOk(env, terms[1..]);
    }
  }

  lemma {:induction false} TermsPiecesOk(env: Env, terms: seq<Term>)
    requires terms != [] && forall t <- terms :: TermOk(env, t)
    ensures forall p <- TermsPieces(env, terms) :: PieceOk(p)
    decreases terms, 1
  {
    hide TermPieces, PieceOk, MoreTerms, TermOk;
    assert terms[0] in terms;
    TermPiecesOk(env, terms[0]);
    MoreTermsOk(env, terms[1..]);
  }

  lemma {:induction false} MoreAlternativesOk(env: Env, alts: seq<Alternative>)
    requires forall a <- alts :: AlternativeOk(env, a)
    ensures forall p <- MoreAlternatives(env, alts) :: PieceOk(p)
    decreases alts, 0
  {
    hide TermsPieces, TermOk, IsKeyword;
    if alts != [] {
      assert AlternativeOk(env, alts[0]);
      KeywordIsIdent(alts[0].or, "OR");
      TermsPiecesOk(env, alts[0].terms);
      MoreAlternativesOk(env, alts[1..]);
    }
  }

  lemma {:induction false} TypedPiecesOk(env: Env, q: Typed)
    requires TypedOk(env, q)
    ensures TypedPieces(env, q) != [] && forall p <- TypedPieces(env, q) :: PieceOk(p)
    decreases q, 0
  {
    hide TermsPieces, MoreAlternatives, PieceOk, TermOk;
    assert AlternativeOk(env, q.alternatives[0]);
    TermsPiecesOk(env, q.alternatives[0].terms);
    MoreAlternativesOk(env, q.alternatives[1..]);
    TermsBegin(env, q.alternatives[0].terms);
  }

  lemma TermsBegin(env: Env, terms: seq<Term>)
    requires terms != [] && forall t <- terms :: TermOk(env, t)
    ensures TermsPieces(env, terms) != []
  {
    hide TermPieces, MoreTerms, TermOk;
    assert terms[0] in terms;
    TermBegins(env, terms[0]);
  }

  /** A query as it is written: white space in front, and after each token. */
  function TypedText(env: Env, q: Typed, lead: string, gaps: seq<string>): string
    requires TypedOk(env, q) && |gaps| == |TypedPieces(env, q)|
  {
    lead + Written(TypedPieces(env, q), gaps)
  }

  lemma TextIsLexed(env: Env, q: Typed, lead: string, gaps: seq<string>)
    requires TypedOk(env, q) && Blank(lead) && Separated(TypedPieces(env, q), gaps)
    ensures Lex(TypedText(env, q, lead, gaps), 1).Tokens?
    ensures var ts := Lex(TypedText(env, q, lead, gaps), 1).toks;
            var n := |TypedPieces(env, q)|;
            n > 0 && WellFormed(ts) && Starts(ts, TypedPieces(env, q)) && |ts| == n + 1 && ts[n].kind == EOF &&
            ts[0].kind != EOF
  {
    hide Lex, TypedPieces, TypedOk, WellFormed;
    var ps := TypedPieces(env, q);
    TypedPiecesOk(env, q);
    SeparatedLength(ps, gaps);
    BlankIsSkipped(lead, Written(ps, gaps), 1);
    SpellingIsLexed(ps, gaps, 1 + |lead|);
    LexIsWellFormed(TypedText(env, q, lead, gaps), 1);
    assert ps[0] in ps;
  }

  /** Main result: whatever query is typed, and however it is spaced, it is accepted; the search text is
      its free text, with no filter exactly if nothing else was typed; and it holds of an event exactly
      when the returned filter matches and the message has every lifted text. */
  lemma TypedQueryMeans(env: Env, q: Typed, lead: string, gaps: seq<string>, ev: Event)
    requires TypedOk(env, q) && Blank(lead) && Separated(TypedPieces(env, q), gaps)
    ensures var r := ParseText(env, TypedText(env, q, lead, gaps));
            r.Accepted? && r.search == Join(Lifted(q), " ") && (r.filter.None? <==> OnlyText(q)) &&
            (Holds(env, q, ev) <==>
             (r.filter.Some? ==> Match(env, r.filter.value, ev)) && forall v <- Lifted(q) :: InMessage(env, v, ev))
  {
    hide Lex, Disjunction, TypedPieces, TypedTree, Match, FinalFilter, TopFactors, Means, TypedOk, Holds, Lifted,
         OnlyText, TypedText, InMessage, Starts;
    TextIsLexed(env, q, lead, gaps);
    var toks := Lex(TypedText(env, q, lead, gaps), 1).toks;
    var n := |TypedPieces(env, q)|;
    TypedIsParsed(env, q, toks);
    BuiltParts(Disjunction(env, toks), TypedTree(env, q), toks, n);
    var root := TypedTree(env, q);
    assert toks[n..][0] == toks[n];
    FinalizeKeepsMeaning(env, root, ev);
    TypedMeans(env, q, ev);
    LiftedAtTop(env, q);
    forall v ensures MatchLeaf(env, TermLeaf(v), ev) <==> InMessage(env, v, ev) {
      WordMeans(env, v, ev);
      TermIsLeaf(env, v, ev);
    }
  }

  /** Nothing typed asks for nothing. */
  lemma NothingTyped(env: Env, s: string)
    requires Blank(s)
    ensures ParseText(env, s) == Accepted(None, "", [])
  {
    hide Lex, Blank;
    BlankIsSkipped(s, "", 1);
    NothingIsLexed(1 + |s|);
    assert s + "" == s;
  }

  /** What cannot go on with a query is refused where it stands, whatever follows. */
  lemma LeftoverIsRefused(env: Env, q: Typed, stop: Token, rest: seq<Token>, lead: string, gaps: seq<string>)
    requires TypedOk(env, q) && Closes(stop) && PieceOk(stop) && (forall p <- rest :: PieceOk(p)) && Blank(lead)
    requires Separated(TypedPieces(env, q) + ([stop] + rest), gaps)
    ensures var ps, n := TypedPieces(env, q) + ([stop] + rest), |TypedPieces(env, q)|;
            var col := Column(ps, gaps, 1 + |lead|, n);
            ParseText(env, lead + Written(ps, gaps)) == Rejected(col, Unexpected(Token(stop.kind, stop.text, col)))
  {
    hide Lex, Disjunction, TypedPieces, TypedTree, TypedOk, Closes, PieceOk, Starts, WellFormed, Written, Blank,
         Separated, Column;
    var front, back := TypedPieces(env, q), [stop] + rest;
    var ps, n := front + back, |front|;
    TypedPiecesOk(env, q);
    SeparatedLength(ps, gaps);
    BlankIsSkipped(lead, Written(ps, gaps), 1);
    SpellingIsLexed(ps, gaps, 1 + |lead|);
    LexIsWellFormed(lead + Written(ps, gaps), 1);
    var ts := Lex(lead + Written(ps, gaps), 1).toks;
    StartsSplit(ts, front, back);
    StartsHead(ts[n..], stop, rest);
    StartsWithKind(ts, front);
    ClosesAlike(ts[n], stop);
    TypedIsParsed(env, q, ts);
    BuiltParts(Disjunction(env, ts), TypedTree(env, q), ts, n);
    assert front[0] in front && ts[n..][0] == ts[n];
    NotTheEnd(front[0]);
  }

  lemma NotTheEnd(p: Token)
    requires PieceOk(p)
    ensures p.kind != EOF
  {
  }

  lemma ClosesAlike(t: Token, p: Token)
    requires t.kind == p.kind && t.text == p.text && Closes(p) && PieceOk(p)
    ensures Closes(t) && t.kind != EOF
  {
    SameToken(t, p);
  }

  lemma TermIsLeaf(env: Env, v: string, ev: Event)
    ensures Means(env, PTerm(v), ev) <==> MatchLeaf(env, TermLeaf(v), ev)
  {
  }
}

/** The recursive-descent parser: a cursor over a token list that it also rewrites in
    place, and a growing list of warnings. Every routine is proved to do what the grammar
    says, and in particular never to read past the end token. */
module Parser {
  import opened Text
  import opened Lexer
  import opened Grammar
  import opened Finalize
  import F = Filter

  datatype Outcome<+T> = Node(val: T) | Error(col: nat, msg: Msg)

  class Parser {
    const env: Env
    var toks: seq<Token>
    var pos: nat
    var warnings: seq<Warning>

    ghost predicate Valid()
      reads this
    {
      pos < |toks| && WellFormed(toks[pos..])
    }

    /** The tokens not yet read. */
    ghost function Left(): seq<Token>
      reads this
      requires Valid()
    {
      toks[pos..]
    }

    /** The state and result are those of a grammar routine started on ts with warnings ws. */
    ghost predicate Did<T>(r: Parsed<T>, out: Outcome<T>, length: nat, ws: seq<Warning>)
      reads this
    {
      Valid() && |toks| == length &&
      match r
      case Ok(n, rest, more) => out == Node(n) && Left() == rest && warnings == ws + more
      case Err(c, m) => out == Error(c, m)
    }

    constructor (env: Env, toks: seq<Token>)
      requires WellFormed(toks)
      ensures Valid() && this.env == env && Left() == toks && warnings == []
    {
      this.env := env;
      this.toks := toks;
      this.pos := 0;
      this.warnings := [];
      new;
      assert this.toks[0..] == toks;
    }

    method Peek() returns (t: Token)
      requires Valid()
      ensures t == Left()[0]
    {
      t := toks[pos];
    }

    method PeekNext() returns (t: Token)
      requires Valid()
      ensures t == if |Left()| > 1 then Left()[1] else Left()[0]
    {
      if pos + 1 >= |toks| {
        return toks[|toks| - 1];
      }
      t := toks[pos + 1];
    }

    method Advance() returns (t: Token)
      requires Valid() && Left()[0].kind != EOF
      modifies this`pos
      ensures Valid() && pos == old(pos) + 1 && t == old(Left()[0]) && Left() == Next(old(Left()))
    {
      t := toks[pos];
      ghost var rest := Next(Left());
      pos := pos + 1;
      assert toks[pos..] == rest;
    }

    method Warn(w: Warning)
      modifies this`warnings
      ensures warnings == old(warnings) + [w]
    {
      warnings := warnings + [w];
    }

    method ParseDisjunction() returns (r: Outcome<PNode>)
      requires Valid()
      modifies this
      ensures Did(Disjunction(env, old(Left())), r, |old(toks)|, old(warnings))
      decreases |Left()|, 6
    {
      hide Conjunction, MoreBranches, Disjoined, WellFormed, IsKeyword, ParserTree, Columns;
      ghost var start := Left();
      ghost var ws0 := warnings;
      ConjunctionIsSound(env, start);
      var left := ParseConjunction();
      if left.Error? {
        return left;
      }
      var branches := [left.val];
      ghost var goal := Disjunction(env, start);
      ghost var seen := Conjunction(env, start).warns;
      while true
        invariant Valid() && |toks| == |old(toks)| && |Left()| < |start|
        invariant branches != [] && (forall b <- branches :: ParserTree(b))
        invariant warnings == ws0 + seen
        invariant goal == Warned(seen, MoreBranches(env, branches, Left()))
        decreases |Left()|
      {
        var t := Peek();
        if !IsKeyword(t, "OR") {
          break;
        }
        OrIsNotEnd(t);
        ghost var here := Left();
        BranchStep(env, branches, here);
        var or := Advance();
        ConjunctionIsSound(env, Left());
        ghost var one := Conjunction(env, Left());
        var right := ParseConjunction();
        if right.Error? {
          return right;
        }
        WarnedTwice(seen, one.warns, MoreBranches(env, branches + [right.val], Left()));
        assert ws0 + seen + one.warns == ws0 + (seen + one.warns);
        seen := seen + one.warns;
        branches := branches + [right.val];
      }
      NoBranchStep(env, branches, Left());
      assert seen + [] == seen;
      r := Node(Disjoined(branches));
    }

    method ParseConjunction() returns (r: Outcome<PNode>)
      requires Valid()
      modifies this
      ensures Did(Conjunction(env, old(Left())), r, |old(toks)|, old(warnings))
      decreases |Left()|, 5
    {
      hide Factor, MoreFactors, Conjoined, WellFormed, IsKeyword, CanStartFactor, ParserTree, Columns;
      ghost var start := Left();
      ghost var ws0 := warnings;
      FactorIsSound(env, start);
      var left := ParseFactor();
      if left.Error? {
        return left;
      }
      var branches := [left.val];
      ghost var goal := Conjunction(env, start);
      ghost var seen := Factor(env, start).warns;
      while true
        invariant Valid() && |toks| == |old(toks)| && |Left()| < |start|
        invariant branches != [] && (forall b <- branches :: ParserTree(b))
        invariant warnings == ws0 + seen
        invariant goal == Warned(seen, MoreFactors(env, branches, Left()))
        decreases |Left()|
      {
        FactorStep(env, branches, Left());
        var t := Peek();
        if IsKeyword(t, "AND") {
          var and := Advance();
        } else if IsKeyword(t, "OR") {
          break;
        } else if !CanStartFactor(t) {
          break;
        }
        FactorIsSound(env, Left());
        ghost var one := Factor(env, Left());
        var right := ParseFactor();
        if right.Error? {
          return right;
        }
        WarnedTwice(seen, one.warns, MoreFactors(env, branches + [right.val], Left()));
        assert ws0 + seen + one.warns == ws0 + (seen + one.warns);
        seen := seen + one.warns;
        branches := branches + [right.val];
      }
      assert seen + [] == seen;
      r := Node(Conjoined(branches));
    }

    method ParseFactor() returns (r: Outcome<PNode>)
      requires Valid()
      modifies this
      ensures Did(Factor(env, old(Left())), r, |old(toks)|, old(warnings))
      decreases |Left()|, 4
    {
      hide Atom, Sound, Columns;
      var negated := false;
      var t := Peek();
      if IsKeyword(t, "NOT") {
        t := Advance();
        negated := true;
      } else if t.kind == IDENT && t.text[0] == '-' {
        var stripped := t.text[1..];
        negated := true;
        if stripped == "" {
          t := Advance();
        } else {
          ghost var after := Stripped(Left());
          toks := toks[pos := toks[pos].(text := stripped)];
          assert toks[pos..] == after;
        }
      }
      var atom := ParseAtom();
      if atom.Error? || !negated {
        return atom;
      }
      r := Node(PGroup(F.And, true, [atom.val], false));
    }

    method ParseAtom() returns (r: Outcome<PNode>)
      requires Valid()
      modifies this
      ensures Did(Atom(env, old(Left())), r, |old(toks)|, old(warnings))
      decreases |Left()|, 3
    {
      hide Disjunction, Sound, Columns;
      assert warnings + [] == warnings;
      var t := Peek();
      match t.kind {
        case LPAREN =>
          r := ParseParenthesis();
        case AT =>
          r := ParseAttributePredicate();
        case IDENT =>
          r := ParseIdentAtom();
        case STRING =>
          t := Advance();
          return Node(PTerm(t.text));
        case _ =>
          return Error(t.col, Unexpected(t));
      }
    }

    method ParseParenthesis() returns (r: Outcome<PNode>)
      requires Valid() && Left()[0].kind == LPAREN
      modifies this
      ensures Did(Atom(env, old(Left())), r, |old(toks)|, old(warnings))
      decreases |Left()|, 2
    {
      hide Disjunction, Sound, Columns;
      var t := Advance();
      var node := ParseDisjunction();
      if node.Error? {
        return node;
      }
      t := Peek();
      if t.kind != RPAREN {
        return Error(t.col, ExpectedRParen);
      }
      t := Advance();
      return node;
    }

    method ParseIdentAtom() returns (r: Outcome<PNode>)
      requires Valid() && Left()[0].kind == IDENT
      modifies this
      ensures Did(IdentAtom(env, old(Left())), r, |old(toks)|, old(warnings))
      decreases |Left()|, 2
    {
      hide RightHandSide, Sound, Columns, WellFormed, IsCoreField;
      assert warnings + [] == warnings;
      var t := Peek();
      var next := PeekNext();
      if next.kind == COLON {
        var field := t.text;
        IdentHasText(Left());
        ghost var ws0 := warnings;
        if !IsCoreField(field) {
          Warn(BareField(t.col, field));
        }
        ghost var ws1 := warnings;
        assert ws1 == ws0 + ws1[|ws0|..];
        t := Advance();
        t := Advance();
        ghost var rhs := RightHandSide(env, field, Left());
        r := ParsePredicateRHS(field);
        if rhs.Ok? {
          assert ws0 + (ws1[|ws0|..] + rhs.warns) == ws1 + rhs.warns;
        }
        return;
      }
      t := Advance();
      return Node(PTerm(t.text));
    }

    method ParseAttributePredicate() returns (r: Outcome<PNode>)
      requires Valid() && Left()[0].kind == AT
      modifies this
      ensures Did(AttributePredicate(env, old(Left())), r, |old(toks)|, old(warnings))
      decreases |Left()|, 2
    {
      hide RightHandSide, Sound, Columns, WellFormed, IsCoreField;
      assert warnings + [] == warnings;
      var at := Advance();
      var t := Peek();
      if t.kind != IDENT {
        return Error(at.col, ExpectedPath);
      }
      t := Advance();
      var field := F.ATTRIBUTE_PREFIX + t.text;
      t := Peek();
      if t.kind != COLON {
        return Node(PLeaf(MakeLeaf(field, F.Exists, F.Null)));
      }
      t := Advance();
      r := ParsePredicateRHS(field);
    }

    method ParsePredicateRHS(field: string) returns (r: Outcome<PNode>)
      requires Valid() && field != ""
      modifies this
      ensures Did(RightHandSide(env, field, old(Left())), r, |old(toks)|, old(warnings))
    {
      hide Range, ValueList, Sound, Columns;
      var t := Peek();
      match t.kind {
        case GT => t := Advance(); r := ParseComparison(field, F.Gt);
        case GTE => t := Advance(); r := ParseComparison(field, F.Gte);
        case LT => t := Advance(); r := ParseComparison(field, F.Lt);
        case LTE => t := Advance(); r := ParseComparison(field, F.Lte);
        case LBRACKET => r := ParseRange(field, true);
        case LBRACE => r := ParseRange(field, false);
        case LPAREN => r := ParseValueList(field);
        case IDENT | STRING =>
          ghost var ws0 := warnings;
          var v := ParseScalar();
          assert warnings == ws0;
          var (leaf, warns) := ValueLeaf(env, field, v.val);
          warnings := warnings + warns;
          r := Node(leaf);
        case _ => r := Error(t.col, ExpectedValueAfterColon);
      }
    }

    method ParseComparison(field: string, op: F.Op) returns (r: Outcome<PNode>)
      requires Valid() && field != "" && F.IsRangeOp(op)
      modifies this
      ensures Did(Comparison(env, field, op, old(Left())), r, |old(toks)|, old(warnings))
    {
      hide Sound, Columns;
      var v := ParseScalar();
      if v.Error? {
        return Error(v.col, v.msg);
      }
      r := Node(PLeaf(MakeLeaf(field, op, CoerceValue(env, v.val))));
    }

    method ParseScalar() returns (r: Outcome<Scalar>)
      requires Valid()
      modifies this`pos
      ensures Did(ScalarAt(old(Left())), r, |old(toks)|, old(warnings))
    {
      hide Columns;
      assert warnings + [] == warnings;
      var t := Peek();
      if t.kind == STRING || t.kind == IDENT {
        t := Advance();
        return Node(Scalar(t.text, t.kind == STRING, t.col));
      }
      r := Error(t.col, ExpectedValue);
    }

    /** An optional end of a range. */
    method ParseBound() returns (b: Option<Scalar>)
      requires Valid()
      modifies this`pos
      ensures Valid() && |toks| == |old(toks)| && (b, Left()) == Bound(old(Left()))
    {
      hide Columns;
      b := None;
      var t := Peek();
      if t.kind == IDENT || t.kind == STRING {
        var v := ParseScalar();
        b := Some(v.val);
      }
    }

    method ParseRange(field: string, inclusive: bool) returns (r: Outcome<PNode>)
      requires Valid() && field != "" && Left()[0].kind == (if inclusive then LBRACKET else LBRACE)
      modifies this`pos
      ensures Did(Range(env, field, inclusive, old(Left())), r, |old(toks)|, old(warnings))
    {
      hide Sound, Columns, Bound, RangeTree, WellFormed;
      assert warnings + [] == warnings;
      var t := Advance();
      var close := if inclusive then RBRACKET else RBRACE;
      var lo := ParseBound();
      t := Peek();
      if !IsKeyword(t, "TO") {
        return Error(t.col, ExpectedTo);
      }
      t := Advance();
      var hi := ParseBound();
      t := Peek();
      if t.kind != close {
        return Error(t.col, ExpectedClosing(close));
      }
      t := Advance();
      r := Node(RangeTree(env, field, inclusive, lo, hi));
    }

    method ParseValueList(field: string) returns (r: Outcome<PNode>)
      requires Valid() && field != "" && Left()[0].kind == LPAREN
      modifies this`pos
      ensures Did(ValueList(env, field, old(Left())), r, |old(toks)|, old(warnings))
    {
      hide Sound, Columns, ListValues, ListLeaf, CoerceValue, WellFormed;
      var t := Advance();
      ghost var start := Left();
      var values: seq<F.Value> := [];
      ListAfterNothing(ListValues(env, start));
      while true
        invariant Valid() && |toks| == |old(toks)|
        invariant ListValues(env, start) == ListAfter(values, ListValues(env, Left()))
        decreases |Left()|
      {
        ListStep(env, Left());
        t := Peek();
        if t.kind != IDENT && t.kind != STRING {
          return Error(t.col, ExpectedListValue);
        }
        var v := ParseScalar();
        var one := CoerceValue(env, v.val);
        t := Peek();
        if t.kind == COMMA || IsKeyword(t, "OR") {
          t := Advance();
          ListAfterTwice(values, one, ListValues(env, Left()));
          values := values + [one];
          continue;
        }
        values := values + [one];
        break;
      }
      assert ListValues(env, start) == Ok(values, Left(), []);
      assert warnings + [] == warnings;
      t := Peek();
      if t.kind != RPAREN {
        return Error(t.col, ExpectedRParen);
      }
      t := Advance();
      r := Node(ListLeaf(field, values));
    }

    /** Lifts the top-level free text out of the parsed tree, warning for every term that
        had to stay inside it. */
    method FinalizeTree(root: PNode) returns (filter: Option<F.Node>, search: string)
      modifies this`warnings
      ensures (filter, search) == (FinalFilter(root), FinalSearch(root))
      ensures warnings == old(warnings) + TermWarnings(KeptFactors(TopFactors(root)))
    {
      hide TopFactors, TopTerms, KeptFactors, Join;
      var terms, keep := SplitTerms(TopFactors(root));
      warnings := warnings + TermWarnings(keep);
      search := Join(terms, " ");
      filter := if keep == [] then None else Some(F.Group(F.And, false, CompileNodes(ConvertAll(keep))));
    }
  }

  method SplitTerms(top: seq<PNode>) returns (terms: seq<string>, keep: seq<PNode>)
    ensures terms == TopTerms(top) && keep == KeptFactors(top)
  {
    terms, keep := [], [];
    assert top[0..] == top;
    for i := 0 to |top|
      invariant TopTerms(top) == terms + TopTerms(top[i..])
      invariant KeptFactors(top) == keep + KeptFactors(top[i..])
    {
      assert top[i..][1..] == top[i + 1..];
      if top[i].PTerm? {
        terms := terms + [top[i].value];
      } else {
        keep := keep + [top[i]];
      }
    }
    assert terms + [] == terms && keep + [] == keep && top[|top|..] == [];
  }

  /** Parse a search-bar string. */
  method Parse(env: Env, input: string) returns (r: ParseResult)
    ensures r == ParseText(env, input)
  {
    hide Disjunction, Lex;
    var lexed := Tokenize(input);
    LexIsWellFormed(input, 1);
    match lexed {
      case LexError(col, msg) => return Rejected(col, Lexical(msg));
      case Tokens(toks) =>
        var p := new Parser(env, toks);
        var t := p.Peek();
        if t.kind == EOF {
          return Accepted(None, "", []);
        }
        var root := p.ParseDisjunction();
        if root.Error? {
          return Rejected(root.col, root.msg);
        }
        t := p.Peek();
        if t.kind != EOF {
          return Rejected(t.col, Unexpected(t));
        }
        ghost var ws := p.warnings;
        ghost var spec := Disjunction(env, toks);
        assert [] + spec.warns == spec.warns;
        var filter, search := p.FinalizeTree(root.val);
        r := Accepted(filter, search, p.warnings);
    }
  }

  // ------------------------------------------------------------ loop bookkeeping

  lemma WarnedTwice(a: seq<Warning>, b: seq<Warning>, r: Parsed<PNode>)
    ensures Warned(a, Warned(b, r)) == Warned(a + b, r)
  {
    if r.Ok? {
      assert a + (b + r.warns) == a + b + r.warns;
    }
  }

  lemma ConjunctionIsSound(env: Env, ts: seq<Token>)
    requires WellFormed(ts)
    ensures var r := Conjunction(env, ts); r.Ok? ==> ParserTree(r.val) && WellFormed(r.rest) && |r.rest| < |ts|
  {
    hide Conjunction;
  }

  lemma FactorIsSound(env: Env, ts: seq<Token>)
    requires WellFormed(ts)
    ensures var r := Factor(env, ts); r.Ok? ==> ParserTree(r.val) && WellFormed(r.rest) && |r.rest| < |ts|
  {
    hide Factor;
  }

  lemma IdentHasText(ts: seq<Token>)
    requires WellFormed(ts) && ts[0].kind == IDENT
    ensures ts[0].text != ""
  {
  }

  lemma OrIsNotEnd(t: Token)
    requires IsKeyword(t, "OR")
    ensures t.kind != EOF
  {
  }

  lemma BranchStep(env: Env, branches: seq<PNode>, ts: seq<Token>)
    requires WellFormed(ts) && branches != [] && (forall b <- branches :: ParserTree(b)) && IsKeyword(ts[0], "OR")
    ensures Conjunction(env, Next(ts)).Ok? ==>
              ParserTree(Conjunction(env, Next(ts)).val) && WellFormed(Conjunction(env, Next(ts)).rest)
    ensures var r := Conjunction(env, Next(ts));
            MoreBranches(env, branches, ts) == if r.Err? then r
            else Warned(r.warns, MoreBranches(env, branches + [r.val], r.rest))
  {
    hide Conjunction;
  }

  lemma NoBranchStep(env: Env, branches: seq<PNode>, ts: seq<Token>)
    requires WellFormed(ts) && branches != [] && (forall b <- branches :: ParserTree(b)) && !IsKeyword(ts[0], "OR")
    ensures MoreBranches(env, branches, ts) == Ok(Disjoined(branches), ts, [])
  {
    hide Conjunction;
  }

  /** What the conjunction loop does next, as the grammar has it. */
  lemma FactorStep(env: Env, branches: seq<PNode>, ts: seq<Token>)
    requires WellFormed(ts) && branches != [] && (forall b <- branches :: ParserTree(b))
    ensures IsKeyword(ts[0], "AND") || CanStartFactor(ts[0]) ==> ts[0].kind != EOF
    ensures IsKeyword(ts[0], "AND") || (!IsKeyword(ts[0], "OR") && CanStartFactor(ts[0])) ==>
            var from := if IsKeyword(ts[0], "AND") then Next(ts) else ts;
            var r := Factor(env, from);
            (r.Ok? ==> ParserTree(r.val) && WellFormed(r.rest)) &&
            MoreFactors(env, branches, ts) == if r.Err? then r
            else Warned(r.warns, MoreFactors(env, branches + [r.val], r.rest))
    ensures !(IsKeyword(ts[0], "AND") || (!IsKeyword(ts[0], "OR") && CanStartFactor(ts[0]))) ==>
            MoreFactors(env, branches, ts) == Ok(Conjoined(branches), ts, [])
  {
    hide Factor;
  }

  lemma ListStep(env: Env, ts: seq<Token>)
    requires WellFormed(ts)
    ensures ts[0].kind != IDENT && ts[0].kind != STRING ==> ListValues(env, ts) == Err(ts[0].col, ExpectedListValue)
    ensures ts[0].kind == IDENT || ts[0].kind == STRING ==>
            var rest := Next(ts);
            var one := CoerceValue(env, ScalarAt(ts).val);
            ScalarAt(ts).rest == rest &&
            ListValues(env, ts) ==
              if rest[0].kind == COMMA || IsKeyword(rest[0], "OR") then ListAfter([one], ListValues(env, Next(rest)))
              else Ok([one], rest, [])
  {
  }

  ghost function ListAfter(vs: seq<F.Value>, r: Parsed<seq<F.Value>>): Parsed<seq<F.Value>> {
    match r case Ok(more, rest, ws) => Ok(vs + more, rest, ws) case Err(_, _) => r
  }

  lemma ListAfterNothing(r: Parsed<seq<F.Value>>)
    ensures ListAfter([], r) == r
  {
    if r.Ok? {
      assert [] + r.val == r.val;
    }
  }

  lemma ListAfterTwice(vs: seq<F.Value>, v: F.Value, r: Parsed<seq<F.Value>>)
    ensures ListAfter(vs, ListAfter([v], r)) == ListAfter(vs + [v], r)
  {
    if r.Ok? {
      assert vs + ([v] + r.val) == vs + [v] + r.val;
    }
  }
}

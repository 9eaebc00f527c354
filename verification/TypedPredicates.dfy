/** The predicates of the search bar as they are typed, each read back as the condition it stands
    for: values, wildcards, comparisons, lists and ranges. */
module TypedPredicates {
  import opened Text
  import opened Lexer
  import opened Spelling
  import opened Grammar
  import opened Events
  import opened Matcher
  import opened ParserProperties
  import Compiler
  import F = Filter

  // -------------------------------------------------------------------- written form

  predicate PlainIdent(s: string) {
    IsIdent(s) && !HasWildcard(s)
  }

  /** A word that is neither a keyword nor begins with a dash; after a sign any word will do. */
  predicate PlainWord(w: string) {
    IsIdent(w) && w[0] != '-' && forall k <- ["AND", "OR", "NOT", "TO"] :: !IsKeyword(Word(w), k)
  }

  /** An attribute is typed by its path, any other field by its name. */
  predicate FieldOk(field: string) {
    if F.IsAttr(field) then IsIdent(F.AttrPath(field)) else PlainWord(field)
  }

  /** Every stored column can be typed. */
  lemma ColumnsCanBeTyped(field: string)
    requires F.IsCore(field)
    ensures FieldOk(field) && !F.IsAttr(field)
  {
    var t := Word(field);
    assert F.ATTRIBUTE_PREFIX[0] == 'a';
    assert UpperByte('s') == 'S' && UpperByte('l') == 'L' && UpperByte('h') == 'H' && UpperByte('m') == 'M';
    assert UpperByte('r') == 'R' && UpperByte('t') == 'T';
    assert field in {"timestamp", "service", "level", "message", "host", "source", "raw"};
    forall k | k in ["AND", "OR", "NOT", "TO"] ensures !IsKeyword(t, k) {
      assert "AND"[0] == 'A' && "NOT"[0] == 'N';
    }
  }

  /** How a predicate is typed: which texts without quotes, and with which word in any letter case in
      place of the commas of a list. */
  datatype Style = Style(bare: set<string>, or: Option<string>)

  /** Not a numeral: something besides digits, but for a sign in front. */
  predicate NotDigits(s: string) {
    exists i :: 0 <= i < |s| && !('0' <= s[i] <= '9') && (i > 0 || s[0] !in "+-")
  }

  /** Texts, quoted or, where they could not be taken for numbers, bare; 64-bit integers; and the numbers
      whose printed form is a word that reads as them. */
  predicate Writable(env: Env, st: Style, v: F.Value) {
    match v
    case Str(s) => s in st.bare ==> PlainIdent(s) && NotDigits(s) && env.num(s).None?
    case Int(n) => -INT64_MAX - 1 <= n <= INT64_MAX
    case Real(r) =>
      var w := env.showReal(r);
      PlainIdent(w) && NotDigits(w) && env.num(w) == Some(r)
    case _ => false
  }

  predicate SeparatorOk(st: Style) {
    st.or.Some? ==> IsKeyword(Word(st.or.value), "OR")
  }

  function ValuePiece(env: Env, st: Style, v: F.Value): Token
    requires Writable(env, st, v)
  {
    match v
    case Str(s) => if s in st.bare then Word(s) else Piece(STRING, s)
    case Int(n) => Word(ShowInt(n))
    case Real(r) => Word(env.showReal(r))
  }

  function Separator(st: Style): Token {
    if st.or.Some? then Word(st.or.value) else Piece(COMMA, "")
  }

  /** The conditions that can be typed as one predicate. */
  predicate LeafOk(env: Env, st: Style, l: F.Leaf) {
    FieldOk(l.field) && !l.caseSensitive &&
    match l.op
    case Exists => l.value == F.Null
    case Eq | Gt | Gte | Lt | Lte => Writable(env, st, l.value)
    case In =>
      SeparatorOk(st) && l.value.List? && l.value.items != [] && forall v <- l.value.items :: Writable(env, st, v)
    case StartsWith => l.value.Str? && PlainIdent(l.value.s)
    case Contains => l.value.Str? && (l.value.s == "" || PlainIdent(l.value.s))
    case _ => false
  }

  function FieldPieces(field: string): seq<Token> {
    if F.IsAttr(field) then [Piece(AT, ""), Word(F.AttrPath(field))] else [Word(field)]
  }

  function ListPieces(env: Env, st: Style, vs: seq<F.Value>): seq<Token>
    requires vs != [] && forall v <- vs :: Writable(env, st, v)
  {
    assert vs[0] in vs;
    if |vs| == 1 then [ValuePiece(env, st, vs[0])]
    else [ValuePiece(env, st, vs[0]), Separator(st)] + ListPieces(env, st, vs[1..])
  }

  function RangePiece(op: F.Op): Token {
    match op
    case Gt => Piece(GT, "")
    case Gte => Piece(GTE, "")
    case Lt => Piece(LT, "")
    case _ => Piece(LTE, "")
  }

  function Enclosed(ps: seq<Token>): seq<Token> {
    [Piece(LPAREN, "")] + ps + [Piece(RPAREN, "")]
  }

  /** What follows the colon. */
  function ValuePieces(env: Env, st: Style, l: F.Leaf): seq<Token>
    requires LeafOk(env, st, l)
  {
    match l.op
    case Exists => [Word("*")]
    case Eq => [ValuePiece(env, st, l.value)]
    case In => [Piece(LPAREN, "")] + ListPieces(env, st, l.value.items) + [Piece(RPAREN, "")]
    case StartsWith => [Word(l.value.s + "*")]
    case Contains => [Word("*" + l.value.s + "*")]
    case Gt | Gte | Lt | Lte => [RangePiece(l.op), ValuePiece(env, st, l.value)]
  }

  function Positive(env: Env, st: Style, l: F.Leaf): seq<Token>
    requires LeafOk(env, st, l)
  {
    FieldPieces(l.field) + ([Piece(COLON, "")] + ValuePieces(env, st, l))
  }

  // -------------------------------------------------------------------- reading back

  lemma EnclosedPieces(ts: seq<Token>, ps: seq<Token>)
    requires Starts(ts, Enclosed(ps)) && |ts| > |Enclosed(ps)| && WellFormed(ts)
    ensures ts[0].kind == LPAREN && Starts(ts[1..], ps) && ts[|ps| + 1].kind == RPAREN && |ts| > |ps| + 2 &&
            WellFormed(ts[1..])
  {
    StartsSplit(ts, [Piece(LPAREN, "")] + ps, [Piece(RPAREN, "")]);
    StartsSplit(ts, [Piece(LPAREN, "")], ps);
    assert ts[|ps| + 1..][0].kind == RPAREN;
    assert ts[0].kind == [Piece(LPAREN, "")][0].kind;
    SuffixWellFormed(ts, 1);
  }

  /** What the parser makes of a predicate: a list of one is an equality. */
  function LeafTree(env: Env, st: Style, l: F.Leaf): PNode
    requires LeafOk(env, st, l)
  {
    match l.op
    case In =>
      if |l.value.items| == 1 then PLeaf(F.Leaf.Leaf(l.field, F.Eq, l.value.items[0], false)) else PLeaf(l)
    case _ => PLeaf(l)
  }

  /** The routine read exactly the first n tokens and built the tree t. */
  predicate Built(r: Parsed<PNode>, t: PNode, ts: seq<Token>, n: nat)
    requires n <= |ts|
  {
    r.Ok? && r.val == t && r.rest == ts[n..]
  }

  predicate IsValue(t: Token) {
    t.kind == IDENT || t.kind == STRING
  }

  function ScalarOf(t: Token): Scalar {
    Scalar(t.text, t.kind == STRING, t.col)
  }

  lemma {:induction false} DigitsRead(n: nat)
    ensures IsDigits(Digits(n)) && DigitsValue(Digits(n)) == n
  {
    if n < 10 {
      var d := [(n as char) + '0'];
      assert d[..0] == "" && DigitsValue(d) == DigitsValue("") * 10 + n;
    } else {
      DigitsRead(n / 10);
      assert Digits(n)[..|Digits(n)| - 1] == Digits(n / 10);
    }
  }

  /** A printed integer is a word that reads back. */
  lemma IntReadsBack(n: int)
    requires -INT64_MAX - 1 <= n <= INT64_MAX
    ensures ParseInt(ShowInt(n)) == Some(n) && PlainIdent(ShowInt(n))
  {
    hide Digits, DigitsValue;
    DigitsRead(if n < 0 then -n else n);
    if n < 0 {
      assert ShowInt(n)[1..] == Digits(-n);
    }
  }

  /** Digits with or without a sign are read as the integer they stand for if it fits in 64 bits, and as
      a number, if anything, otherwise. */
  lemma NumeralIsRead(env: Env, sign: string, d: string, col: nat)
    requires sign in ["", "+", "-"] && IsDigits(d)
    ensures var n := if sign == "-" then -DigitsValue(d) else DigitsValue(d);
            CoerceValue(env, Scalar(sign + d, false, col)) ==
            if -0x8000_0000_0000_0000 <= n <= 0x7FFF_FFFF_FFFF_FFFF then F.Int(n)
            else if env.num(sign + d).Some? then F.Real(env.num(sign + d).value)
            else F.Str(sign + d)
  {
    hide DigitsValue;
    var s := sign + d;
    if sign == "" {
      assert s == d;
    } else {
      assert s[0] == sign[0] && s[1..] == d;
    }
  }

  lemma {:induction false} ZeroInFront(d: string)
    ensures DigitsValue("0" + d) == DigitsValue(d)
  {
    var s := "0" + d;
    if d == "" {
      assert s[..0] == "";
    } else {
      ZeroInFront(d[..|d| - 1]);
      assert s[..|s| - 1] == "0" + d[..|d| - 1];
    }
  }

  lemma NoNumeral(s: string)
    requires NotDigits(s)
    ensures ParseInt(s).None?
  {
    var i :| 0 <= i < |s| && !('0' <= s[i] <= '9') && (i > 0 || s[0] !in "+-");
    if i > 0 {
      assert s[1..][i - 1] == s[i];
    } else {
      assert "+-"[0] == '+' && "+-"[1] == '-';
    }
  }

  /** A written value is read as that value. */
  lemma PieceIsCoerced(env: Env, st: Style, v: F.Value, t: Token)
    requires Writable(env, st, v) && t.kind == ValuePiece(env, st, v).kind && t.text == ValuePiece(env, st, v).text
    ensures IsValue(t) && CoerceValue(env, ScalarOf(t)) == v
    ensures t.kind == IDENT ==> PlainIdent(t.text)
    ensures t.kind == STRING ==> v.Str?
  {
    hide ParseInt, ShowInt, NotDigits;
    match v {
      case Str(s) => if s in st.bare {
          NoNumeral(s);
        }
      case Int(n) => IntReadsBack(n);
      case Real(r) => NoNumeral(env.showReal(r));
    }
  }

  /** A value followed by the closing parenthesis ends a list. */
  lemma LastValueIsRead(env: Env, ts: seq<Token>)
    requires WellFormed(ts) && |ts| > 1 && IsValue(ts[0]) && ts[1].kind == RPAREN
    ensures ListValues(env, ts) == Ok([CoerceValue(env, ScalarOf(ts[0]))], ts[1..], [])
  {
    hide CoerceValue, Columns, WellFormed;
    assert ts[1..][0] == ts[1];
    SuffixWellFormed(ts, 1);
  }

  /** A value followed by a comma or OR continues with the rest of the list. */
  lemma NextValueIsRead(env: Env, ts: seq<Token>, vs: seq<F.Value>, rest: seq<Token>)
    requires WellFormed(ts) && |ts| > 2 && IsValue(ts[0]) && (ts[1].kind == COMMA || IsKeyword(ts[1], "OR"))
    requires WellFormed(ts[2..]) && ListValues(env, ts[2..]) == Ok(vs, rest, [])
    ensures ListValues(env, ts) == Ok([CoerceValue(env, ScalarOf(ts[0]))] + vs, rest, [])
  {
    hide CoerceValue, Columns, WellFormed;
    assert ts[1..][0] == ts[1] && ts[1..][1..] == ts[2..];
    SuffixWellFormed(ts, 1);
  }

  lemma FirstOfList(env: Env, st: Style, vs: seq<F.Value>, ts: seq<Token>)
    requires SeparatorOk(st) && vs != [] && forall v <- vs :: Writable(env, st, v)
    requires Starts(ts, ListPieces(env, st, vs))
    ensures vs[0] in vs && ts != [] && ts[0].kind == ValuePiece(env, st, vs[0]).kind &&
            ts[0].text == ValuePiece(env, st, vs[0]).text
    ensures |vs| == 1 ==> |ListPieces(env, st, vs)| == 1
  {
    hide ValuePiece, Writable, SeparatorOk, Separator;
    var ps := ListPieces(env, st, vs);
    assert ts[0].kind == ps[0].kind && ts[0].text == ps[0].text;
  }

  lemma RestOfList(env: Env, st: Style, vs: seq<F.Value>, ts: seq<Token>)
    requires SeparatorOk(st) && |vs| > 1 && forall v <- vs :: Writable(env, st, v)
    requires Starts(ts, ListPieces(env, st, vs)) && |ts| > |ListPieces(env, st, vs)| && WellFormed(ts)
    ensures ts[1].kind == COMMA || IsKeyword(ts[1], "OR")
    ensures var n := |ListPieces(env, st, vs)|;
            |ListPieces(env, st, vs[1..])| == n - 2 && Starts(ts[2..], ListPieces(env, st, vs[1..])) &&
            WellFormed(ts[2..]) && ts[2..][n - 2] == ts[n] && ts[2..][n - 2..] == ts[n..]
  {
    hide ValuePiece, Writable, WellFormed, IsKeyword;
    var ps := ListPieces(env, st, vs);
    assert vs[0] in vs;
    assert ts[1].kind == ps[1].kind && ts[1].text == ps[1].text;
    SeparatorSeparates(st, ts[1]);
    StartsSplit(ts, [ValuePiece(env, st, vs[0]), Separator(st)], ListPieces(env, st, vs[1..]));
    SuffixWellFormed(ts, 2);
  }

  lemma SeparatorSeparates(st: Style, t: Token)
    requires SeparatorOk(st) && t.kind == Separator(st).kind && t.text == Separator(st).text
    ensures t.kind == COMMA || IsKeyword(t, "OR")
  {
  }

  lemma {:induction false} ListIsParsed(env: Env, st: Style, vs: seq<F.Value>, ts: seq<Token>)
    requires SeparatorOk(st) && vs != [] && forall v <- vs :: Writable(env, st, v)
    requires WellFormed(ts) && Starts(ts, ListPieces(env, st, vs)) && |ts| > |ListPieces(env, st, vs)| &&
             ts[|ListPieces(env, st, vs)|].kind == RPAREN
    ensures ListValues(env, ts) == Ok(vs, ts[|ListPieces(env, st, vs)|..], [])
  {
    hide CoerceValue, Columns, WellFormed, ListValues, ValuePiece, ListPieces, Starts, Writable, ScalarOf, SeparatorOk,
         IsKeyword;
    FirstOfList(env, st, vs, ts);
    PieceIsCoerced(env, st, vs[0], ts[0]);
    if |vs| == 1 {
      assert vs == [vs[0]];
      LastValueIsRead(env, ts);
    } else {
      RestOfList(env, st, vs, ts);
      ListIsParsed(env, st, vs[1..], ts[2..]);
      NextValueIsRead(env, ts, vs[1..], ts[|ListPieces(env, st, vs)|..]);
      assert [vs[0]] + vs[1..] == vs;
    }
  }

  lemma {:induction false} StarsVanish(s: string, c: char)
    requires c !in s
    ensures ReplaceAll(s, c, "") == s
  {
    if s != "" {
      assert s[0] in s;
      StarsVanish(s[1..], c);
      assert [s[0]] + s[1..] == s;
    }
  }

  lemma ContainsLeafBuilt(env: Env, field: string, v: string, col: nat)
    requires field != "" && (v == "" || PlainIdent(v))
    ensures ValueLeaf(env, field, Scalar("*" + v + "*", false, col)).0 == PLeaf(MakeLeaf(field, F.Contains, F.Str(v)))
  {
    hide ReplaceAll;
    var text := "*" + v + "*";
    assert text[0] == '*' && text[..|text| - 1] == "*" + v && ("*" + v)[0] == '*';
    StarsAroundVanish(v);
    StarsVanish(v, '?');
  }

  lemma StarsAroundVanish(v: string)
    requires '*' !in v
    ensures ReplaceAll("*" + v + "*", '*', "") == v
  {
    ReplaceAllConcat("*" + v, "*", '*', "");
    ReplaceAllConcat("*", v, '*', "");
    assert ReplaceAll("*", '*', "") == "" by {
      assert "*"[1..] == "";
    }
    StarsVanish(v, '*');
    assert "" + v + "" == v;
  }

  lemma PrefixLeafBuilt(env: Env, field: string, v: string, col: nat)
    requires field != "" && PlainIdent(v)
    ensures ValueLeaf(env, field, Scalar(v + "*", false, col)).0 == PLeaf(MakeLeaf(field, F.StartsWith, F.Str(v)))
  {
    var text := v + "*";
    assert text[..|text| - 1] == v && text[|text| - 1] == '*' && |text| > 1;
  }

  // Wildcards elsewhere than at the end.

  predicate IsWildcard(c: char) {
    c == '*' || c == '?'
  }

  /** A word with wildcards that is more than a prefix and a star. */
  predicate Wildcards(w: string) {
    exists i :: 0 <= i < |w| && IsWildcard(w[i]) && (w[i] == '?' || i + 1 < |w|)
  }

  /** What is left of a word without its wildcards. */
  function Literal(w: string): string {
    if w == "" then "" else (if IsWildcard(w[0]) then "" else [w[0]]) + Literal(w[1..])
  }

  lemma {:induction false} WildcardsVanish(w: string)
    ensures ReplaceAll(ReplaceAll(w, '*', ""), '?', "") == Literal(w)
  {
    if w != "" {
      WildcardsVanish(w[1..]);
      var rest := ReplaceAll(w[1..], '*', "");
      if w[0] == '*' {
        assert ReplaceAll(w, '*', "") == rest;
      } else {
        assert ReplaceAll(w, '*', "") == [w[0]] + rest && ([w[0]] + rest)[1..] == rest;
      }
    }
  }

  lemma WildLeafBuilt(env: Env, field: string, w: string, col: nat)
    requires field != "" && Wildcards(w)
    ensures ValueLeaf(env, field, Scalar(w, false, col)).0 == PLeaf(MakeLeaf(field, F.Contains, F.Str(Literal(w))))
  {
    hide ReplaceAll;
    WildcardsVanish(w);
    var i :| 0 <= i < |w| && IsWildcard(w[i]) && (w[i] == '?' || i + 1 < |w|);
    var prefix := w[..|w| - 1];
    assert w[i] in w;
    assert i + 1 < |w| ==> prefix[i] == w[i] && prefix[i] in prefix;
  }

  lemma WildIsParsed(env: Env, field: string, w: string, ts: seq<Token>)
    requires FieldOk(field) && field != "" && Wildcards(w) && WellFormed(ts)
    requires var ps := FieldPieces(field) + ([Piece(COLON, "")] + [Word(w)]); Starts(ts, ps) && |ts| > |ps|
    ensures Built(Atom(env, ts), PLeaf(MakeLeaf(field, F.Contains, F.Str(Literal(w)))), ts, |FieldPieces(field)| + 2)
  {
    hide RightHandSide, Sound, Columns, Disjunction, Atom, Starts, WellFormed, Built, FieldPieces;
    var fp := FieldPieces(field);
    assert fp + ([Piece(COLON, "")] + [Word(w)]) == (fp + [Piece(COLON, "")]) + [Word(w)];
    StartsSplit(ts, fp + [Piece(COLON, "")], [Word(w)]);
    SuffixWellFormed(ts, |fp| + 1);
    WordIsRead(env, field, w, ts[|fp| + 1..]);
    FieldIsParsed(env, field, ts, PLeaf(MakeLeaf(field, F.Contains, F.Str(Literal(w)))), 1);
  }

  lemma WordIsRead(env: Env, field: string, w: string, ts: seq<Token>)
    requires field != "" && Wildcards(w) && WellFormed(ts) && Starts(ts, [Word(w)]) && |ts| > 1
    ensures Built(RightHandSide(env, field, ts), PLeaf(MakeLeaf(field, F.Contains, F.Str(Literal(w)))), ts, 1)
  {
    hide Range, ValueList, Comparison, ValueLeaf, Sound, Columns, Wildcards, Literal;
    assert ts[0].kind == [Word(w)][0].kind && ts[0].text == [Word(w)][0].text;
    WildLeafBuilt(env, field, w, ts[0].col);
  }

  lemma ValueListIsParsed(env: Env, st: Style, field: string, vs: seq<F.Value>, ts: seq<Token>)
    requires SeparatorOk(st) && field != "" && vs != [] && forall v <- vs :: Writable(env, st, v)
    requires WellFormed(ts) && Starts(ts, Enclosed(ListPieces(env, st, vs))) && |ts| > |ListPieces(env, st, vs)| + 2
    ensures ts[0].kind == LPAREN &&
            Built(ValueList(env, field, ts), ListLeaf(field, vs), ts, |ListPieces(env, st, vs)| + 2)
  {
    hide ListValues, ListPieces, ListLeaf, Columns, WellFormed, Starts;
    var n := |ListPieces(env, st, vs)|;
    EnclosedPieces(ts, ListPieces(env, st, vs));
    assert ts[1..][n] == ts[n + 1];
    ListIsParsed(env, st, vs, ts[1..]);
    assert ts[1..][n..] == ts[n + 1..] && ts[n + 1..][0] == ts[n + 1] && ts[n + 1..][1..] == ts[n + 2..];
  }

  lemma ListLeafIsParsed(env: Env, st: Style, l: F.Leaf, ts: seq<Token>)
    requires LeafOk(env, st, l) && l.field != "" && l.op == F.In
    requires WellFormed(ts) && Starts(ts, ValuePieces(env, st, l)) && |ts| > |ValuePieces(env, st, l)|
    ensures Built(RightHandSide(env, l.field, ts), LeafTree(env, st, l), ts, |ValuePieces(env, st, l)|)
  {
    hide ListPieces, Sound, Columns, WellFormed, RightHandSide, ValueList, Starts, ListLeaf, LeafTree, Built,
         ValuePieces, Enclosed, LeafOk;
    ListLeafIsTree(env, st, l);
    StartsWithKind(ts, ValuePieces(env, st, l));
    ValueListIsParsed(env, st, l.field, l.value.items, ts);
    ParenthesisIsRead(env, l.field, ts);
  }

  lemma ListLeafIsTree(env: Env, st: Style, l: F.Leaf)
    requires LeafOk(env, st, l) && l.op == F.In
    ensures SeparatorOk(st) && l.value.List? && l.value.items != [] && forall v <- l.value.items :: Writable(env, st, v)
    ensures ListLeaf(l.field, l.value.items) == LeafTree(env, st, l) &&
            ValuePieces(env, st, l) == Enclosed(ListPieces(env, st, l.value.items))
    ensures |ValuePieces(env, st, l)| == |ListPieces(env, st, l.value.items)| + 2 &&
            ValuePieces(env, st, l)[0].kind == LPAREN
  {
    hide ListPieces;
  }

  lemma ParenthesisIsRead(env: Env, field: string, ts: seq<Token>)
    requires field != "" && WellFormed(ts) && ts[0].kind == LPAREN
    ensures RightHandSide(env, field, ts) == ValueList(env, field, ts)
  {
    hide WellFormed, Comparison, Sound, Columns, Range, ValueList, ValueLeaf;
  }

  lemma ComparisonIsParsed(env: Env, st: Style, field: string, op: F.Op, v: F.Value, ts: seq<Token>)
    requires field != "" && F.IsRangeOp(op) && WellFormed(ts) && |ts| > 1 && Writable(env, st, v)
    requires ts[0].kind == ValuePiece(env, st, v).kind && ts[0].text == ValuePiece(env, st, v).text
    ensures Comparison(env, field, op, ts) == Ok(PLeaf(MakeLeaf(field, op, v)), ts[1..], [])
  {
    hide CoerceValue, Columns, WellFormed, ValuePiece, Writable;
    PieceIsCoerced(env, st, v, ts[0]);
  }

  lemma OperatorIsRead(env: Env, field: string, op: F.Op, ts: seq<Token>)
    requires field != "" && F.IsRangeOp(op) && WellFormed(ts) && ts[0].kind == RangePiece(op).kind &&
             WellFormed(ts[1..])
    ensures RightHandSide(env, field, ts) == Comparison(env, field, op, ts[1..])
  {
    hide WellFormed, Comparison, Sound, Columns, Range, ValueList, ValueLeaf;
  }

  lemma RangeLeafIsTree(env: Env, st: Style, l: F.Leaf)
    requires LeafOk(env, st, l) && F.IsRangeOp(l.op)
    ensures Writable(env, st, l.value) && LeafTree(env, st, l) == PLeaf(MakeLeaf(l.field, l.op, l.value))
    ensures ValuePieces(env, st, l) == [RangePiece(l.op)] + ([ValuePiece(env, st, l.value)] + [])
    ensures |ValuePieces(env, st, l)| == 2
  {
    hide ValuePiece, Writable;
  }

  lemma RangeLeafIsParsed(env: Env, st: Style, l: F.Leaf, ts: seq<Token>)
    requires LeafOk(env, st, l) && l.field != "" && F.IsRangeOp(l.op)
    requires WellFormed(ts) && Starts(ts, ValuePieces(env, st, l)) && |ts| > |ValuePieces(env, st, l)|
    ensures Built(RightHandSide(env, l.field, ts), LeafTree(env, st, l), ts, |ValuePieces(env, st, l)|)
  {
    hide CoerceValue, Sound, Columns, RightHandSide, Starts, WellFormed, Comparison, ListPieces, ValuePiece,
         ValuePieces, LeafOk, LeafTree, Writable;
    RangeLeafIsTree(env, st, l);
    StartsHead(ts, RangePiece(l.op), [ValuePiece(env, st, l.value)] + []);
    StartsHead(ts[1..], ValuePiece(env, st, l.value), []);
    SuffixWellFormed(ts, 1);
    ComparisonIsParsed(env, st, l.field, l.op, l.value, ts[1..]);
    OperatorIsRead(env, l.field, l.op, ts);
    assert ts[1..][1..] == ts[2..];
  }

  lemma ValueIsParsed(env: Env, st: Style, l: F.Leaf, ts: seq<Token>)
    requires LeafOk(env, st, l) && l.field != "" && WellFormed(ts) && Starts(ts, ValuePieces(env, st, l)) &&
             |ts| > |ValuePieces(env, st, l)|
    ensures Built(RightHandSide(env, l.field, ts), LeafTree(env, st, l), ts, |ValuePieces(env, st, l)|)
  {
    if l.op == F.In {
      ListLeafIsParsed(env, st, l, ts);
    } else if F.IsRangeOp(l.op) {
      RangeLeafIsParsed(env, st, l, ts);
    } else {
      WordLeafIsParsed(env, st, l, ts);
    }
  }

  lemma WordLeafIsParsed(env: Env, st: Style, l: F.Leaf, ts: seq<Token>)
    requires LeafOk(env, st, l) && l.field != "" && l.op in {F.Exists, F.Eq, F.StartsWith, F.Contains}
    requires WellFormed(ts) && Starts(ts, ValuePieces(env, st, l)) && |ts| > |ValuePieces(env, st, l)|
    ensures Built(RightHandSide(env, l.field, ts), LeafTree(env, st, l), ts, |ValuePieces(env, st, l)|)
  {
    hide Range, ValueList, Comparison, ValueLeaf, Sound, Columns;
    var ps := ValuePieces(env, st, l);
    assert ts[0].kind == ps[0].kind && ts[0].text == ps[0].text;
    match l.op {
      case Exists => ExistsLeafBuilt(env, l.field, ts[0].col);
      case Eq => WrittenLeafBuilt(env, st, l.field, l.value, ts[0]);
      case StartsWith => PrefixLeafBuilt(env, l.field, l.value.s, ts[0].col);
      case Contains => ContainsLeafBuilt(env, l.field, l.value.s, ts[0].col);
    }
  }

  lemma ExistsLeafBuilt(env: Env, field: string, col: nat)
    requires field != ""
    ensures ValueLeaf(env, field, Scalar("*", false, col)).0 == PLeaf(MakeLeaf(field, F.Exists, F.Null))
  {
  }

  lemma WrittenLeafBuilt(env: Env, st: Style, field: string, v: F.Value, t: Token)
    requires field != "" && Writable(env, st, v) && t.kind == ValuePiece(env, st, v).kind &&
             t.text == ValuePiece(env, st, v).text
    ensures ValueLeaf(env, field, ScalarOf(t)).0 == PLeaf(MakeLeaf(field, F.Eq, v))
  {
    hide CoerceValue;
    PieceIsCoerced(env, st, v, t);
  }

  lemma AttrFieldSplit(field: string)
    requires F.IsAttr(field)
    ensures F.ATTRIBUTE_PREFIX + F.AttrPath(field) == field
  {
  }

  lemma FieldIsParsed(env: Env, field: string, ts: seq<Token>, t: PNode, n: nat)
    requires FieldOk(field) && field != "" && WellFormed(ts) && Starts(ts, FieldPieces(field) + [Piece(COLON, "")])
    requires var k := |FieldPieces(field)| + 1;
             k + n <= |ts| && WellFormed(ts[k..]) && Built(RightHandSide(env, field, ts[k..]), t, ts[k..], n)
    ensures Built(Atom(env, ts), t, ts, |FieldPieces(field)| + 1 + n)
  {
    hide RightHandSide, Sound, Columns, Disjunction;
    var fp := FieldPieces(field);
    StartsSplit(ts, fp, [Piece(COLON, "")]);
    assert ts[|fp|] == ts[|fp|..][0];
    assert ts[0].kind == fp[0].kind && ts[0].text == fp[0].text;
    if F.IsAttr(field) {
      assert ts[1].kind == fp[1].kind && ts[1].text == fp[1].text;
      AttrFieldSplit(field);
      assert ts[1..][0] == ts[1] && ts[1..][1..] == ts[2..] && ts[2..][0] == ts[2] && ts[2..][1..] == ts[3..];
    } else {
      assert ts[1..][0] == ts[1] && ts[1..][1..] == ts[2..];
    }
    assert ts[|fp| + 1..][n..] == ts[|fp| + 1 + n..];
  }

  lemma LeafIsParsed(env: Env, st: Style, l: F.Leaf, ts: seq<Token>)
    requires LeafOk(env, st, l) && WellFormed(ts) && Starts(ts, Positive(env, st, l)) && |ts| > |Positive(env, st, l)|
    ensures Built(Atom(env, ts), LeafTree(env, st, l), ts, |Positive(env, st, l)|)
  {
    hide RightHandSide, Sound, Columns, Disjunction, ValuePieces, LeafTree, Atom, Starts, WellFormed, Built;
    var fp, vp := FieldPieces(l.field), ValuePieces(env, st, l);
    assert Positive(env, st, l) == (fp + [Piece(COLON, "")]) + vp;
    StartsSplit(ts, fp + [Piece(COLON, "")], vp);
    SuffixWellFormed(ts, |fp| + 1);
    ValueIsParsed(env, st, l, ts[|fp| + 1..]);
    FieldIsParsed(env, l.field, ts, LeafTree(env, st, l), |vp|);
  }

  // -------------------------------------------------------------------- ranges

  /** An end of a range that bounds nothing: left out, or a star. */
  predicate Unbounded(end: Option<Scalar>) {
    end.None? || end.value.text == "*"
  }

  /** What a range typed between brackets or braces asks of an event: each end that bounds something
      bounds the field, inclusively or not; with no such end the field must exist. */
  predicate InRange(env: Env, field: string, inclusive: bool, lo: Option<Scalar>, hi: Option<Scalar>, ev: Event) {
    if Unbounded(lo) && Unbounded(hi) then MatchLeaf(env, MakeLeaf(field, F.Exists, F.Null), ev)
    else
      (!Unbounded(lo) ==>
        MatchLeaf(env, MakeLeaf(field, if inclusive then F.Gte else F.Gt, CoerceValue(env, lo.value)), ev)) &&
      (!Unbounded(hi) ==>
        MatchLeaf(env, MakeLeaf(field, if inclusive then F.Lte else F.Lt, CoerceValue(env, hi.value)), ev))
  }

  /** The tokens a range takes up to and including the bracket that belongs to it, if it is one. The
      upper end may be left out; the lower end may not, since TO would itself be read as that end. */
  function RangeSize(inclusive: bool, ts: seq<Token>): Option<nat> {
    var close := if inclusive then RBRACKET else RBRACE;
    if |ts| > 3 && IsValue(ts[1]) && IsKeyword(ts[2], "TO") then
      if ts[3].kind == close then Some(4)
      else if |ts| > 4 && IsValue(ts[3]) && ts[4].kind == close then Some(5)
      else None
    else None
  }

  function UpperEnd(size: nat, ts: seq<Token>): Option<Scalar>
    requires |ts| > 3
  {
    if size == 4 then None else Some(ScalarOf(ts[3]))
  }

  lemma BoundIsRead(ts: seq<Token>)
    requires WellFormed(ts)
    ensures Bound(ts) == if IsValue(ts[0]) then (Some(ScalarOf(ts[0])), ts[1..]) else (None, ts)
    ensures IsValue(ts[0]) ==> |ts| > 1 && WellFormed(ts[1..]) && ts[1..][0] == ts[1]
  {
    hide Columns;
  }

  lemma NotAlone(ts: seq<Token>)
    requires WellFormed(ts) && ts[0].kind != EOF
    ensures |ts| > 1
  {
  }

  lemma EndIsLast(ts: seq<Token>, i: nat)
    requires WellFormed(ts) && i < |ts| && ts[i].kind != EOF
    ensures i + 1 < |ts|
  {
  }

  /** A range is read exactly when it has a lower end, TO, and the closing bracket that belongs to it,
      with or without an upper end; it is then read up to that bracket and means its bounds. */
  lemma RangeIsParsed(env: Env, field: string, inclusive: bool, ts: seq<Token>, ev: Event)
    requires field != "" && WellFormed(ts) && ts[0].kind == (if inclusive then LBRACKET else LBRACE)
    ensures var r := Range(env, field, inclusive, ts);
            var size := RangeSize(inclusive, ts);
            (r.Ok? <==> size.Some?) &&
            (r.Ok? ==>
              r.rest == ts[size.value..] &&
              (Means(env, r.val, ev) <==>
                InRange(env, field, inclusive, Some(ScalarOf(ts[1])), UpperEnd(size.value, ts), ev)))
  {
    hide CoerceValue, Columns, WellFormed, MatchLeaf, IsKeyword, RangeTree, Means, InRange, Bound;
    NotAlone(ts);
    SuffixWellFormed(ts, 1);
    BoundIsRead(ts[1..]);
    if IsValue(ts[1]) && IsKeyword(ts[2], "TO") {
      KeywordIsWord(ts[2], "TO");
      EndIsLast(ts, 2);
      SuffixWellFormed(ts, 3);
      assert ts[1..][1..] == ts[2..] && ts[2..][1..] == ts[3..] && ts[3..][0] == ts[3];
      BoundIsRead(ts[3..]);
      assert ts[3..][1..] == ts[4..];
      RangeTreeMeans(env, field, inclusive, Some(ScalarOf(ts[1])), None, ev);
      RangeTreeMeans(env, field, inclusive, Some(ScalarOf(ts[1])), Some(ScalarOf(ts[3])), ev);
      if ts[3].kind == (if inclusive then RBRACKET else RBRACE) {
        NextAfter(ts, 3);
      } else if IsValue(ts[3]) {
        NextAfter(ts, 4);
      }
    } else if !IsValue(ts[1]) {
      NotKeyword(ts[1], "TO");
    } else {
      assert ts[1..][1..] == ts[2..];
    }
  }

  lemma NextAfter(ts: seq<Token>, i: nat)
    requires WellFormed(ts) && i < |ts|
    ensures WellFormed(ts[i..]) && ts[i..][0] == ts[i] && ts[i..][1..] == ts[i + 1..]
  {
    SuffixWellFormed(ts, i);
  }

  lemma KeywordIsWord(t: Token, word: string)
    requires IsKeyword(t, word)
    ensures t.kind == IDENT
  {
  }

  lemma NotKeyword(t: Token, word: string)
    requires !IsValue(t)
    ensures !IsKeyword(t, word)
  {
  }

  /** So a range that begins with TO needs another TO. */
  lemma LowerEndIsNeeded(env: Env, field: string, inclusive: bool, ts: seq<Token>)
    requires field != "" && WellFormed(ts) && ts[0].kind == (if inclusive then LBRACKET else LBRACE)
    requires |ts| > 2 && IsKeyword(ts[1], "TO") && !IsKeyword(ts[2], "TO")
    ensures Range(env, field, inclusive, ts) == Err(ts[2].col, ExpectedTo)
  {
    hide CoerceValue, Columns, WellFormed, IsKeyword, RangeTree, Bound;
    KeywordIsWord(ts[1], "TO");
    SuffixWellFormed(ts, 1);
    BoundIsRead(ts[1..]);
    assert ts[1..][1..] == ts[2..];
  }

  lemma RangeTreeMeans(env: Env, field: string, inclusive: bool, lo: Option<Scalar>, hi: Option<Scalar>, ev: Event)
    requires field != ""
    ensures Means(env, RangeTree(env, field, inclusive, lo, hi), ev) <==> InRange(env, field, inclusive, lo, hi, ev)
  {
    hide CoerceValue, MatchLeaf;
    if !Unbounded(lo) && !Unbounded(hi) {
      var a := PLeaf(MakeLeaf(field, if inclusive then F.Gte else F.Gt, CoerceValue(env, lo.value)));
      var b := PLeaf(MakeLeaf(field, if inclusive then F.Lte else F.Lt, CoerceValue(env, hi.value)));
      assert RangeTree(env, field, inclusive, lo, hi) == PGroup(F.And, false, [a] + [b], false);
      BothMean(env, a, b, ev);
    }
  }

  lemma BothMean(env: Env, a: PNode, b: PNode, ev: Event)
    ensures Means(env, PGroup(F.And, false, [a] + [b], false), ev) <==> Means(env, a, ev) && Means(env, b, ev)
  {
    var both := [a] + [b];
    assert both[1..] == [b] && [b][1..] == [];
    assert AllMean(env, [b], ev) == Means(env, b, ev);
    assert AllMean(env, both, ev) == (Means(env, a, ev) && AllMean(env, [b], ev));
  }

  // -------------------------------------------------------------------- meaning

  predicate ShouldLowerSame(l: F.Leaf, l': F.Leaf) {
    Compiler.ShouldLower(l) == Compiler.ShouldLower(l')
  }

  lemma FoldSame(env: Env, l: F.Leaf, l': F.Leaf, a: string, b: string)
    requires ShouldLowerSame(l, l')
    ensures Fold(env, l, a) == Fold(env, l', a) && Fold(env, l, b) == Fold(env, l', b)
  {
  }

  lemma OneValueList(env: Env, st: Style, l: F.Leaf, v: F.Value, ev: Event)
    requires LeafOk(env, st, l) && l.op == F.In && l.value.items == [v]
    ensures MatchEq(env, F.Leaf.Leaf(l.field, F.Eq, v, false), ev, false) == MatchIn(env, l, ev, false)
  {
    hide Fold, FieldText, Compiler.Show;
    assert v in l.value.items && [v][1..] == [] && F.Null !in l.value.items;
    var got := FieldText(env, ev, l.field);
    var (d, isNil) := ScalarOrNil(v);
    if got.Some? {
      FoldSame(env, l, F.Leaf.Leaf(l.field, F.Eq, v, false), got.value, Compiler.Show(env, d));
      assert InAny(env, l, [v], got.value) ==
             (Fold(env, l, got.value) == Fold(env, l, Compiler.Show(env, d)) || InAny(env, l, [], got.value));
    }
  }

  /** What a typed predicate asks is its condition. */
  lemma LeafTreeMeans(env: Env, st: Style, l: F.Leaf, ev: Event)
    requires LeafOk(env, st, l)
    ensures Means(env, LeafTree(env, st, l), ev) == MatchLeaf(env, l, ev)
  {
    hide Fold, FieldText, InAny;
    if l.op == F.In {
      var items := l.value.items;
      if |items| == 1 {
        assert items == [items[0]];
        OneValueList(env, st, l, items[0], ev);
      }
    }
  }

  // -------------------------------------------------------------------- pieces

  lemma ListPiecesOk(env: Env, st: Style, vs: seq<F.Value>)
    requires SeparatorOk(st) && vs != [] && forall v <- vs :: Writable(env, st, v)
    ensures forall p <- ListPieces(env, st, vs) :: PieceOk(p)
  {
    hide ValuePiece, Writable, PieceOk;
    assert vs[0] in vs;
    SeparatorPieceOk(st);
    ValuePieceOk(env, st, vs[0]);
    if |vs| > 1 {
      ListPiecesOk(env, st, vs[1..]);
    }
  }

  lemma SeparatorPieceOk(st: Style)
    requires SeparatorOk(st)
    ensures PieceOk(Separator(st))
  {
    if st.or.Some? {
      var w := st.or.value;
      forall i | 0 <= i < |w| ensures IsIdentByte(w[i]) {
        assert UpperByte(w[i]) == "OR"[i] && "OR"[0] == 'O' && "OR"[1] == 'R';
      }
    }
  }

  lemma ValuePieceOk(env: Env, st: Style, v: F.Value)
    requires Writable(env, st, v)
    ensures PieceOk(ValuePiece(env, st, v))
  {
    PieceIsCoerced(env, st, v, ValuePiece(env, st, v));
  }

  lemma LeafPiecesOk(env: Env, st: Style, l: F.Leaf)
    requires LeafOk(env, st, l)
    ensures forall p <- Positive(env, st, l) :: PieceOk(p)
  {
    hide ValuePieces, FieldPieces;
    ValuePiecesOk(env, st, l);
    FieldPiecesOk(l.field);
  }

  lemma ValuePiecesOk(env: Env, st: Style, l: F.Leaf)
    requires LeafOk(env, st, l)
    ensures forall p <- ValuePieces(env, st, l) :: PieceOk(p)
  {
    hide ValuePiece, Writable, ListPieces;
    if l.op == F.In {
      ListPiecesOk(env, st, l.value.items);
    } else if l.op == F.Eq || F.IsRangeOp(l.op) {
      ValuePieceOk(env, st, l.value);
    }
  }

  lemma FieldPiecesOk(field: string)
    requires FieldOk(field)
    ensures forall p <- FieldPieces(field) :: PieceOk(p)
  {
  }

  lemma LeafTreeIsNotTerm(env: Env, st: Style, l: F.Leaf)
    requires LeafOk(env, st, l)
    ensures LeafTree(env, st, l).PLeaf?
  {
  }
}

/** The search-bar grammar as functions over the remaining tokens: what each parsing
    routine returns, what it leaves unread, and what it warns about. */
module Grammar {
  import opened Text
  import opened Lexer
  import F = Filter

  datatype PNode =
    | PGroup(op: F.GroupOp, not: bool, children: seq<PNode>, flat: bool)
    | PLeaf(leaf: F.Leaf)
    | PTerm(value: string)

  datatype Warning = BareField(col: nat, field: string) | SlowWildcard(col: nat, field: string)
    | ConvertedTerm(text: string)

  datatype Msg =
    | Unexpected(tok: Token) | ExpectedRParen | ExpectedPath | ExpectedValueAfterColon
    | ExpectedValue | ExpectedTo | ExpectedClosing(kind: Kind) | ExpectedListValue
    | Lexical(msg: LexMsg)

  datatype Parsed<+T> = Ok(val: T, rest: seq<Token>, warns: seq<Warning>) | Err(col: nat, msg: Msg)

  datatype Scalar = Scalar(text: string, quoted: bool, col: nat)

  // -------------------------------------------------------- what parsing keeps

  function Columns(ts: seq<Token>): set<nat> {
    set t | t in ts :: t.col
  }

  /** The unread tokens are again a well-formed list, shorter, with no new column. */
  predicate Shorter(rest: seq<Token>, ts: seq<Token>) {
    WellFormed(rest) && |rest| < |ts| && Columns(rest) <= Columns(ts)
  }

  predicate PlainValue(v: F.Value) {
    v.Str? || v.Int? || v.Real?
  }

  /** The leaves the parser builds. */
  predicate ParserLeaf(l: F.Leaf) {
    l.field != "" && !l.caseSensitive &&
    match l.op
    case Exists => l.value == F.Null
    case Eq | Gt | Gte | Lt | Lte => PlainValue(l.value)
    case StartsWith | Contains => l.value.Str?
    case In => l.value.List? && |l.value.items| >= 2 && forall v <- l.value.items :: PlainValue(v)
    case _ => false
  }

  ghost predicate ParserTree(n: PNode) {
    match n
    case PTerm(_) => true
    case PLeaf(l) => ParserLeaf(l)
    case PGroup(op, _, cs, flat) =>
      (op == F.And || op == F.Or) && cs != [] && (flat ==> op == F.And && !n.not) && forall c <- cs :: ParserTree(c)
  }

  /** Every routine's promise: a legal tree and a shorter well-formed remainder, or an
      error at the column of one of the tokens it was given. */
  ghost predicate Sound(ts: seq<Token>, r: Parsed<PNode>) {
    match r
    case Ok(n, rest, _) => ParserTree(n) && Shorter(rest, ts)
    case Err(c, _) => c in Columns(ts)
  }

  function Next(ts: seq<Token>): (r: seq<Token>)
    requires WellFormed(ts) && ts[0].kind != EOF
    ensures r == ts[1..] && Shorter(r, ts)
  {
    assert ts[1..][|ts| - 2] == ts[|ts| - 1];
    assert forall t :: t in ts[1..] ==> t in ts;
    ts[1..]
  }

  lemma FirstColumn(ts: seq<Token>)
    requires ts != []
    ensures ts[0].col in Columns(ts)
  {
    assert ts[0] in ts;
  }

  // ------------------------------------------------------------------ keywords

  function UpperByte(c: char): char {
    if 'a' <= c <= 'z' then ((c as int) - 32) as char else c
  }

  /** Case-insensitive comparison with a keyword. */
  predicate IsKeyword(t: Token, word: string) {
    t.kind == IDENT && |t.text| == |word| && forall i | 0 <= i < |word| :: UpperByte(t.text[i]) == word[i]
  }

  predicate CanStartFactor(t: Token) {
    match t.kind
    case IDENT => !IsKeyword(t, "OR") && !IsKeyword(t, "AND") && !IsKeyword(t, "TO")
    case LPAREN | STRING | AT => true
    case _ => false
  }

  // -------------------------------------------------------------------- values

  predicate IsDigits(s: string) {
    s != "" && forall i | 0 <= i < |s| :: '0' <= s[i] <= '9'
  }

  function DigitsValue(s: string): int {
    if s == "" then 0 else DigitsValue(s[..|s| - 1]) * 10 + (s[|s| - 1] as int - '0' as int)
  }

  const INT64_MAX := 0x7FFF_FFFF_FFFF_FFFF

  /** A signed decimal numeral that fits in 64 bits. */
  function ParseInt(s: string): Option<int> {
    var signed := s != "" && (s[0] == '-' || s[0] == '+');
    var body := if signed then s[1..] else s;
    if !IsDigits(body) then None
    else
      var v := if signed && s[0] == '-' then -DigitsValue(body) else DigitsValue(body);
      if -INT64_MAX - 1 <= v <= INT64_MAX then Some(v) else None
  }

  function CoerceValue(env: Env, v: Scalar): (r: F.Value)
    ensures PlainValue(r)
  {
    if v.quoted then F.Str(v.text)
    else match ParseInt(v.text)
      case Some(n) => F.Int(n)
      case None => match env.num(v.text) case Some(r) => F.Real(r) case None => F.Str(v.text)
  }

  predicate HasWildcard(s: string) {
    '*' in s || '?' in s
  }

  function MakeLeaf(field: string, op: F.Op, value: F.Value): F.Leaf {
    F.Leaf.Leaf(field, op, value, false)
  }

  /** The leaf for `field:value`, and the warning for a wildcard that is not a suffix. */
  function ValueLeaf(env: Env, field: string, v: Scalar): (r: (PNode, seq<Warning>))
    requires field != ""
    ensures ParserTree(r.0)
  {
    if v.quoted then (PLeaf(MakeLeaf(field, F.Eq, F.Str(v.text))), [])
    else if v.text == "*" then (PLeaf(MakeLeaf(field, F.Exists, F.Null)), [])
    else if HasWildcard(v.text) then
      var prefix := v.text[..|v.text| - 1];
      if v.text[|v.text| - 1] == '*' && !HasWildcard(prefix) then
        (PLeaf(MakeLeaf(field, F.StartsWith, F.Str(prefix))), [])
      else
        (PLeaf(MakeLeaf(field, F.Contains, F.Str(ReplaceAll(ReplaceAll(v.text, '*', ""), '?', "")))),
         [SlowWildcard(v.col, field)])
    else (PLeaf(MakeLeaf(field, F.Eq, CoerceValue(env, v))), [])
  }

  function ScalarAt(ts: seq<Token>): (r: Parsed<Scalar>)
    requires WellFormed(ts)
    ensures r.Ok? ==> r.rest == ts[1..] && Shorter(r.rest, ts) && r.warns == []
    ensures r.Err? ==> r.col in Columns(ts)
    ensures r.Ok? <==> ts[0].kind == IDENT || ts[0].kind == STRING
  {
    FirstColumn(ts);
    if ts[0].kind == STRING || ts[0].kind == IDENT then
      Ok(Scalar(ts[0].text, ts[0].kind == STRING, ts[0].col), Next(ts), [])
    else Err(ts[0].col, ExpectedValue)
  }

  // ----------------------------------------------------------------- predicates

  function Comparison(env: Env, field: string, op: F.Op, ts: seq<Token>): (r: Parsed<PNode>)
    requires WellFormed(ts) && field != "" && F.IsRangeOp(op)
    ensures Sound(ts, r)
  {
    match ScalarAt(ts)
    case Err(c, m) => Err(c, m)
    case Ok(v, rest, _) => Ok(PLeaf(MakeLeaf(field, op, CoerceValue(env, v))), rest, [])
  }

  /** One end of a range, when it is written. */
  function Bound(ts: seq<Token>): (r: (Option<Scalar>, seq<Token>))
    requires WellFormed(ts)
    ensures WellFormed(r.1) && |r.1| <= |ts| && Columns(r.1) <= Columns(ts)
  {
    match ScalarAt(ts)
    case Ok(v, rest, _) => (Some(v), rest)
    case Err(_, _) => (None, ts)
  }

  function BoundLeaf(env: Env, field: string, op: F.Op, b: Option<Scalar>): (r: seq<PNode>)
    requires field != "" && F.IsRangeOp(op)
    ensures forall n <- r :: ParserTree(n)
  {
    if b.Some? && b.value.text != "*" then [PLeaf(MakeLeaf(field, op, CoerceValue(env, b.value)))] else []
  }

  function RangeTree(env: Env, field: string, inclusive: bool, lo: Option<Scalar>, hi: Option<Scalar>): (r: PNode)
    requires field != ""
    ensures ParserTree(r)
  {
    var children :=
        BoundLeaf(env, field, if inclusive then F.Gte else F.Gt, lo) +
          BoundLeaf(env, field, if inclusive then F.Lte else F.Lt, hi);
    if |children| == 0 then PLeaf(MakeLeaf(field, F.Exists, F.Null))
    else if |children| == 1 then children[0]
    else PGroup(F.And, false, children, false)
  }

  function Range(env: Env, field: string, inclusive: bool, ts: seq<Token>): (r: Parsed<PNode>)
    requires WellFormed(ts) && field != "" && ts[0].kind == (if inclusive then LBRACKET else LBRACE)
    ensures Sound(ts, r)
  {
    var (lo, t1) := Bound(Next(ts));
    FirstColumn(t1);
    if !IsKeyword(t1[0], "TO") then Err(t1[0].col, ExpectedTo)
    else
      var (hi, t2) := Bound(Next(t1));
      FirstColumn(t2);
      var close := if inclusive then RBRACKET else RBRACE;
      if t2[0].kind != close then Err(t2[0].col, ExpectedClosing(close))
      else Ok(RangeTree(env, field, inclusive, lo, hi), Next(t2), [])
  }

  /** The values of a parenthesised list, separated by commas or OR. */
  function ListValues(env: Env, ts: seq<Token>): (r: Parsed<seq<F.Value>>)
    requires WellFormed(ts)
    ensures r.Ok? ==> Shorter(r.rest, ts) && r.val != [] && (forall v <- r.val :: PlainValue(v)) && r.warns == []
    ensures r.Err? ==> r.col in Columns(ts)
    decreases |ts|
  {
    FirstColumn(ts);
    match ScalarAt(ts)
    case Err(_, _) => Err(ts[0].col, ExpectedListValue)
    case Ok(v, rest, _) =>
      if rest[0].kind == COMMA || IsKeyword(rest[0], "OR") then
        match ListValues(env, Next(rest))
        case Err(c, m) => Err(c, m)
        case Ok(vs, rest', _) => Ok([CoerceValue(env, v)] + vs, rest', [])
      else Ok([CoerceValue(env, v)], rest, [])
  }

  function ListLeaf(field: string, values: seq<F.Value>): PNode
    requires values != []
  {
    if |values| == 1 then PLeaf(MakeLeaf(field, F.Eq, values[0]))
    else PLeaf(MakeLeaf(field, F.In, F.List(values)))
  }

  function ValueList(env: Env, field: string, ts: seq<Token>): (r: Parsed<PNode>)
    requires WellFormed(ts) && field != "" && ts[0].kind == LPAREN
    ensures Sound(ts, r)
  {
    match ListValues(env, Next(ts))
    case Err(c, m) => Err(c, m)
    case Ok(values, rest, _) =>
      FirstColumn(rest);
      if rest[0].kind != RPAREN then Err(rest[0].col, ExpectedRParen)
      else Ok(ListLeaf(field, values), Next(rest), [])
  }

  function RightHandSide(env: Env, field: string, ts: seq<Token>): (r: Parsed<PNode>)
    requires WellFormed(ts) && field != ""
    ensures Sound(ts, r)
  {
    FirstColumn(ts);
    match ts[0].kind
    case GT => Comparison(env, field, F.Gt, Next(ts))
    case GTE => Comparison(env, field, F.Gte, Next(ts))
    case LT => Comparison(env, field, F.Lt, Next(ts))
    case LTE => Comparison(env, field, F.Lte, Next(ts))
    case LBRACKET => Range(env, field, true, ts)
    case LBRACE => Range(env, field, false, ts)
    case LPAREN => ValueList(env, field, ts)
    case IDENT | STRING =>
      var v := Scalar(ts[0].text, ts[0].kind == STRING, ts[0].col);
      var (leaf, warns) := ValueLeaf(env, field, v);
      Ok(leaf, Next(ts), warns)
    case _ => Err(ts[0].col, ExpectedValueAfterColon)
  }

  predicate IsCoreField(f: string) {
    f in {"service", "level", "host", "source", "message"}
  }

  function Warned(ws: seq<Warning>, r: Parsed<PNode>): Parsed<PNode> {
    match r case Ok(n, rest, more) => Ok(n, rest, ws + more) case Err(_, _) => r
  }

  function IdentAtom(env: Env, ts: seq<Token>): (r: Parsed<PNode>)
    requires WellFormed(ts) && ts[0].kind == IDENT
    ensures Sound(ts, r)
  {
    var t := ts[0];
    var after := Next(ts);
    if after[0].kind == COLON then
      Warned(if IsCoreField(t.text) then [] else [BareField(t.col, t.text)], RightHandSide(env, t.text, Next(after)))
    else Ok(PTerm(t.text), after, [])
  }

  function AttributePredicate(env: Env, ts: seq<Token>): (r: Parsed<PNode>)
    requires WellFormed(ts) && ts[0].kind == AT
    ensures Sound(ts, r)
  {
    FirstColumn(ts);
    var after := Next(ts);
    if after[0].kind != IDENT then Err(ts[0].col, ExpectedPath)
    else
      var field := F.ATTRIBUTE_PREFIX + after[0].text;
      var rest := Next(after);
      if rest[0].kind != COLON then Ok(PLeaf(MakeLeaf(field, F.Exists, F.Null)), rest, [])
      else RightHandSide(env, field, Next(rest))
  }

  // -------------------------------------------------------------------- boolean

  function Atom(env: Env, ts: seq<Token>): (r: Parsed<PNode>)
    requires WellFormed(ts)
    ensures Sound(ts, r)
    decreases |ts|, 1
  {
    FirstColumn(ts);
    match ts[0].kind
    case LPAREN =>
      (match Disjunction(env, Next(ts))
       case Err(c, m) => Err(c, m)
       case Ok(n, rest, ws) =>
         FirstColumn(rest);
         if rest[0].kind != RPAREN then Err(rest[0].col, ExpectedRParen) else Ok(n, Next(rest), ws))
    case AT => AttributePredicate(env, ts)
    case IDENT => IdentAtom(env, ts)
    case STRING => Ok(PTerm(ts[0].text), Next(ts), [])
    case _ => Err(ts[0].col, Unexpected(ts[0]))
  }

  function Negated(r: Parsed<PNode>): Parsed<PNode> {
    match r
    case Ok(n, rest, ws) => Ok(PGroup(F.And, true, [n], false), rest, ws)
    case Err(_, _) => r
  }

  /** The first token with its leading dash taken off. */
  function Stripped(ts: seq<Token>): (r: seq<Token>)
    requires WellFormed(ts) && ts[0].kind == IDENT && |ts[0].text| > 1
    ensures WellFormed(r) && |r| == |ts| && Columns(r) == Columns(ts) && r[1..] == ts[1..]
  {
    var r := ts[0 := ts[0].(text := ts[0].text[1..])];
    assert forall i | 0 <= i < |ts| :: r[i].col == ts[i].col && r[i].kind == ts[i].kind && r[i] in r && ts[i] in ts;
    assert Columns(r) == Columns(ts) by {
      forall c ensures c in Columns(r) <==> c in Columns(ts) {
        if t :| t in r && t.col == c {
          var i :| 0 <= i < |r| && r[i] == t;
          assert ts[i].col == c;
        }
        if t :| t in ts && t.col == c {
          var i :| 0 <= i < |ts| && ts[i] == t;
          assert r[i].col == c;
        }
      }
    }
    r
  }

  function Factor(env: Env, ts: seq<Token>): (r: Parsed<PNode>)
    requires WellFormed(ts)
    ensures Sound(ts, r)
    decreases |ts|, 2
  {
    if IsKeyword(ts[0], "NOT") then Negated(Atom(env, Next(ts)))
    else if ts[0].kind == IDENT && ts[0].text[0] == '-' then
      if |ts[0].text| == 1 then Negated(Atom(env, Next(ts))) else Negated(Atom(env, Stripped(ts)))
    else Atom(env, ts)
  }

  function Conjoined(branches: seq<PNode>): PNode
    requires branches != []
  {
    if |branches| == 1 then branches[0] else PGroup(F.And, false, branches, true)
  }

  function Disjoined(branches: seq<PNode>): PNode
    requires branches != []
  {
    if |branches| == 1 then branches[0] else PGroup(F.Or, false, branches, false)
  }

  function Conjunction(env: Env, ts: seq<Token>): (r: Parsed<PNode>)
    requires WellFormed(ts)
    ensures Sound(ts, r)
    decreases |ts|, 3
  {
    match Factor(env, ts)
    case Err(c, m) => Err(c, m)
    case Ok(n, rest, ws) => Warned(ws, MoreFactors(env, [n], rest))
  }

  /** The loop of a conjunction, with the factors read so far. */
  function MoreFactors(env: Env, branches: seq<PNode>, ts: seq<Token>): (r: Parsed<PNode>)
    requires WellFormed(ts) && branches != [] && forall b <- branches :: ParserTree(b)
    ensures r.Ok? ==> ParserTree(r.val) && WellFormed(r.rest) && |r.rest| <= |ts| && Columns(r.rest) <= Columns(ts)
    ensures r.Err? ==> r.col in Columns(ts)
    decreases |ts|, 3
  {
    if IsKeyword(ts[0], "AND") || (!IsKeyword(ts[0], "OR") && CanStartFactor(ts[0])) then
      match Factor(env, if IsKeyword(ts[0], "AND") then Next(ts) else ts)
      case Err(c, m) => Err(c, m)
      case Ok(n, rest, ws) => Warned(ws, MoreFactors(env, branches + [n], rest))
    else Ok(Conjoined(branches), ts, [])
  }

  function Disjunction(env: Env, ts: seq<Token>): (r: Parsed<PNode>)
    requires WellFormed(ts)
    ensures Sound(ts, r)
    decreases |ts|, 4
  {
    match Conjunction(env, ts)
    case Err(c, m) => Err(c, m)
    case Ok(n, rest, ws) => Warned(ws, MoreBranches(env, [n], rest))
  }

  function MoreBranches(env: Env, branches: seq<PNode>, ts: seq<Token>): (r: Parsed<PNode>)
    requires WellFormed(ts) && branches != [] && forall b <- branches :: ParserTree(b)
    ensures r.Ok? ==> ParserTree(r.val) && WellFormed(r.rest) && |r.rest| <= |ts| && Columns(r.rest) <= Columns(ts)
    ensures r.Err? ==> r.col in Columns(ts)
    decreases |ts|, 4
  {
    if IsKeyword(ts[0], "OR") then
      match Conjunction(env, Next(ts))
      case Err(c, m) => Err(c, m)
      case Ok(n, rest, ws) => Warned(ws, MoreBranches(env, branches + [n], rest))
    else Ok(Disjoined(branches), ts, [])
  }
}

/** The tokenizer of the search bar. A char stands for one byte of the input. */
module Lexer {

  datatype Kind =
    | EOF | IDENT | STRING | COLON | AT | LPAREN | RPAREN | LBRACKET | RBRACKET
    | LBRACE | RBRACE | COMMA | GT | GTE | LT | LTE

  datatype Token = Token(kind: Kind, text: string, col: nat)

  datatype LexMsg = UnclosedString | UnexpectedCharacter(c: char)

  datatype LexResult = Tokens(toks: seq<Token>) | LexError(col: nat, msg: LexMsg)

  // ------------------------------------------------------- specification

  predicate IsSpace(c: char) {
    c == ' ' || c == '\t' || c == '\n' || c == '\r'
  }

  predicate IsIdentByte(c: char) {
    'a' <= c <= 'z' || 'A' <= c <= 'Z' || '0' <= c <= '9' ||
    c == '_' || c == '.' || c == '-' || c == '*' || c == '?' || c == '/' || c == '+'
  }

  predicate IsIdent(s: string) {
    s != "" && forall i | 0 <= i < |s| :: IsIdentByte(s[i])
  }

  /** The kind of a one-character token, if c is one. */
  function Punctuation(c: char): Kind {
    match c
    case ':' => COLON
    case '@' => AT
    case '(' => LPAREN
    case ')' => RPAREN
    case '[' => LBRACKET
    case ']' => RBRACKET
    case '{' => LBRACE
    case '}' => RBRACE
    case ',' => COMMA
    case _ => EOF
  }

  /** The rest of a quoted string: whether it is closed, its text with the escapes
      resolved, and how many characters it takes including the closing quote. */
  function Quoted(s: string): (r: (bool, string, nat))
    ensures r.2 <= |s|
    ensures r.0 ==> r.2 > 0
    ensures !r.0 ==> r.2 == |s|
  {
    if s == "" then (false, "", 0)
    else if s[0] == '\\' && |s| > 1 then
      var (closed, text, n) := Quoted(s[2..]);
      (closed, (if s[1] == '"' || s[1] == '\\' then [s[1]] else ['\\', s[1]]) + text, n + 2)
    else if s[0] == '"' then (true, "", 1)
    else
      var (closed, text, n) := Quoted(s[1..]);
      (closed, [s[0]] + text, n + 1)
  }

  function IdentLength(s: string): (n: nat)
    ensures n <= |s|
    ensures forall i | 0 <= i < n :: IsIdentByte(s[i])
  {
    if s != "" && IsIdentByte(s[0]) then 1 + IdentLength(s[1..]) else 0
  }

  function Prepend(toks: seq<Token>, r: LexResult): LexResult {
    match r case Tokens(ts) => Tokens(toks + ts) case LexError(_, _) => r
  }

  /** What one turn of the scanning loop does: skip white space, take n characters as
      one token, or stop. */
  datatype Step = Skip | Take(tok: Token, n: nat) | Stop(col: nat, msg: LexMsg)

  function Scan(s: string, col: nat): (r: Step)
    requires s != ""
    ensures r.Take? ==> 0 < r.n <= |s| && r.tok.col == col && r.tok.kind != EOF
    ensures r.Take? && r.tok.kind == IDENT ==> IsIdent(r.tok.text)
    ensures r.Stop? ==> r.col == col
  {
    if IsSpace(s[0]) then Skip
    else if Punctuation(s[0]) != EOF then Take(Token(Punctuation(s[0]), "", col), 1)
    else if s[0] == '>' || s[0] == '<' then
      if |s| > 1 && s[1] == '=' then Take(Token(if s[0] == '>' then GTE else LTE, "", col), 2)
      else Take(Token(if s[0] == '>' then GT else LT, "", col), 1)
    else if s[0] == '"' then
      var (closed, text, n) := Quoted(s[1..]);
      if closed then Take(Token(STRING, text, col), 1 + n) else Stop(col, UnclosedString)
    else
      var n := IdentLength(s);
      if n > 0 then Take(Token(IDENT, s[..n], col), n) else Stop(col, UnexpectedCharacter(s[0]))
  }

  /** Tokenize s, whose first character sits at column col. */
  function Lex(s: string, col: nat): LexResult {
    if s == "" then Tokens([Token(EOF, "", col)])
    else match Scan(s, col)
      case Skip => Lex(s[1..], col + 1)
      case Take(t, n) => Prepend([t], Lex(s[n..], col + n))
      case Stop(c, msg) => LexError(c, msg)
  }

  /** What the parser relies on: exactly one end token, at the end, and no empty identifier. */
  predicate WellFormed(ts: seq<Token>) {
    ts != [] && ts[|ts| - 1].kind == EOF &&
    (forall i | 0 <= i < |ts| - 1 :: ts[i].kind != EOF) &&
    (forall i | 0 <= i < |ts| :: ts[i].kind == IDENT ==> ts[i].text != "")
  }

  predicate ColumnsWithin(ts: seq<Token>, lo: nat, hi: nat) {
    forall i | 0 <= i < |ts| :: lo <= ts[i].col <= hi
  }

  /** Every token list the lexer produces is well-formed, and every column it reports,
      in a token or in an error, lies between the first column and one past the end. */
  lemma {:induction false} LexIsWellFormed(s: string, col: nat)
    ensures match Lex(s, col)
            case Tokens(ts) => WellFormed(ts) && ColumnsWithin(ts, col, col + |s|)
            case LexError(c, _) => col <= c < col + |s|
  {
    hide Scan;
    if s != "" {
      match Scan(s, col) {
        case Skip => LexIsWellFormed(s[1..], col + 1);
        case Take(t, n) =>
          LexIsWellFormed(s[n..], col + n);
          var r := Lex(s[n..], col + n);
          if r.Tokens? {
            OneMoreToken(t, r.toks, col + n, col + |s|);
          }
        case Stop(_, _) =>
      }
    }
  }

  lemma OneMoreToken(t: Token, ts: seq<Token>, lo: nat, hi: nat)
    requires WellFormed(ts) && ColumnsWithin(ts, lo, hi)
    requires t.kind != EOF && (t.kind == IDENT ==> t.text != "") && t.col <= lo <= hi
    ensures WellFormed([t] + ts) && ColumnsWithin([t] + ts, t.col, hi)
  {
    assert ([t] + ts)[|ts|] == ts[|ts| - 1];
    assert forall i | 0 < i <= |ts| :: ([t] + ts)[i] == ts[i - 1];
  }

  // ------------------------------------------------------ implementation

  method Tokenize(input: string) returns (r: LexResult)
    ensures r == Lex(input, 1)
  {
    hide Scan;
    var toks: seq<Token> := [];
    var i := 0;
    assert input[0..] == input;
    PrependNothing(Lex(input, 1));
    while i < |input|
      invariant 0 <= i <= |input|
      invariant Lex(input, 1) == Prepend(toks, Lex(input[i..], i + 1))
    {
      var step := ScanAt(input, i);
      match step {
        case Skip =>
          assert input[i..][1..] == input[i + 1..];
          i := i + 1;
        case Take(t, n) =>
          assert input[i..][n..] == input[i + n..];
          PrependTwice(toks, t, Lex(input[i + n..], i + n + 1));
          toks := toks + [t];
          i := i + n;
        case Stop(col, msg) =>
          return LexError(col, msg);
      }
    }
    r := Tokens(toks + [Token(EOF, "", |input| + 1)]);
  }

  lemma PrependNothing(r: LexResult)
    ensures Prepend([], r) == r
  {
    if r.Tokens? {
      assert [] + r.toks == r.toks;
    }
  }

  lemma PrependTwice(toks: seq<Token>, t: Token, r: LexResult)
    ensures Prepend(toks, Prepend([t], r)) == Prepend(toks + [t], r)
  {
    if r.Tokens? {
      assert toks + ([t] + r.toks) == toks + [t] + r.toks;
    }
  }

  method IdentEnd(input: string, i: nat) returns (next: nat)
    requires i <= |input|
    ensures next == i + IdentLength(input[i..])
  {
    next := i;
    while next < |input| && IsIdentByte(input[next])
      invariant i <= next <= |input|
      invariant IdentLength(input[i..]) == next - i + IdentLength(input[next..])
    {
      assert input[next..][1..] == input[next + 1..];
      next := next + 1;
    }
  }

  /** One turn of the loop, at position i of the input. */
  method ScanAt(input: string, i: nat) returns (r: Step)
    requires i < |input|
    ensures r == Scan(input[i..], i + 1)
  {
    hide Quoted, IdentLength;
    var c := input[i];
    var col := i + 1;
    assert input[i..][1..] == input[i + 1..];
    if IsSpace(c) {
      return Skip;
    }
    if Punctuation(c) != EOF {
      return Take(Token(Punctuation(c), "", col), 1);
    }
    if c == '>' || c == '<' {
      if i + 1 < |input| && input[i + 1] == '=' {
        return Take(Token(if c == '>' then GTE else LTE, "", col), 2);
      }
      return Take(Token(if c == '>' then GT else LT, "", col), 1);
    }
    if c == '"' {
      var closed, text, next := ReadString(input, i + 1);
      if !closed {
        return Stop(col, UnclosedString);
      }
      return Take(Token(STRING, text, col), next - i);
    }
    var next := IdentEnd(input, i);
    if next == i {
      return Stop(col, UnexpectedCharacter(c));
    }
    assert input[i..][..next - i] == input[i..next];
    r := Take(Token(IDENT, input[i..next], col), next - i);
  }

  /** The reading of a string, with n characters giving text already behind it. */
  ghost function Resume(text: string, n: nat, q: (bool, string, nat)): (bool, string, nat) {
    (q.0, text + q.1, n + q.2)
  }

  lemma ResumeTwice(t1: string, n1: nat, t2: string, n2: nat, q: (bool, string, nat))
    ensures Resume(t1, n1, Resume(t2, n2, q)) == Resume(t1 + t2, n1 + n2, q)
  {
    assert t1 + (t2 + q.1) == t1 + t2 + q.1;
  }

  lemma EmptyQuoted()
    ensures Quoted("") == (false, "", 0)
  {
  }

  lemma QuotedAt(input: string, i: nat)
    requires i < |input|
    ensures
      var q := Quoted(input[i..]);
      var c := input[i];
      if c == '\\' && i + 1 < |input| then
        q == Resume(if input[i + 1] == '"' || input[i + 1] == '\\' then [input[i + 1]] else ['\\', input[i + 1]], 2,
                    Quoted(input[i + 2..]))
      else if c == '"' then q == (true, "", 1)
      else q == Resume([c], 1, Quoted(input[i + 1..]))
  {
    var s := input[i..];
    assert s[1..] == input[i + 1..];
    if i + 1 < |input| {
      assert s[2..] == input[i + 2..] && s[1] == input[i + 1];
    }
  }

  /** The inner loop over a quoted string that opened just before position start. */
  method ReadString(input: string, start: nat) returns (closed: bool, text: string, next: nat)
    requires start <= |input|
    ensures start <= next <= |input|
    ensures (closed, text, next - start) == Quoted(input[start..])
  {
    hide Quoted;
    text := "";
    next := start;
    assert "" + Quoted(input[start..]).1 == Quoted(input[start..]).1;
    while next < |input|
      invariant start <= next <= |input|
      invariant Quoted(input[start..]) == Resume(text, next - start, Quoted(input[next..]))
    {
      QuotedAt(input, next);
      if input[next] == '\\' && next + 1 < |input| {
        var c := input[next + 1];
        var piece := if c == '"' || c == '\\' then [c] else ['\\', c];
        ResumeTwice(text, next - start, piece, 2, Quoted(input[next + 2..]));
        text := text + piece;
        next := next + 2;
        continue;
      }
      if input[next] == '"' {
        assert text + "" == text;
        return true, text, next + 1;
      }
      ResumeTwice(text, next - start, [input[next]], 1, Quoted(input[next + 1..]));
      text := text + [input[next]];
      next := next + 1;
    }
    assert input[|input|..] == "" && Quoted("") == (false, "", 0) by {
      EmptyQuoted();
    }
    assert text + "" == text;
    closed := false;
  }
}

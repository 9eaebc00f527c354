/** Queries as they are typed: tokens written out with any white space between them, or none where
    none is needed, lex back to themselves. */
module Spelling {
  import opened Lexer

  /** A token to be written: its column is of no interest. */
  function Piece(kind: Kind, text: string): Token {
    Token(kind, text, 0)
  }

  function Word(text: string): Token {
    Piece(IDENT, text)
  }

  function EscapeString(s: string): string {
    if s == "" then "" else (if s[0] == '"' || s[0] == '\\' then ['\\', s[0]] else [s[0]]) + EscapeString(s[1..])
  }

  function Spelling(p: Token): string {
    match p.kind
    case IDENT => p.text
    case STRING => "\"" + EscapeString(p.text) + "\""
    case COLON => ":"
    case AT => "@"
    case LPAREN => "("
    case RPAREN => ")"
    case LBRACKET => "["
    case RBRACKET => "]"
    case LBRACE => "{"
    case RBRACE => "}"
    case COMMA => ","
    case GT => ">"
    case GTE => ">="
    case LT => "<"
    case LTE => "<="
    case EOF => ""
  }

  predicate PieceOk(p: Token) {
    p.kind != EOF && (p.kind == IDENT ==> IsIdent(p.text)) && (p.kind != IDENT && p.kind != STRING ==> p.text == "")
  }

  /** The tokens ts begin with the pieces ps. */
  predicate Starts(ts: seq<Token>, ps: seq<Token>) {
    |ps| <= |ts| && forall i | 0 <= i < |ps| :: ts[i].kind == ps[i].kind && ts[i].text == ps[i].text
  }

  lemma StartsSplit(ts: seq<Token>, a: seq<Token>, b: seq<Token>)
    requires Starts(ts, a + b)
    ensures Starts(ts, a) && Starts(ts[|a|..], b)
  {
    forall i | 0 <= i < |a| ensures ts[i].kind == a[i].kind && ts[i].text == a[i].text {
      assert (a + b)[i] == a[i];
    }
    forall i | 0 <= i < |b| ensures ts[|a|..][i].kind == b[i].kind && ts[|a|..][i].text == b[i].text {
      assert (a + b)[|a| + i] == b[i];
    }
  }

  lemma StartsHead(ts: seq<Token>, p: Token, rest: seq<Token>)
    requires Starts(ts, [p] + rest)
    ensures ts != [] && ts[0].kind == p.kind && ts[0].text == p.text && Starts(ts[1..], rest)
  {
    StartsSplit(ts, [p], rest);
    assert ([p] + rest)[0] == p;
  }

  lemma StartsWithKind(ts: seq<Token>, ps: seq<Token>)
    requires Starts(ts, ps) && ps != []
    ensures ts != [] && ts[0].kind == ps[0].kind
  {
  }

  lemma SuffixWellFormed(ts: seq<Token>, n: nat)
    requires WellFormed(ts) && n < |ts|
    ensures WellFormed(ts[n..])
  {
    var s := ts[n..];
    assert s[|s| - 1] == ts[|ts| - 1];
    assert forall i | 0 <= i < |s| :: s[i] == ts[n + i];
  }

  // ----------------------------------------------------------------- characters

  /** Letters, digits, and seven marks. */
  predicate WordCharacter(c: char) {
    'a' <= c <= 'z' || 'A' <= c <= 'Z' || '0' <= c <= '9' || c in {'_', '.', '-', '*', '?', '/', '+'}
  }

  const SPACE_CHARS := " \t\n\r"

  const OTHER_CHARS := "\"@:()[]{},<>"

  /** Which characters words are made of, which separate, and which neither. */
  lemma CharacterClasses(c: char)
    ensures IsIdentByte(c) <==> WordCharacter(c)
    ensures IsSpace(c) <==> c in SPACE_CHARS
    ensures c in OTHER_CHARS ==> !IsIdentByte(c) && !IsSpace(c)
  {
  }

  /** Any other character is refused where it stands. */
  lemma StrayCharacterIsRefused(c: char, rest: string, col: nat)
    requires !WordCharacter(c) && c !in SPACE_CHARS && c !in OTHER_CHARS
    ensures Lex([c] + rest, col) == LexError(col, UnexpectedCharacter(c))
  {
    CharacterClasses(c);
    assert OTHER_CHARS[0] == '"' && OTHER_CHARS[1] == '@' && OTHER_CHARS[2] == ':' && OTHER_CHARS[3] == '(';
    assert OTHER_CHARS[4] == ')' && OTHER_CHARS[5] == '[' && OTHER_CHARS[6] == ']' && OTHER_CHARS[7] == '{';
    assert OTHER_CHARS[8] == '}' && OTHER_CHARS[9] == ',' && OTHER_CHARS[10] == '<' && OTHER_CHARS[11] == '>';
  }

  // --------------------------------------------------------------- quoted strings

  function EscapedChar(c: char): string {
    if c == '"' || c == '\\' then ['\\', c] else [c]
  }

  /** Escaping is undone by the lexer, whatever the string contains. */
  lemma {:induction false} EscapedStringIsRead(s: string, rest: string)
    ensures Quoted(EscapeString(s) + "\"" + rest) == (true, s, |EscapeString(s)| + 1)
  {
    hide Quoted, EscapedChar;
    if s == "" {
      assert EscapeString(s) + "\"" + rest == "\"" + rest;
      ClosingQuoteIsRead(rest);
    } else {
      EscapedStringIsRead(s[1..], rest);
      EscapedCharIsRead(s[0], EscapeString(s[1..]) + "\"" + rest);
      EscapeFirst(s, rest);
      assert [s[0]] + s[1..] == s;
    }
  }

  lemma ClosingQuoteIsRead(rest: string)
    ensures Quoted("\"" + rest) == (true, "", 1)
  {
  }

  lemma EscapeFirst(s: string, rest: string)
    requires s != ""
    ensures EscapeString(s) + "\"" + rest == EscapedChar(s[0]) + (EscapeString(s[1..]) + "\"" + rest)
    ensures |EscapeString(s)| == |EscapedChar(s[0])| + |EscapeString(s[1..])|
  {
  }

  lemma EscapedCharIsRead(c: char, tail: string)
    ensures var q := Quoted(tail);
            Quoted(EscapedChar(c) + tail) == (q.0, [c] + q.1, |EscapedChar(c)| + q.2)
  {
    if c == '"' || c == '\\' {
      assert (['\\', c] + tail)[2..] == tail;
    } else {
      assert ([c] + tail)[1..] == tail;
    }
  }

  /** A backslash before any other character stands for itself. */
  lemma OtherEscapeIsKept(c: char, tail: string)
    requires c != '"' && c != '\\'
    ensures var q := Quoted(tail);
            Quoted(['\\', c] + tail) == (q.0, ['\\', c] + q.1, q.2 + 2)
  {
    assert (['\\', c] + tail)[2..] == tail;
  }

  /** A string without its closing quote is refused at the opening one. */
  lemma UnclosedIsRefused(s: string, col: nat)
    ensures Lex("\"" + EscapeString(s), col) == LexError(col, UnclosedString)
  {
    hide Quoted;
    NeverClosed(s);
    assert ("\"" + EscapeString(s))[1..] == EscapeString(s);
  }

  lemma {:induction false} NeverClosed(s: string)
    ensures !Quoted(EscapeString(s)).0
  {
    hide Quoted, EscapedChar;
    if s != "" {
      NeverClosed(s[1..]);
      EscapedCharIsRead(s[0], EscapeString(s[1..]));
      EscapeOne(s);
    } else {
      NothingQuoted();
    }
  }

  lemma NothingQuoted()
    ensures Quoted("") == (false, "", 0)
  {
  }

  lemma EscapeOne(s: string)
    requires s != ""
    ensures EscapeString(s) == EscapedChar(s[0]) + EscapeString(s[1..])
  {
  }

  // --------------------------------------------------------------- written tokens

  lemma {:induction false} IdentIsRead(s: string, rest: string)
    requires forall i | 0 <= i < |s| :: IsIdentByte(s[i])
    requires rest == "" || !IsIdentByte(rest[0])
    ensures IdentLength(s + rest) == |s|
  {
    if s == "" {
      assert s + rest == rest;
    } else {
      IdentIsRead(s[1..], rest);
      assert (s + rest)[1..] == s[1..] + rest;
    }
  }

  /** What may stand right behind a token without becoming part of it. */
  predicate MayFollow(p: Token, rest: string) {
    rest == "" ||
    ((p.kind == IDENT ==> !IsIdentByte(rest[0])) && (p.kind == GT || p.kind == LT ==> rest[0] != '='))
  }

  lemma WordIsScanned(text: string, rest: string, col: nat)
    requires IsIdent(text) && (rest == "" || !IsIdentByte(rest[0]))
    ensures Scan(text + rest, col) == Take(Token(IDENT, text, col), |text|)
  {
    var s := text + rest;
    IdentIsRead(text, rest);
    assert s[..|text|] == text && s[0] == text[0] && IsIdentByte(s[0]);
  }

  lemma StringIsScanned(text: string, rest: string, col: nat)
    ensures var w := "\"" + EscapeString(text) + "\"";
            Scan(w + rest, col) == Take(Token(STRING, text, col), |w|)
  {
    hide Quoted, EscapeString;
    var s := "\"" + EscapeString(text) + "\"" + rest;
    EscapedStringIsRead(text, rest);
    assert s[0] == '"' && s[1..] == EscapeString(text) + "\"" + rest;
  }

  lemma SymbolIsScanned(p: Token, rest: string, col: nat)
    requires PieceOk(p) && p.kind != IDENT && p.kind != STRING && MayFollow(p, rest)
    ensures Scan(Spelling(p) + rest, col) == Take(Token(p.kind, p.text, col), |Spelling(p)|)
  {
    var s := Spelling(p) + rest;
    assert s[0] == Spelling(p)[0];
    assert |Spelling(p)| == 1 ==> s[1..] == rest;
    assert |Spelling(p)| == 2 ==> s[1] == Spelling(p)[1];
  }

  lemma PieceIsScanned(p: Token, rest: string, col: nat)
    requires PieceOk(p) && MayFollow(p, rest)
    ensures Scan(Spelling(p) + rest, col) == Take(Token(p.kind, p.text, col), |Spelling(p)|)
  {
    hide Scan;
    if p.kind == IDENT {
      WordIsScanned(p.text, rest, col);
    } else if p.kind == STRING {
      StringIsScanned(p.text, rest, col);
    } else {
      SymbolIsScanned(p, rest, col);
    }
  }

  predicate Blank(s: string) {
    forall i | 0 <= i < |s| :: s[i] in SPACE_CHARS
  }

  /** White space after each token, needed only between two words. */
  predicate Separated(ps: seq<Token>, gaps: seq<string>) {
    |gaps| == |ps| && (forall gap <- gaps :: Blank(gap)) &&
    forall i | 0 <= i < |ps| - 1 && ps[i].kind == IDENT && ps[i + 1].kind == IDENT :: gaps[i] != ""
  }

  /** Tokens written one after the other, each followed by its gap. */
  function Written(ps: seq<Token>, gaps: seq<string>): string
    requires |gaps| == |ps|
  {
    if ps == [] then "" else Spelling(ps[0]) + (gaps[0] + Written(ps[1..], gaps[1..]))
  }

  lemma FirstCharacter(p: Token, rest: string)
    requires PieceOk(p)
    ensures var s := Spelling(p) + rest;
            s != "" && s[0] != '=' && (p.kind != IDENT ==> !IsIdentByte(s[0]))
  {
    assert Spelling(p) != "" && (Spelling(p) + rest)[0] == Spelling(p)[0];
  }

  lemma GapMayFollow(ps: seq<Token>, gaps: seq<string>)
    requires ps != [] && (forall p <- ps :: PieceOk(p)) && Separated(ps, gaps)
    ensures MayFollow(ps[0], gaps[0] + Written(ps[1..], gaps[1..]))
  {
    hide PieceOk, Spelling;
    var rest := gaps[0] + Written(ps[1..], gaps[1..]);
    assert gaps[0] in gaps;
    if gaps[0] != "" {
      assert rest[0] == gaps[0][0] && gaps[0][0] in SPACE_CHARS;
      CharacterClasses(rest[0]);
      SpacesAreNotEquals(rest[0]);
    } else if |ps| > 1 {
      assert ps[1] in ps && ps[1..][0] == ps[1];
      FirstCharacter(ps[1], gaps[1..][0] + Written(ps[1..][1..], gaps[1..][1..]));
      assert rest == Written(ps[1..], gaps[1..]);
    }
  }

  lemma SpacesAreNotEquals(c: char)
    requires IsSpace(c)
    ensures c != '=' && !IsIdentByte(c)
  {
  }

  lemma {:induction false} BlankIsSkipped(gap: string, rest: string, col: nat)
    requires Blank(gap)
    ensures Lex(gap + rest, col) == Lex(rest, col + |gap|)
  {
    hide Scan;
    if gap == "" {
      assert gap + rest == rest;
    } else {
      var s := gap + rest;
      assert gap[0] in SPACE_CHARS && s[0] == gap[0] && s[1..] == gap[1..] + rest;
      SpaceIsSkipped(s, col);
      BlankIsSkipped(gap[1..], rest, col + 1);
    }
  }

  lemma SpaceIsSkipped(s: string, col: nat)
    requires s != "" && s[0] in SPACE_CHARS
    ensures Scan(s, col) == Skip
  {
    CharacterClasses(s[0]);
  }

  lemma SeparatedRest(ps: seq<Token>, gaps: seq<string>)
    requires ps != [] && Separated(ps, gaps)
    ensures |gaps| == |ps| && Separated(ps[1..], gaps[1..]) && Blank(gaps[0])
  {
    assert gaps[0] in gaps;
    forall i | 0 <= i < |ps[1..]| - 1 && ps[1..][i].kind == IDENT && ps[1..][i + 1].kind == IDENT
      ensures gaps[1..][i] != ""
    {
      assert ps[i + 1] == ps[1..][i] && ps[i + 2] == ps[1..][i + 1];
    }
  }

  /** The first token is read off, and what is left is read behind its gap. */
  lemma FirstIsLexed(ps: seq<Token>, gaps: seq<string>, col: nat)
    requires ps != [] && (forall p <- ps :: PieceOk(p)) && Separated(ps, gaps)
    ensures var rest := Lex(Written(ps[1..], gaps[1..]), col + |Spelling(ps[0])| + |gaps[0]|);
            rest.Tokens? ==>
              Lex(Written(ps, gaps), col) == Tokens([Token(ps[0].kind, ps[0].text, col)] + rest.toks)
  {
    hide Scan, Spelling, MayFollow, Separated, PieceOk;
    SeparatedRest(ps, gaps);
    var p, gap := ps[0], gaps[0];
    var rest := Written(ps[1..], gaps[1..]);
    assert p in ps;
    GapMayFollow(ps, gaps);
    PieceIsScanned(p, gap + rest, col);
    var s, n := Written(ps, gaps), |Spelling(p)|;
    assert s[n..] == gap + rest;
    BlankIsSkipped(gap, rest, col + n);
    SpelledFirst(p, gap + rest);
  }

  /** Where the i-th token, or what follows the last one, is written. */
  function Column(ps: seq<Token>, gaps: seq<string>, col: nat, i: nat): nat
    requires |gaps| == |ps| && i <= |ps|
  {
    col + |Written(ps[..i], gaps[..i])|
  }

  lemma ColumnOfRest(ps: seq<Token>, gaps: seq<string>, col: nat, i: nat)
    requires |gaps| == |ps| && 0 < i <= |ps|
    ensures Column(ps, gaps, col, i) == Column(ps[1..], gaps[1..], col + |Spelling(ps[0])| + |gaps[0]|, i - 1)
  {
    hide Spelling;
    assert ps[..i][1..] == ps[1..][..i - 1] && gaps[..i][1..] == gaps[1..][..i - 1];
  }

  lemma ColumnOfFirst(ps: seq<Token>, gaps: seq<string>, col: nat)
    requires |gaps| == |ps|
    ensures Column(ps, gaps, col, 0) == col
  {
  }

  /** Written-out tokens lex back to themselves, followed by the end token, whatever the white space
      between them, and each carries the column at which it was written. */
  lemma {:induction false} SpellingIsLexed(ps: seq<Token>, gaps: seq<string>, col: nat)
    requires (forall p <- ps :: PieceOk(p)) && Separated(ps, gaps)
    ensures Lex(Written(ps, gaps), col).Tokens?
    ensures var ts := Lex(Written(ps, gaps), col).toks;
            Starts(ts, ps) && |ts| == |ps| + 1 && ts[|ps|].kind == EOF &&
            forall i | 0 <= i <= |ps| :: ts[i].col == Column(ps, gaps, col, i)
  {
    hide Scan, Spelling, Separated, PieceOk, Lex, Column, Written;
    SeparatedLength(ps, gaps);
    ColumnOfFirst(ps, gaps, col);
    if ps == [] {
      NothingIsWritten(ps, gaps);
      NothingIsLexed(col);
    } else {
      SeparatedRest(ps, gaps);
      FirstIsLexed(ps, gaps, col);
      var next := col + |Spelling(ps[0])| + |gaps[0]|;
      SpellingIsLexed(ps[1..], gaps[1..], next);
      var ts := Lex(Written(ps, gaps), col).toks;
      forall i | 0 < i <= |ps| ensures ts[i].col == Column(ps, gaps, col, i) {
        ColumnOfRest(ps, gaps, col, i);
      }
    }
  }

  lemma NothingIsWritten(ps: seq<Token>, gaps: seq<string>)
    requires ps == [] && gaps == []
    ensures Written(ps, gaps) == ""
  {
  }

  lemma SeparatedLength(ps: seq<Token>, gaps: seq<string>)
    requires Separated(ps, gaps)
    ensures |gaps| == |ps|
  {
  }

  lemma NothingIsLexed(col: nat)
    ensures Lex("", col) == Tokens([Token(EOF, "", col)])
  {
  }

  lemma SpelledFirst(p: Token, rest: string)
    requires PieceOk(p)
    ensures Spelling(p) + rest != ""
  {
    FirstCharacter(p, rest);
  }
}

/** From the parser's tree to a filter and a free-text search: what the last pass of the
    parser produces, and that it keeps the meaning of what was typed. */
module Finalize {
  import opened Text
  import opened Lexer
  import opened Grammar
  import F = Filter

  datatype ParseResult =
    | Accepted(filter: Option<F.Node>, search: string, warnings: seq<Warning>)
    | Rejected(col: nat, msg: Msg)

  // ------------------------------------------------------- specification

  /** The factors of a top-level conjunction; any other root is one factor. */
  function TopFactors(root: PNode): seq<PNode> {
    if root.PGroup? && root.op == F.And && !root.not && root.flat then root.children else [root]
  }

  function TopTerms(cs: seq<PNode>): seq<string> {
    if cs == [] then [] else (if cs[0].PTerm? then [cs[0].value] else []) + TopTerms(cs[1..])
  }

  function KeptFactors(cs: seq<PNode>): seq<PNode> {
    if cs == [] then [] else (if cs[0].PTerm? then [] else [cs[0]]) + KeptFactors(cs[1..])
  }

  function TermLeaf(value: string): F.Leaf {
    MakeLeaf("message", F.Contains, F.Str(value))
  }

  /** Nested free text becomes a `message contains` leaf. */
  function ConvertTerms(n: PNode): PNode
    decreases n
  {
    match n
    case PGroup(op, not, cs, _) => PGroup(op, not, ConvertAll(cs), false)
    case PTerm(v) => PLeaf(TermLeaf(v))
    case PLeaf(_) => n
  }

  function ConvertAll(cs: seq<PNode>): (r: seq<PNode>)
    ensures |r| == |cs|
    decreases cs
  {
    if cs == [] then [] else [ConvertTerms(cs[0])] + ConvertAll(cs[1..])
  }

  /** One warning for each converted term, in source order. */
  function TermWarnings(cs: seq<PNode>): seq<Warning>
    decreases cs
  {
    if cs == [] then []
    else
      (match cs[0]
       case PGroup(_, _, inner, _) => TermWarnings(inner)
       case PTerm(v) => [ConvertedTerm(v)]
       case PLeaf(_) => []) + TermWarnings(cs[1..])
  }

  function CompileTree(n: PNode): F.Node
    decreases n
  {
    match n
    case PLeaf(l) => F.Pred(l)
    case PGroup(op, not, cs, _) => F.Group(op, not, CompileNodes(cs))
    case PTerm(v) => F.Pred(TermLeaf(v))
  }

  function CompileNodes(cs: seq<PNode>): (r: seq<F.Node>)
    ensures |r| == |cs|
    decreases cs
  {
    if cs == [] then [] else [CompileTree(cs[0])] + CompileNodes(cs[1..])
  }

  function FinalFilter(root: PNode): Option<F.Node> {
    var keep := KeptFactors(TopFactors(root));
    if keep == [] then None else Some(F.Group(F.And, false, CompileNodes(ConvertAll(keep))))
  }

  function FinalSearch(root: PNode): string {
    Join(TopTerms(TopFactors(root)), " ")
  }

  function ParseText(env: Env, input: string): ParseResult {
    LexIsWellFormed(input, 1);
    match Lex(input, 1)
    case LexError(col, msg) => Rejected(col, Lexical(msg))
    case Tokens(toks) =>
      if toks[0].kind == EOF then Accepted(None, "", [])
      else match Disjunction(env, toks)
        case Err(c, m) => Rejected(c, m)
        case Ok(root, rest, ws) =>
          if rest[0].kind != EOF then Rejected(rest[0].col, Unexpected(rest[0]))
          else Accepted(FinalFilter(root), FinalSearch(root), ws + TermWarnings(KeptFactors(TopFactors(root))))
  }
}

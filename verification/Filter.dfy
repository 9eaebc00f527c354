/** The canonical filter tree and its legality check. */
module Filter {

  const MAX_FILTER_DEPTH := 32
  const ATTRIBUTE_PREFIX := "attributes."

  /** A value as it sits in a leaf: decoded from JSON or produced by the parser. */
  datatype Value = Null | Str(s: string) | Int(n: int) | Real(r: real) | Bool(b: bool) | List(items: seq<Value>)

  datatype Op = Eq | Neq | In | NotIn | Contains | StartsWith | Gt | Lt | Gte | Lte | Exists | UnknownOp(name: string)

  datatype GroupOp = And | Or | UnknownGroupOp(name: string)

  datatype Leaf = Leaf(field: string, op: Op, value: Value, caseSensitive: bool)

  datatype Node = Group(op: GroupOp, not: bool, children: seq<Node>) | Pred(leaf: Leaf)

  predicate IsAttr(field: string) {
    ATTRIBUTE_PREFIX <= field
  }

  function AttrPath(field: string): string
    requires IsAttr(field)
  {
    field[|ATTRIBUTE_PREFIX|..]
  }

  predicate IsCore(field: string) {
    field in {"timestamp", "service", "level", "message", "host", "source", "raw"}
  }

  predicate IsRangeOp(op: Op) {
    op == Gt || op == Lt || op == Gte || op == Lte
  }

  datatype Verdict = Legal | TooDeep | Illegal

  function ValidateLeaf(l: Leaf): Verdict {
    if l.field == "" then Illegal
    else match l.op
      case Eq | Neq | Contains | StartsWith | Gt | Lt | Gte | Lte => if l.value == Null then Illegal else Legal
      case In | NotIn => if l.value.List? && l.value.items != [] then Legal else Illegal
      case Exists => Legal
      case UnknownOp(_) => Illegal
  }

  function ValidateAt(n: Node, depth: nat): Verdict
    decreases n
  {
    match n
    case Group(op, not, children) =>
      if depth > MAX_FILTER_DEPTH then TooDeep
      else if op.UnknownGroupOp? || children == [] then Illegal
      else ValidateAll(children, depth + 1)
    case Pred(l) => ValidateLeaf(l)
  }

  function ValidateAll(cs: seq<Node>, depth: nat): Verdict
    decreases cs
  {
    if cs == [] then Legal
    else
      var v := ValidateAt(cs[0], depth);
      if v != Legal then v else ValidateAll(cs[1..], depth)
  }

  function Validate(n: Node): Verdict {
    ValidateAt(n, 1)
  }

  /** A condition names a field and a known operator; comparisons need a value, memberships a list that
      is not empty, and the test for existence nothing. */
  predicate WellFormedLeaf(l: Leaf) {
    l.field != "" && !l.op.UnknownOp? &&
    (l.op != Exists && l.op != In && l.op != NotIn ==> l.value != Null) &&
    (l.op == In || l.op == NotIn ==> l.value.List? && |l.value.items| > 0)
  }

  /** Legal in every respect but depth. */
  ghost predicate WellFormed(n: Node) {
    match n
    case Group(op, _, children) =>
      !op.UnknownGroupOp? && children != [] && forall c <- children :: WellFormed(c)
    case Pred(l) => WellFormedLeaf(l)
  }

  /** Nesting depth of groups. */
  ghost function Depth(n: Node): nat
    decreases n
  {
    match n
    case Group(_, _, children) => 1 + DepthAll(children)
    case Pred(_) => 0
  }

  ghost function DepthAll(cs: seq<Node>): nat
    decreases cs
  {
    if cs == [] then 0
    else if Depth(cs[0]) >= DepthAll(cs[1..]) then Depth(cs[0]) else DepthAll(cs[1..])
  }

  /** Validation accepts exactly the well-formed trees within the depth limit. */
  lemma {:induction false} ValidateIsExact(n: Node)
    ensures Validate(n) == Legal <==> WellFormed(n) && Depth(n) <= 32
    ensures WellFormed(n) && Depth(n) > 32 ==> Validate(n) == TooDeep
  {
    ValidateAtIsExact(n, 1);
  }

  lemma {:induction false} ValidateAtIsExact(n: Node, depth: nat)
    requires depth >= 1
    ensures ValidateAt(n, depth) == Legal <==>
            WellFormed(n) && (Depth(n) > 0 ==> depth + Depth(n) <= MAX_FILTER_DEPTH + 1)
    ensures WellFormed(n) && !(Depth(n) > 0 ==> depth + Depth(n) <= MAX_FILTER_DEPTH + 1) ==>
              ValidateAt(n, depth) == TooDeep
    decreases n
  {
    if n.Group? {
      ValidateAllIsExact(n.children, depth + 1);
    }
  }

  lemma {:induction false} ValidateAllIsExact(cs: seq<Node>, depth: nat)
    requires depth >= 1
    ensures ValidateAll(cs, depth) == Legal <==>
            (forall c <- cs :: WellFormed(c)) && (DepthAll(cs) > 0 ==> depth + DepthAll(cs) <= MAX_FILTER_DEPTH + 1)
    ensures (forall c <- cs :: WellFormed(c)) &&
            !(DepthAll(cs) > 0 ==> depth + DepthAll(cs) <= MAX_FILTER_DEPTH + 1) ==>
              ValidateAll(cs, depth) == TooDeep
    decreases cs
  {
    if cs != [] {
      ValidateAtIsExact(cs[0], depth);
      ValidateAllIsExact(cs[1..], depth);
      assert forall c <- cs :: c == cs[0] || c in cs[1..];
    }
  }

  /** What is wrong with a node itself. */
  ghost function OwnFault(n: Node, depth: nat): Verdict {
    match n
    case Group(op, _, children) =>
      if depth > MAX_FILTER_DEPTH then TooDeep else if op.UnknownGroupOp? || children == [] then Illegal else Legal
    case Pred(l) => ValidateLeaf(l)
  }

  /** The same for every node of a tree, a parent before its children and these in order. */
  ghost function Faults(n: Node, depth: nat): seq<Verdict>
    decreases n
  {
    [OwnFault(n, depth)] + match n case Group(_, _, children) => FaultsAll(children, depth + 1) case Pred(_) => []
  }

  ghost function FaultsAll(cs: seq<Node>, depth: nat): seq<Verdict>
    decreases cs
  {
    if cs == [] then [] else Faults(cs[0], depth) + FaultsAll(cs[1..], depth)
  }

  ghost function FirstFault(vs: seq<Verdict>): Verdict {
    if vs == [] then Legal else if vs[0] != Legal then vs[0] else FirstFault(vs[1..])
  }

  lemma {:induction false} FirstFaultSplit(a: seq<Verdict>, b: seq<Verdict>)
    ensures FirstFault(a + b) == if FirstFault(a) != Legal then FirstFault(a) else FirstFault(b)
    ensures FirstFault(a) != Legal ==> FirstFault(a) in a
  {
    if a == [] {
      assert a + b == b;
    } else {
      assert (a + b)[1..] == a[1..] + b;
      FirstFaultSplit(a[1..], b);
    }
  }

  /** The verdict is the first fault met. So a tree called too deep is too deep and one called illegal
      is ill-formed, but a tree that is both is called by whichever comes first. */
  lemma {:induction false} VerdictIsFirstFault(n: Node)
    ensures Validate(n) == FirstFault(Faults(n, 1))
    ensures Validate(n) == TooDeep ==> Depth(n) > MAX_FILTER_DEPTH
    ensures Validate(n) == Illegal ==> !WellFormed(n)
  {
    VerdictAt(n, 1);
  }

  lemma {:induction false} VerdictAt(n: Node, depth: nat)
    requires depth >= 1
    ensures ValidateAt(n, depth) == FirstFault(Faults(n, depth))
    ensures ValidateAt(n, depth) == TooDeep ==> depth + Depth(n) > MAX_FILTER_DEPTH + 1 && Depth(n) > 0
    ensures ValidateAt(n, depth) == Illegal ==> !WellFormed(n)
    decreases n
  {
    if n.Group? {
      VerdictAll(n.children, depth + 1);
    }
    FirstFaultSplit([OwnFault(n, depth)],
                    match n case Group(_, _, children) => FaultsAll(children, depth + 1) case Pred(_) => []);
    assert FirstFault([OwnFault(n, depth)]) == OwnFault(n, depth);
  }

  lemma {:induction false} VerdictAll(cs: seq<Node>, depth: nat)
    requires depth >= 1
    ensures ValidateAll(cs, depth) == FirstFault(FaultsAll(cs, depth))
    ensures ValidateAll(cs, depth) == TooDeep ==> depth + DepthAll(cs) > MAX_FILTER_DEPTH + 1 && DepthAll(cs) > 0
    ensures ValidateAll(cs, depth) == Illegal ==> exists c <- cs :: !WellFormed(c)
    decreases cs
  {
    if cs != [] {
      VerdictAt(cs[0], depth);
      VerdictAll(cs[1..], depth);
      FirstFaultSplit(Faults(cs[0], depth), FaultsAll(cs[1..], depth));
    }
  }

  /** Such a tree: the order of a deep child and an ill-formed one decides. */
  lemma TheFirstFaultDecides(deep: Node, ill: Leaf)
    requires WellFormed(deep) && Depth(deep) >= MAX_FILTER_DEPTH && !WellFormedLeaf(ill)
    ensures Validate(Group(And, false, [deep, Pred(ill)])) == TooDeep &&
            Validate(Group(And, false, [Pred(ill), deep])) == Illegal
  {
    ValidateAtIsExact(deep, 2);
    var one, other := [deep, Pred(ill)], [Pred(ill), deep];
    assert one[0] == deep && other[0] == Pred(ill);
    assert ValidateAll(one, 2) == TooDeep && ValidateAt(Pred(ill), 2) == Illegal;
    assert ValidateAll(other, 2) == Illegal;
    assert ValidateAt(Group(And, false, one), 1) == ValidateAll(one, 2) &&
           ValidateAt(Group(And, false, other), 1) == ValidateAll(other, 2);
  }
}

/** Which local segments retention gives up, and how. */
module RetentionPolicy {
  import opened Text
  import opened SegmentCatalog

  datatype Policy = Policy(maxAge: int, maxSize: int, protectedWindow: int, archiveBeforeDelete: bool,
                           backendActive: bool)

  datatype Verb = Delete | ArchiveFirst

  /** The verb for a selected segment and the state it is in afterwards. */
  function Decide(p: Policy, r: Row): (Verb, State) {
    var archived := r.s3Url.Some? || r.archiveRef.Some? || r.state == Archived;
    match r.state
    case Sealed =>
      if p.archiveBeforeDelete && p.backendActive && !archived then (ArchiveFirst, Sealed) else (Delete, Lost)
    case Archived => (Delete, Archived)
    case Rehydrated => (Delete, Archived)
    case _ => (Delete, Lost)
  }

  // ------------------------------------------------------------------------ plan

  datatype Listed = Listed(id: string, row: Row)

  datatype Reason = TooOld | TooMuch

  datatype Action = Action(id: string, reason: Reason, verb: Verb, next: State)

  const HOUR := 3_600_000_000_000

  function ProtectedWindow(p: Policy): int {
    if p.protectedWindow <= 0 then HOUR else p.protectedWindow
  }

  /** Freshly sealed segments are spared. */
  predicate Protected(p: Policy, now: int, r: Row) {
    r.state == Sealed && r.sealedAt.Some? && r.sealedAt.value > now - ProtectedWindow(p)
  }

  predicate TooOldFor(p: Policy, now: int, r: Row) {
    p.maxAge > 0 && r.timeEnd < now - p.maxAge
  }

  function TotalSize(segs: seq<Listed>): int {
    if segs == [] then 0 else TotalSize(segs[..|segs| - 1]) + segs[|segs| - 1].row.sizeBytes
  }

  /** The bytes held by the unprotected ones. */
  function Evictable(p: Policy, now: int, segs: seq<Listed>): int {
    if segs == [] then 0
    else
      var last := segs[|segs| - 1].row;
      Evictable(p, now, segs[..|segs| - 1]) + (if Protected(p, now, last) then 0 else last.sizeBytes)
  }

  predicate OldestFirst(segs: seq<Listed>) {
    forall i, j | 0 <= i < j < |segs| :: segs[i].row.timeEnd <= segs[j].row.timeEnd
  }

  predicate DistinctIds(segs: seq<Listed>) {
    forall i, j | 0 <= i < j < |segs| :: segs[i].id != segs[j].id
  }

  predicate NonNegativeSizes(segs: seq<Listed>) {
    forall s <- segs :: s.row.sizeBytes >= 0
  }

  function ActionFor(p: Policy, now: int, s: Listed): Action {
    Action(s.id, if TooOldFor(p, now, s.row) then TooOld else TooMuch, Decide(p, s.row).0, Decide(p, s.row).1)
  }

  /** The actions for the unprotected segments of a list. */
  function Actions(p: Policy, now: int, segs: seq<Listed>): seq<Action> {
    if segs == [] then []
    else
      var last := segs[|segs| - 1];
      Actions(p, now, segs[..|segs| - 1]) + (if Protected(p, now, last.row) then [] else [ActionFor(p, now, last)])
  }

  /** The plan is exact: it takes the unprotected segments of one prefix, the oldest. Every
      unprotected segment past the age limit is among them. What is kept fits the size limit, or
      nothing evictable is kept; and a segment taken only for size was needed, since without the
      older ones alone the total still exceeded the limit. */
  ghost predicate ExactPlan(p: Policy, now: int, segs: seq<Listed>, actions: seq<Action>, cut: nat) {
    cut <= |segs| && actions == Actions(p, now, segs[..cut]) &&
    (forall i | 0 <= i < |segs| && TooOldFor(p, now, segs[i].row) && !Protected(p, now, segs[i].row) :: i < cut) &&
    (p.maxSize > 0 && NonNegativeSizes(segs) ==>
      TotalSize(segs) - Evictable(p, now, segs[..cut]) <= p.maxSize || cut == |segs|) &&
    (forall i | 0 <= i < cut && !Protected(p, now, segs[i].row) && !TooOldFor(p, now, segs[i].row) ::
      p.maxSize > 0 && TotalSize(segs) - Evictable(p, now, segs[..i]) > p.maxSize)
  }

  /** The protected window in effect: an hour unless the policy sets one. */
  function Spared(p: Policy, now: int, r: Row): bool {
    var window := if p.protectedWindow <= 0 then 60 * 60_000_000_000 else p.protectedWindow;
    r.state == Sealed && r.sealedAt.Some? && r.sealedAt.value > now - window
  }

  function PastAge(p: Policy, now: int, r: Row): bool {
    p.maxAge > 0 && r.timeEnd < now - p.maxAge
  }

  lemma {:induction false} ActionsAreFor(p: Policy, now: int, segs: seq<Listed>)
    ensures forall a <- Actions(p, now, segs) :: exists s <- segs :: !Spared(p, now, s.row) && a == ActionFor(p, now, s)
    ensures forall s <- segs :: !Spared(p, now, s.row) ==> ActionFor(p, now, s) in Actions(p, now, segs)
  {
    hide ActionFor;
    if segs != [] {
      var n := |segs| - 1;
      ActionsAreFor(p, now, segs[..n]);
      assert segs == segs[..n] + [segs[n]];
      assert forall s <- segs[..n] :: s in segs;
      assert segs[n] in segs;
      forall a | a in Actions(p, now, segs)
        ensures exists s <- segs :: !Spared(p, now, s.row) && a == ActionFor(p, now, s)
      {
        if a in Actions(p, now, segs[..n]) {
          var s :| s in segs[..n] && !Spared(p, now, s.row) && a == ActionFor(p, now, s);
        }
      }
    }
  }

  /** What an exact plan takes, said outright: only listed segments that are not freshly sealed, each for
      its age or for the space and with the verb its row calls for; and of those past the age limit all. */
  lemma PlanSaysWhy(p: Policy, now: int, segs: seq<Listed>, actions: seq<Action>, cut: nat)
    requires ExactPlan(p, now, segs, actions, cut)
    ensures forall a <- actions ::
              exists s <- segs ::
                s.id == a.id && !Spared(p, now, s.row) && (a.reason == TooOld <==> PastAge(p, now, s.row)) &&
                (a.verb == ArchiveFirst <==>
                 p.archiveBeforeDelete && p.backendActive && s.row.state == Sealed && s.row.s3Url.None? &&
                 s.row.archiveRef.None?) &&
                (a.verb == Delete ==> a.next == if s.row.state in {Archived, Rehydrated} then Archived else Lost)
    ensures forall s <- segs :: PastAge(p, now, s.row) && !Spared(p, now, s.row) ==>
              exists a <- actions :: a.id == s.id && a.reason == TooOld
  {
    hide Actions, Evictable, TotalSize;
    ActionsAreFor(p, now, segs[..cut]);
    forall a | a in actions
      ensures exists s <- segs ::
                s.id == a.id && !Spared(p, now, s.row) && (a.reason == TooOld <==> PastAge(p, now, s.row)) &&
                (a.verb == ArchiveFirst <==>
                 p.archiveBeforeDelete && p.backendActive && s.row.state == Sealed && s.row.s3Url.None? &&
                 s.row.archiveRef.None?) &&
                (a.verb == Delete ==> a.next == if s.row.state in {Archived, Rehydrated} then Archived else Lost)
    {
      var s :| s in segs[..cut] && !Spared(p, now, s.row) && a == ActionFor(p, now, s);
      assert s in segs;
    }
    forall s | s in segs && PastAge(p, now, s.row) && !Spared(p, now, s.row)
      ensures exists a <- actions :: a.id == s.id && a.reason == TooOld
    {
      var i :| 0 <= i < |segs| && segs[i] == s;
      assert TooOldFor(p, now, segs[i].row) && !Protected(p, now, segs[i].row);
      assert segs[..cut][i] == s;
      assert ActionFor(p, now, s) in actions;
    }
  }

  method Plan(p: Policy, now: int, segs: seq<Listed>) returns (actions: seq<Action>, ghost cut: nat)
    requires OldestFirst(segs) && DistinctIds(segs)
    ensures ExactPlan(p, now, segs, actions, cut)
    ensures p.maxAge <= 0 && p.maxSize <= 0 ==> actions == []
  {
    hide Marks, DistinctIds, OldestFirst, Protected, Evictable;
    var selected; ghost var aged;
    selected, aged := MarkAged(p, now, segs);
    ghost var sized: nat := 0;
    if p.maxSize > 0 {
      var total := Total(segs);
      if total > p.maxSize {
        selected, sized := SelectBySize(p, now, segs, total, selected, aged);
      } else {
        NothingEvicted(p, now, segs);
      }
    }
    cut := if aged >= sized then aged else sized;
    actions := Collect(p, now, segs, selected, aged, sized);
    if NonNegativeSizes(segs) {
      CutFits(p, now, segs, sized, cut);
    }
    assert cut == 0 ==> segs[..cut] == [];
  }

  lemma NothingEvicted(p: Policy, now: int, segs: seq<Listed>)
    ensures Evictable(p, now, segs[..0]) == 0
  {
  }

  /** Everything past the age limit is marked; listed oldest first, that is a prefix. */
  method MarkAged(p: Policy, now: int, segs: seq<Listed>) returns (selected: map<string, Reason>, ghost aged: nat)
    requires OldestFirst(segs) && DistinctIds(segs)
    ensures aged <= |segs| && Marks(p, now, segs, aged, 0, selected)
    ensures forall j | 0 <= j < |segs| :: TooOldFor(p, now, segs[j].row) <==> j < aged
  {
    hide Protected;
    selected, aged := map[], 0;
    for i := 0 to |segs|
      invariant aged <= i
      invariant forall j | 0 <= j < i :: TooOldFor(p, now, segs[j].row) <==> j < aged
      invariant forall j | 0 <= j < aged && !Protected(p, now, segs[j].row) ::
                  segs[j].id in selected && selected[segs[j].id] == TooOld
      invariant forall id | id in selected ::
                  exists j :: 0 <= j < aged && segs[j].id == id && !Protected(p, now, segs[j].row)
    {
      if TooOldFor(p, now, segs[i].row) {
        if !Protected(p, now, segs[i].row) {
          selected := selected[segs[i].id := TooOld];
        }
        aged := i + 1;
      }
    }
  }

  method Total(segs: seq<Listed>) returns (total: int)
    ensures total == TotalSize(segs)
  {
    total := 0;
    for i := 0 to |segs|
      invariant total == TotalSize(segs[..i])
    {
      assert segs[..i + 1][..i] == segs[..i];
      total := total + segs[i].row.sizeBytes;
    }
    assert segs[..|segs|] == segs;
  }

  /** Actions in listing order for what was selected. */
  method Collect(p: Policy, now: int, segs: seq<Listed>, selected: map<string, Reason>, ghost aged: nat,
                 ghost sized: nat)
    returns (actions: seq<Action>)
    requires DistinctIds(segs) && aged <= |segs| && sized <= |segs| && Marks(p, now, segs, aged, sized, selected)
    requires forall j | 0 <= j < |segs| :: TooOldFor(p, now, segs[j].row) <==> j < aged
    ensures actions == Actions(p, now, segs[..if aged >= sized then aged else sized])
  {
    hide Protected, Marks, DistinctIds, TooOldFor;
    ghost var cut := if aged >= sized then aged else sized;
    actions := [];
    for i := 0 to |segs|
      invariant actions == Actions(p, now, segs[..if i <= cut then i else cut])
    {
      MarkedExactly(p, now, segs, aged, sized, selected, i);
      if segs[i].id in selected {
        var verb := Decide(p, segs[i].row);
        actions := actions + [Action(segs[i].id, selected[segs[i].id], verb.0, verb.1)];
      }
      assert i < cut ==> segs[..i + 1][..i] == segs[..i];
    }
  }

  /** selected holds exactly the unprotected ones of the two prefixes, with the reason of each. */
  ghost predicate Marks(p: Policy, now: int, segs: seq<Listed>, aged: nat, sized: nat, selected: map<string, Reason>) {
    (forall j | 0 <= j < |segs| && !Protected(p, now, segs[j].row) && (j < aged || j < sized) ::
      segs[j].id in selected && selected[segs[j].id] == if j < aged then TooOld else TooMuch) &&
    (forall id | id in selected ::
      exists j :: 0 <= j < |segs| && segs[j].id == id && !Protected(p, now, segs[j].row) && (j < aged || j < sized))
  }

  /** Taking the oldest unprotected segments until the excess is gone. */
  method SelectBySize(p: Policy, now: int, segs: seq<Listed>, total: int, before: map<string, Reason>, ghost aged: nat)
    returns (selected: map<string, Reason>, ghost sized: nat)
    requires DistinctIds(segs) && aged <= |segs| && total == TotalSize(segs) && total > p.maxSize > 0
    requires Marks(p, now, segs, aged, 0, before)
    ensures sized <= |segs| && Marks(p, now, segs, aged, sized, selected)
    ensures total - Evictable(p, now, segs[..sized]) <= p.maxSize || sized == |segs|
    ensures forall i | 0 <= i < sized :: total - Evictable(p, now, segs[..i]) > p.maxSize
  {
    hide Marks, DistinctIds, Protected, Evictable;
    selected := before;
    var over := total - p.maxSize;
    var i := 0;
    NothingEvicted(p, now, segs);
    while i < |segs| && over > 0
      invariant 0 <= i <= |segs| && Marks(p, now, segs, aged, i, selected)
      invariant over == total - p.maxSize - Evictable(p, now, segs[..i])
      invariant forall j | 0 <= j < i :: total - Evictable(p, now, segs[..j]) > p.maxSize
    {
      OneMoreEvictable(p, now, segs, i);
      ghost var was := selected;
      if !Protected(p, now, segs[i].row) {
        if segs[i].id !in selected {
          selected := selected[segs[i].id := TooMuch];
        }
        over := over - segs[i].row.sizeBytes;
      }
      OneMoreMark(p, now, segs, aged, i, was, selected);
      i := i + 1;
    }
    sized := i;
  }

  lemma OneMoreEvictable(p: Policy, now: int, segs: seq<Listed>, i: nat)
    requires i < |segs|
    ensures Evictable(p, now, segs[..i + 1]) ==
              Evictable(p, now, segs[..i]) + (if Protected(p, now, segs[i].row) then 0 else segs[i].row.sizeBytes)
  {
    hide Protected;
    assert segs[..i + 1][..i] == segs[..i];
  }

  lemma OneMoreMark(p: Policy, now: int, segs: seq<Listed>, aged: nat, i: nat, was: map<string, Reason>,
                    selected: map<string, Reason>)
    requires DistinctIds(segs) && i < |segs| && Marks(p, now, segs, aged, i, was)
    requires selected == if Protected(p, now, segs[i].row) || segs[i].id in was then was else was[segs[i].id := TooMuch]
    ensures Marks(p, now, segs, aged, i + 1, selected)
  {
    hide Protected;
    MarkedExactly(p, now, segs, aged, i, was, i);
    forall id | id in selected
      ensures exists j ::
                0 <= j < |segs| && segs[j].id == id && !Protected(p, now, segs[j].row) && (j < aged || j < i + 1)
    {
      if id in was {
        var j :| 0 <= j < |segs| && segs[j].id == id && !Protected(p, now, segs[j].row) && (j < aged || j < i);
      }
    }
  }

  lemma MarkedExactly(p: Policy, now: int, segs: seq<Listed>, aged: nat, sized: nat, selected: map<string, Reason>,
                      i: nat)
    requires DistinctIds(segs) && i < |segs| && Marks(p, now, segs, aged, sized, selected)
    ensures segs[i].id in selected <==> !Protected(p, now, segs[i].row) && (i < aged || i < sized)
    ensures segs[i].id in selected ==> selected[segs[i].id] == if i < aged then TooOld else TooMuch
  {
    hide Protected;
    if segs[i].id in selected {
      var j :| 0 <= j < |segs| && segs[j].id == segs[i].id && !Protected(p, now, segs[j].row) &&
        (j < aged || j < sized);
      assert j == i;
    }
  }

  /** Taking more than the size limit asks for keeps within it. */
  lemma {:induction false} CutFits(p: Policy, now: int, segs: seq<Listed>, sized: nat, cut: nat)
    requires sized <= cut <= |segs| && NonNegativeSizes(segs)
    ensures Evictable(p, now, segs[..sized]) <= Evictable(p, now, segs[..cut])
    decreases cut
  {
    if sized < cut {
      assert segs[..cut][..cut - 1] == segs[..cut - 1];
      assert segs[cut - 1] in segs;
      CutFits(p, now, segs, sized, cut - 1);
    }
  }
}

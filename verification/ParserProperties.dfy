/** What every accepted search-bar input is guaranteed: a legal filter with the meaning
    that was typed, and, for every rejected one, a column inside the input. */
module ParserProperties {
  import opened Text
  import opened Lexer
  import opened Grammar
  import opened Finalize
  import opened Events
  import opened Matcher
  import opened Compiler
  import F = Filter

  // ------------------------------------------------------------------- meaning

  /** The meaning of a parsed tree, free text being read as "the message contains it". */
  predicate Means(env: Env, n: PNode, ev: Event)
    decreases n
  {
    match n
    case PLeaf(l) => MatchLeaf(env, l, ev)
    case PTerm(v) => MatchLeaf(env, TermLeaf(v), ev)
    case PGroup(op, not, cs, _) =>
      cs == [] || (if op == F.Or then AnyMeans(env, cs, ev) else AllMean(env, cs, ev)) != not
  }

  predicate AllMean(env: Env, cs: seq<PNode>, ev: Event)
    decreases cs
  {
    cs == [] || (Means(env, cs[0], ev) && AllMean(env, cs[1..], ev))
  }

  predicate AnyMeans(env: Env, cs: seq<PNode>, ev: Event)
    decreases cs
  {
    cs != [] && (Means(env, cs[0], ev) || AnyMeans(env, cs[1..], ev))
  }

  /** Converting nested terms and compiling keeps the meaning of a tree. */
  lemma {:induction false} ConversionKeepsMeaning(env: Env, n: PNode, ev: Event)
    ensures Match(env, CompileTree(ConvertTerms(n)), ev) <==> Means(env, n, ev)
    decreases n
  {
    if n.PGroup? {
      ConversionsKeepMeaning(env, n.children, ev);
    }
  }

  lemma {:induction false} ConversionsKeepMeaning(env: Env, cs: seq<PNode>, ev: Event)
    ensures MatchAll(env, CompileNodes(ConvertAll(cs)), ev) <==> AllMean(env, cs, ev)
    ensures MatchAny(env, CompileNodes(ConvertAll(cs)), ev) <==> AnyMeans(env, cs, ev)
    decreases cs
  {
    if cs != [] {
      ConversionKeepsMeaning(env, cs[0], ev);
      ConversionsKeepMeaning(env, cs[1..], ev);
      assert ConvertAll(cs)[1..] == ConvertAll(cs[1..]);
      assert CompileNodes(ConvertAll(cs))[1..] == CompileNodes(ConvertAll(cs[1..]));
    }
  }

  predicate TermsFound(env: Env, terms: seq<string>, ev: Event) {
    forall v <- terms :: MatchLeaf(env, TermLeaf(v), ev)
  }

  lemma {:induction false} AllMeanSplit(env: Env, cs: seq<PNode>, ev: Event)
    ensures AllMean(env, cs, ev) <==> AllMean(env, KeptFactors(cs), ev) && TermsFound(env, TopTerms(cs), ev)
    decreases cs
  {
    hide MatchLeaf, TermLeaf;
    if cs != [] {
      AllMeanSplit(env, cs[1..], ev);
      if cs[0].PTerm? {
        assert AllMean(env, cs, ev) == (MatchLeaf(env, TermLeaf(cs[0].value), ev) && AllMean(env, cs[1..], ev));
        TermsFoundCons(env, cs[0].value, TopTerms(cs[1..]), ev);
        assert KeptFactors(cs) == KeptFactors(cs[1..]);
      } else {
        assert KeptFactors(cs) == [cs[0]] + KeptFactors(cs[1..]);
        assert KeptFactors(cs)[1..] == KeptFactors(cs[1..]);
        assert TopTerms(cs) == TopTerms(cs[1..]);
      }
    }
  }

  lemma TermsFoundCons(env: Env, v: string, vs: seq<string>, ev: Event)
    ensures TermsFound(env, [v] + vs, ev) <==> MatchLeaf(env, TermLeaf(v), ev) && TermsFound(env, vs, ev)
  {
    hide MatchLeaf, TermLeaf;
    assert ([v] + vs)[0] == v && forall w <- [v] + vs :: w == v || w in vs;
    assert forall w <- vs :: w in [v] + vs;
  }

  /** Main result on the last pass: what was typed holds of an event exactly when the returned
      filter matches it and every lifted term occurs in its message; no filter is returned
      exactly when everything typed was lifted. */
  lemma FinalizeKeepsMeaning(env: Env, root: PNode, ev: Event)
    requires ParserTree(root)
    ensures Means(env, root, ev) <==>
            (FinalFilter(root).Some? ==> Match(env, FinalFilter(root).value, ev)) &&
            TermsFound(env, TopTerms(TopFactors(root)), ev)
    ensures FinalFilter(root).None? <==> forall n <- TopFactors(root) :: n.PTerm?
  {
    hide MatchLeaf;
    var top := TopFactors(root);
    var keep := KeptFactors(top);
    assert AllMean(env, top, ev) == Means(env, root, ev) by {
      if top == [root] {
        assert top[1..] == [];
      }
    }
    AllMeanSplit(env, top, ev);
    ConversionsKeepMeaning(env, keep, ev);
    KeptNothing(top);
  }

  lemma {:induction false} KeptNothing(cs: seq<PNode>)
    ensures KeptFactors(cs) == [] <==> forall n <- cs :: n.PTerm?
  {
    if cs != [] {
      KeptNothing(cs[1..]);
      assert forall n <- cs :: n == cs[0] || n in cs[1..];
    }
  }

  lemma {:induction false} TermsSplit(a: seq<PNode>, b: seq<PNode>)
    ensures TopTerms(a + b) == TopTerms(a) + TopTerms(b)
  {
    if a == [] {
      assert a + b == b;
    } else {
      assert (a + b)[1..] == a[1..] + b;
      TermsSplit(a[1..], b);
    }
  }

  /** The lifted terms come in the order they were typed: each stands between those typed before it
      and those typed after it, nothing else is lifted, and what is not lifted is kept. */
  lemma TermsInSourceOrder(cs: seq<PNode>, p: nat)
    requires p < |cs|
    ensures TopTerms(cs) == TopTerms(cs[..p]) + (if cs[p].PTerm? then [cs[p].value] else []) + TopTerms(cs[p + 1..])
    ensures |TopTerms(cs)| + |KeptFactors(cs)| == |cs|
  {
    hide TopTerms, KeptFactors;
    SplitCount(cs);
    var before, here, after := cs[..p], [cs[p]], cs[p + 1..];
    OneFactor(cs[p]);
    assert cs == before + here + after;
    TermsSplit(before + here, after);
    TermsSplit(before, here);
  }

  lemma OneFactor(n: PNode)
    ensures TopTerms([n]) == if n.PTerm? then [n.value] else []
  {
    assert [n][1..] == [];
  }

  /** So a lifted term stands in the list of terms where the terms before it end. */
  lemma TermsKeepTheirOrder(cs: seq<PNode>, p: nat, q: nat)
    requires p < q < |cs| && cs[p].PTerm? && cs[q].PTerm?
    ensures |TopTerms(cs[..p])| < |TopTerms(cs[..q])| < |TopTerms(cs)|
    ensures TopTerms(cs)[|TopTerms(cs[..p])|] == cs[p].value && TopTerms(cs)[|TopTerms(cs[..q])|] == cs[q].value
  {
    TermAt(cs, p);
    TermAt(cs, q);
    TermAt(cs[..q], p);
    assert cs[..q][..p] == cs[..p];
  }

  lemma {:induction false} JoinAt(vs: seq<string>, k: nat)
    requires k < |vs|
    ensures Join(vs, " ") ==
              (if k == 0 then "" else Join(vs[..k], " ") + " ") + vs[k] +
                (if k + 1 == |vs| then "" else " " + Join(vs[k + 1..], " "))
  {
    if k > 0 {
      JoinAt(vs[1..], k - 1);
      assert vs[1..][k..] == vs[k + 1..] && vs[1..][..k - 1] == vs[..k][1..];
      if k > 1 {
        assert Join(vs[..k], " ") == vs[0] + " " + Join(vs[..k][1..], " ");
      }
    } else {
      assert vs[1..] == vs[k + 1..];
    }
  }

  /** The search text is the lifted terms joined by single spaces: around each of them stands the
      same for the factors before it and for those after it. */
  lemma SearchJoinsTerms(root: PNode, p: nat)
    requires p < |TopFactors(root)| && TopFactors(root)[p].PTerm?
    ensures var cs := TopFactors(root);
            var before, after := TopTerms(cs[..p]), TopTerms(cs[p + 1..]);
            FinalSearch(root) ==
            (if before == [] then "" else Join(before, " ") + " ") + cs[p].value +
              (if after == [] then "" else " " + Join(after, " "))
  {
    hide TopTerms, TopFactors, Join;
    var cs := TopFactors(root);
    TermsInSourceOrder(cs, p);
    JoinAround(TopTerms(cs[..p]), cs[p].value, TopTerms(cs[p + 1..]));
  }

  lemma JoinAround(before: seq<string>, v: string, after: seq<string>)
    ensures Join(before + [v] + after, " ") ==
            (if before == [] then "" else Join(before, " ") + " ") + v +
              (if after == [] then "" else " " + Join(after, " "))
  {
    hide Join;
    var all := before + [v] + after;
    assert all[..|before|] == before && all[|before| + 1..] == after && all[|before|] == v;
    JoinAt(all, |before|);
  }

  // --------------------------------------------------- how the search text is run

  /** A term with text in it and no white space around it. */
  predicate Tidy(env: Env, v: string) {
    v != "" && !env.space(v[0]) && !env.space(v[|v| - 1])
  }

  lemma TidyTrims(env: Env, s: string)
    requires Tidy(env, s)
    ensures TrimSpace(env, s) == s
  {
  }

  lemma OccursInside(t: string, a: string, s: string, b: string)
    requires Contains(t, a + s + b)
    ensures Contains(t, s)
  {
    ContainsMeansOccurs(t, a + s + b);
    var i :| 0 <= i <= |t| && a + s + b <= t[i..];
    assert |a + s + b| <= |t[i..]| && t[i..][..|a + s + b|] == a + s + b;
    assert t[i..][|a|..|a| + |s|] == s && t[i + |a|..] == t[i..][|a|..];
    assert s <= t[i + |a|..];
    ContainsMeansOccurs(t, s);
  }

  /** Each term occurs in a text, letter case aside. */
  predicate AllOccur(env: Env, vs: seq<string>, text: string) {
    forall v <- vs :: Contains(Lower(env, text), Lower(env, v))
  }

  lemma TermOccurs(env: Env, v: string, ev: Event)
    requires v != ""
    ensures MatchLeaf(env, TermLeaf(v), ev) <==> Contains(Lower(env, ev.message), Lower(env, v))
  {
    if ev.message == "" {
      ContainsMeansOccurs(Lower(env, ev.message), Lower(env, v));
    }
  }

  lemma TermsOccur(env: Env, vs: seq<string>, ev: Event)
    requires forall v <- vs :: v != ""
    ensures TermsFound(env, vs, ev) <==> AllOccur(env, vs, ev.message)
  {
    hide MatchLeaf, TermLeaf;
    forall v | v in vs ensures MatchLeaf(env, TermLeaf(v), ev) <==> Contains(Lower(env, ev.message), Lower(env, v)) {
      TermOccurs(env, v, ev);
    }
  }

  lemma TidyPhrase(env: Env, vs: seq<string>)
    requires vs != [] && forall v <- vs :: Tidy(env, v)
    ensures Tidy(env, Join(vs, " "))
  {
    JoinAt(vs, 0);
    JoinAt(vs, |vs| - 1);
    assert Tidy(env, vs[0]) && Tidy(env, vs[|vs| - 1]);
  }

  lemma PhraseHasTerms(env: Env, vs: seq<string>, text: string)
    requires Contains(Lower(env, text), Lower(env, Join(vs, " ")))
    ensures AllOccur(env, vs, text)
  {
    forall k | 0 <= k < |vs| ensures Contains(Lower(env, text), Lower(env, vs[k])) {
      JoinAt(vs, k);
      var a, b := if k == 0 then "" else Join(vs[..k], " ") + " ", if k + 1 == |vs| then ""
        else " " + Join(vs[k + 1..], " ");
      assert Join(vs, " ") == a + vs[k] + b;
      LowerConcat(env, a + vs[k], b);
      LowerConcat(env, a, vs[k]);
      OccursInside(Lower(env, text), Lower(env, a), Lower(env, vs[k]), Lower(env, b));
    }
  }

  lemma {:induction false} TrimLeftSplit(env: Env, s: string) returns (a: string)
    ensures s == a + TrimLeft(env, s) && forall c <- a :: env.space(c)
    ensures TrimLeft(env, s) == "" || !env.space(TrimLeft(env, s)[0])
  {
    a := "";
    if s != "" && env.space(s[0]) {
      a := TrimLeftSplit(env, s[1..]);
      assert s == [s[0]] + s[1..];
      a := [s[0]] + a;
    }
  }

  lemma {:induction false} TrimRightSplit(env: Env, s: string) returns (b: string)
    ensures s == TrimRight(env, s) + b && forall c <- b :: env.space(c)
    ensures TrimRight(env, s) == "" || !env.space(TrimRight(env, s)[|TrimRight(env, s)| - 1])
    ensures TrimRight(env, s) != "" ==> TrimRight(env, s)[0] == s[0]
  {
    b := "";
    if s != "" && env.space(s[|s| - 1]) {
      b := TrimRightSplit(env, s[..|s| - 1]);
      assert s == s[..|s| - 1] + [s[|s| - 1]];
      b := b + [s[|s| - 1]];
    }
  }

  /** Trimming takes white space off both sides and leaves a tidy text, or nothing. */
  lemma TrimSplit(env: Env, s: string) returns (a: string, b: string)
    ensures s == a + TrimSpace(env, s) + b && (forall c <- a :: env.space(c)) && forall c <- b :: env.space(c)
    ensures TrimSpace(env, s) == "" || Tidy(env, TrimSpace(env, s))
  {
    hide TrimLeft, TrimRight;
    a := TrimLeftSplit(env, s);
    b := TrimRightSplit(env, TrimLeft(env, s));
    AppendAssociates(a, TrimSpace(env, s), b);
  }

  lemma AppendAssociates(a: string, b: string, c: string)
    ensures a + (b + c) == a + b + c
  {
  }

  lemma {:induction false} TrimLeftKeeps(env: Env, a: string, w: string)
    requires w != "" && !env.space(w[0])
    ensures TrimLeft(env, a + w) == TrimLeft(env, a) + w
  {
    if a == "" {
      assert a + w == w;
    } else if env.space(a[0]) {
      assert (a + w)[1..] == a[1..] + w;
      TrimLeftKeeps(env, a[1..], w);
    }
  }

  lemma {:induction false} TrimRightKeeps(env: Env, w: string, b: string)
    requires w != "" && !env.space(w[|w| - 1])
    ensures TrimRight(env, w + b) == w + TrimRight(env, b)
  {
    if b == "" {
      assert w + b == w;
    } else if env.space(b[|b| - 1]) {
      assert (w + b)[..|w + b| - 1] == w + b[..|b| - 1];
      TrimRightKeeps(env, w, b[..|b| - 1]);
    }
  }

  /** A tidy text survives trimming what stands around it. */
  lemma TrimKeepsTidy(env: Env, a: string, w: string, b: string)
    requires Tidy(env, w)
    ensures TrimSpace(env, a + w + b) == TrimLeft(env, a) + w + TrimRight(env, b)
  {
    hide TrimLeft, TrimRight;
    var left := TrimLeft(env, a);
    assert a + w + b == a + (w + b);
    TrimLeftKeeps(env, a, w + b);
    assert left + (w + b) == (left + w) + b;
    TrimRightKeeps(env, left + w, b);
  }

  /** The terms without the white space around them. */
  function Trimmed(env: Env, vs: seq<string>): (r: seq<string>)
    ensures |r| == |vs| && forall i | 0 <= i < |vs| :: r[i] == TrimSpace(env, vs[i])
  {
    seq(|vs|, i requires 0 <= i < |vs| => TrimSpace(env, vs[i]))
  }

  lemma TrimmedPhraseHasTerms(env: Env, vs: seq<string>, text: string)
    requires Contains(Lower(env, text), Lower(env, TrimSpace(env, Join(vs, " "))))
    ensures AllOccur(env, Trimmed(env, vs), text)
  {
    hide TrimSpace, Join;
    forall k | 0 <= k < |vs| ensures Contains(Lower(env, text), Lower(env, TrimSpace(env, vs[k]))) {
      TrimmedTermOccurs(env, vs, k, text);
    }
  }

  lemma TrimmedTermOccurs(env: Env, vs: seq<string>, k: nat, text: string)
    requires k < |vs| && Contains(Lower(env, text), Lower(env, TrimSpace(env, Join(vs, " "))))
    ensures Contains(Lower(env, text), Lower(env, TrimSpace(env, vs[k])))
  {
    hide TrimSpace, Join, TrimLeft, TrimRight, Contains, Lower, Tidy;
    JoinAt(vs, k);
    var a := if k == 0 then "" else Join(vs[..k], " ") + " ";
    var b := if k + 1 == |vs| then "" else " " + Join(vs[k + 1..], " ");
    var w := TrimSpace(env, vs[k]);
    var c, d := TrimSplit(env, vs[k]);
    if w == "" {
      NothingOccurs(Lower(env, text));
      assert Lower(env, "") == "" by {
        NothingLowered(env);
      }
    } else {
      Regrouped(a, c, w, d, b);
      TrimKeepsTidy(env, a + c, w, d + b);
      OccursLowered(env, text, TrimLeft(env, a + c), w, TrimRight(env, d + b));
    }
  }

  lemma NothingLowered(env: Env)
    ensures Lower(env, "") == ""
  {
  }

  lemma Regrouped(a: string, c: string, w: string, d: string, b: string)
    ensures a + (c + w + d) + b == (a + c) + w + (d + b)
  {
  }

  lemma OccursLowered(env: Env, text: string, a: string, s: string, b: string)
    requires Contains(Lower(env, text), Lower(env, a + s + b))
    ensures Contains(Lower(env, text), Lower(env, s))
  {
    LowerConcat(env, a + s, b);
    LowerConcat(env, a, s);
    OccursInside(Lower(env, text), Lower(env, a), Lower(env, s), Lower(env, b));
  }

  /** The search text is looked up, white space around it taken off, as one phrase in the message or
      in the raw text. Without terms it asks for nothing; one term is found exactly when the message or
      the raw text has it; of several, finding the phrase means that all of them are in the message or
      all in the raw text. For terms without white space around them, being in the message is what
      was meant. */
  lemma SearchOfTerms(env: Env, root: PNode, ev: Event)
    ensures var vs := TopTerms(TopFactors(root));
            var found := AllOccur(env, Trimmed(env, vs), ev.message) || AllOccur(env, Trimmed(env, vs), ev.raw);
            (vs == [] ==> MatchSearch(env, FinalSearch(root), ev)) &&
            (|vs| == 1 ==> (MatchSearch(env, FinalSearch(root), ev) <==> found)) &&
            (MatchSearch(env, FinalSearch(root), ev) ==> found) &&
            ((forall v <- vs :: Tidy(env, v)) ==>
               (TermsFound(env, vs, ev) <==> AllOccur(env, Trimmed(env, vs), ev.message)))
  {
    hide MatchLeaf, TopTerms, TopFactors, TrimSpace, Join;
    var vs := TopTerms(TopFactors(root));
    var phrase := FinalSearch(root);
    if Contains(Lower(env, ev.message), Lower(env, TrimSpace(env, phrase))) {
      TrimmedPhraseHasTerms(env, vs, ev.message);
    }
    if Contains(Lower(env, ev.raw), Lower(env, TrimSpace(env, phrase))) {
      TrimmedPhraseHasTerms(env, vs, ev.raw);
    }
    NothingOccurs(Lower(env, ev.message));
    if vs == [] {
      NothingToTrim(env);
      NothingJoined();
    }
    if |vs| == 1 {
      OneJoined(vs);
      assert Trimmed(env, vs)[0] in Trimmed(env, vs);
    }
    if forall v <- vs :: Tidy(env, v) {
      TidyTermsOccur(env, vs, ev);
    }
  }

  lemma NothingJoined()
    ensures Join([], " ") == ""
  {
  }

  lemma OneJoined(vs: seq<string>)
    requires |vs| == 1
    ensures Join(vs, " ") == vs[0]
  {
  }

  lemma NothingOccurs(text: string)
    ensures Contains(text, "")
  {
  }

  lemma TidyTermsOccur(env: Env, vs: seq<string>, ev: Event)
    requires forall v <- vs :: Tidy(env, v)
    ensures TermsFound(env, vs, ev) <==> AllOccur(env, Trimmed(env, vs), ev.message)
  {
    hide TrimSpace, TermsFound;
    forall i | 0 <= i < |vs| ensures Trimmed(env, vs)[i] == vs[i] {
      TidyTrims(env, vs[i]);
    }
    assert Trimmed(env, vs) == vs;
    TermsOccur(env, vs, ev);
  }

  lemma NothingToTrim(env: Env)
    ensures TrimSpace(env, "") == ""
  {
  }

  lemma OccursAtFullLength(t: string, s: string)
    requires |t| == |s|
    ensures Contains(t, s) <==> t == s
  {
    ContainsMeansOccurs(t, s);
    if i :| 0 <= i <= |t| && s <= t[i..] {
      assert |t[i..]| == |t| - i;
      assert i == 0 && t[0..] == t;
    }
    if t == s {
      assert s <= t[0..];
    }
  }

  /** More than the phrase is meant: of two terms, a message that has them the other way round has
      both, but is found only if the two orders read the same. */
  lemma TwoTermsAreAPhrase(env: Env, root: PNode, a: string, b: string, ev: Event)
    requires TopTerms(TopFactors(root)) == [a, b] && Tidy(env, a) && Tidy(env, b)
    requires ev.message == b + " " + a && ev.raw == ev.message
    ensures TermsFound(env, [a, b], ev)
    ensures MatchSearch(env, FinalSearch(root), ev) <==> Lower(env, a + " " + b) == Lower(env, b + " " + a)
  {
    hide MatchLeaf, TrimSpace, TopTerms, TopFactors;
    assert Join([a, b], " ") == a + " " + b by {
      assert [a, b][1..] == [b];
    }
    TidyPhrase(env, [a, b]);
    TidyTrims(env, a + " " + b);
    OccursAtFullLength(Lower(env, ev.message), Lower(env, a + " " + b));
    assert Contains(Lower(env, ev.message), Lower(env, ev.message));
    assert Join([b, a], " ") == ev.message by {
      assert [b, a][1..] == [a];
    }
    PhraseHasTerms(env, [b, a], ev.message);
    assert [b, a][0] == b && [b, a][1] == a;
    assert AllOccur(env, [a, b], ev.message);
    TermsOccur(env, [a, b], ev);
  }

  lemma {:induction false} SplitCount(cs: seq<PNode>)
    ensures |TopTerms(cs)| + |KeptFactors(cs)| == |cs|
  {
    if cs != [] {
      SplitCount(cs[1..]);
    }
  }

  lemma {:induction false} TermAt(cs: seq<PNode>, p: nat)
    requires p < |cs| && cs[p].PTerm?
    ensures |TopTerms(cs[..p])| < |TopTerms(cs)| && TopTerms(cs)[|TopTerms(cs[..p])|] == cs[p].value
  {
    if p > 0 {
      TermAt(cs[1..], p - 1);
      assert cs[..p][1..] == cs[1..][..p - 1];
    } else {
      assert cs[..0] == [];
    }
  }

  // ------------------------------------------------------------------ legality

  lemma {:induction false} ConvertedIsWellFormed(n: PNode)
    requires ParserTree(n)
    ensures F.WellFormed(CompileTree(ConvertTerms(n)))
    decreases n
  {
    if n.PGroup? {
      ConvertedAreWellFormed(n.children);
    }
  }

  lemma {:induction false} ConvertedAreWellFormed(cs: seq<PNode>)
    requires forall c <- cs :: ParserTree(c)
    ensures forall c <- CompileNodes(ConvertAll(cs)) :: F.WellFormed(c)
    decreases cs
  {
    if cs != [] {
      ConvertedIsWellFormed(cs[0]);
      ConvertedAreWellFormed(cs[1..]);
      assert ConvertAll(cs)[1..] == ConvertAll(cs[1..]);
      assert CompileNodes(ConvertAll(cs)) == [CompileTree(ConvertTerms(cs[0]))] + CompileNodes(ConvertAll(cs[1..]));
    }
  }

  lemma {:induction false} KeptAreParserTrees(cs: seq<PNode>)
    requires forall c <- cs :: ParserTree(c)
    ensures forall c <- KeptFactors(cs) :: ParserTree(c)
  {
    if cs != [] {
      KeptAreParserTrees(cs[1..]);
      assert forall c <- KeptFactors(cs) :: c == cs[0] || c in KeptFactors(cs[1..]);
    }
  }

  lemma FinalFilterIsWellFormed(root: PNode)
    requires ParserTree(root) && FinalFilter(root).Some?
    ensures F.WellFormed(FinalFilter(root).value)
  {
    KeptAreParserTrees(TopFactors(root));
    ConvertedAreWellFormed(KeptFactors(TopFactors(root)));
  }

  /** Main result: the parser accepts or rejects, and a filter it returns passes validation
      unless it is too deep, which is the case exactly when it nests beyond the limit. */
  lemma ParsedFilterIsLegal(env: Env, input: string)
    requires ParseText(env, input).Accepted? && ParseText(env, input).filter.Some?
    ensures var f := ParseText(env, input).filter.value;
            F.Validate(f) == if F.Depth(f) <= F.MAX_FILTER_DEPTH then F.Legal else F.TooDeep
  {
    hide Disjunction, Lex, FinalFilter;
    var f := ParseText(env, input).filter.value;
    LexIsWellFormed(input, 1);
    FinalFilterIsWellFormed(Disjunction(env, Lex(input, 1).toks).val);
    F.ValidateIsExact(f);
  }

  /** Every rejection points into the input, or one past its end. */
  lemma RejectionPointsIntoInput(env: Env, input: string)
    requires ParseText(env, input).Rejected?
    ensures 1 <= ParseText(env, input).col <= |input| + 1
  {
    hide Lex;
    LexIsWellFormed(input, 1);
    var lexed := Lex(input, 1);
    if lexed.Tokens? {
      var toks := lexed.toks;
      forall c | c in Columns(toks) ensures 1 <= c <= |input| + 1 {
        var t :| t in toks && t.col == c;
      }
      if toks[0].kind != EOF {
        var d := Disjunction(env, toks);
        if d.Ok? {
          FirstColumn(d.rest);
        }
      }
    }
  }

  // ------------------------------------------------------------ compilability

  predicate KnownField(field: string) {
    F.IsAttr(field) || F.IsCore(field)
  }

  ghost predicate AllFieldsKnown(n: F.Node) {
    match n
    case Pred(l) => KnownField(l.field)
    case Group(_, _, cs) => forall c <- cs :: AllFieldsKnown(c)
  }

  ghost predicate Compilable(n: F.Node) {
    match n
    case Pred(l) => ParserLeaf(l)
    case Group(_, _, cs) => cs != [] && forall c <- cs :: Compilable(c)
  }

  lemma {:induction false} PlainValuesCompile(env: Env, vs: seq<F.Value>, low: bool)
    requires forall v <- vs :: PlainValue(v)
    ensures InValues(env, vs, low).Success?
  {
    if vs != [] {
      assert PlainValue(vs[0]);
      PlainValuesCompile(env, vs[1..], low);
    }
  }

  lemma {:induction false} CompilableCompiles(env: Env, n: F.Node)
    requires Compilable(n)
    ensures Compile(env, n).Success? <==> AllFieldsKnown(n)
    decreases n
  {
    match n {
      case Pred(l) =>
        if l.op == F.In {
          PlainValuesCompile(env, l.value.items, ShouldLower(l));
        }
      case Group(_, _, cs) => CompilablesCompile(env, cs);
    }
  }

  lemma {:induction false} CompilablesCompile(env: Env, cs: seq<F.Node>)
    requires forall c <- cs :: Compilable(c)
    ensures CompileAll(env, cs).Success? <==> forall c <- cs :: AllFieldsKnown(c)
    decreases cs
  {
    if cs != [] {
      CompilableCompiles(env, cs[0]);
      CompilablesCompile(env, cs[1..]);
      assert forall c <- cs :: c == cs[0] || c in cs[1..];
    }
  }

  lemma {:induction false} ConvertedIsCompilable(n: PNode)
    requires ParserTree(n)
    ensures Compilable(CompileTree(ConvertTerms(n)))
    decreases n
  {
    if n.PGroup? {
      ConvertedAreCompilable(n.children);
    }
  }

  lemma {:induction false} ConvertedAreCompilable(cs: seq<PNode>)
    requires forall c <- cs :: ParserTree(c)
    ensures forall c <- CompileNodes(ConvertAll(cs)) :: Compilable(c)
    decreases cs
  {
    if cs != [] {
      ConvertedIsCompilable(cs[0]);
      ConvertedAreCompilable(cs[1..]);
      assert ConvertAll(cs)[1..] == ConvertAll(cs[1..]);
      assert CompileNodes(ConvertAll(cs)) == [CompileTree(ConvertTerms(cs[0]))] + CompileNodes(ConvertAll(cs[1..]));
    }
  }

  /** Main result: a parsed filter compiles exactly when its bare fields are stored columns,
      and then to a clause that is never empty. */
  lemma ParsedFilterCompiles(env: Env, input: string)
    requires ParseText(env, input).Accepted? && ParseText(env, input).filter.Some?
    ensures var f := ParseText(env, input).filter.value;
            (Compile(env, f).Success? <==> AllFieldsKnown(f)) &&
            (Compile(env, f).Success? ==> Compile(env, f).value.sql != [])
  {
    hide Disjunction, Lex, Compile;
    var f := ParseText(env, input).filter.value;
    LexIsWellFormed(input, 1);
    var root := Disjunction(env, Lex(input, 1).toks).val;
    KeptAreParserTrees(TopFactors(root));
    ConvertedAreCompilable(KeptFactors(TopFactors(root)));
    CompilableCompiles(env, f);
    if Compile(env, f).Success? {
      NeverEmpty(env, f);
    }
  }
}

/** The guarded count and the facet top-k over the segments of a query. */
module Facets {
  import opened Text
  import opened Events
  import opened Ordering
  import opened Executor

  // ------------------------------------------------------------------------ count

  const DEFAULT_GUARD := 10001

  lemma OneMoreSegment(segs: seq<Segment>, i: nat, accept: Event -> bool)
    requires i < |segs|
    ensures |AllMatches(segs[..i + 1], accept)| == |AllMatches(segs[..i], accept)| + |Matches(segs[i], accept)|
    ensures |AllMatches(segs[..i + 1], accept)| <= |AllMatches(segs, accept)|
  {
    hide Matches;
    MatchesSoFar(segs, i, accept);
    assert segs == segs[..i + 1] + segs[i + 1..];
    MatchesSplit(segs[..i + 1], segs[i + 1..], accept);
  }

  /** Counting stops at the guard: below it the count is exact, from it on one less is reported. */
  method Count(segs: seq<Segment>, accept: Event -> bool, limitGuard: int) returns (total: nat, exact: bool)
    ensures var guard := if limitGuard <= 0 then 10001 else limitGuard;
            var all := |AllMatches(segs, accept)|;
            (exact <==> all < guard) && total == if exact then all else guard - 1
  {
    hide AllMatches, Matches;
    var guard := if limitGuard <= 0 then DEFAULT_GUARD else limitGuard;
    total := 0;
    var i := 0;
    assert |AllMatches(segs[..0], accept)| == 0 by {
      NoSegments(segs, accept);
    }
    while i < |segs|
      invariant 0 <= i <= |segs|
      invariant total == if |AllMatches(segs[..i], accept)| < guard then |AllMatches(segs[..i], accept)| else guard
      invariant |AllMatches(segs[..i], accept)| <= |AllMatches(segs, accept)|
    {
      if total >= guard {
        break;
      }
      var n := |Matches(segs[i], accept)|;
      OneMoreSegment(segs, i, accept);
      total := total + (if n < guard - total then n else guard - total);
      i := i + 1;
    }
    assert segs[..|segs|] == segs;
    exact := total < guard;
    if !exact {
      total := guard - 1;
    }
  }

  lemma NoSegments(segs: seq<Segment>, accept: Event -> bool)
    ensures AllMatches(segs[..0], accept) == [] && |AllMatches(segs, accept)| >= 0
  {
  }

  // ----------------------------------------------------------------------- facets

  datatype FacetValue = FacetValue(value: string, count: nat)

  datatype FacetResult = FacetResult(values: seq<FacetValue>, cap: nat, truncated: bool, truncatedCount: nat)

  /** How many of the events have this value; events without the field do not count. */
  function Tally(hits: seq<Hit>, fieldOf: Event -> Option<string>, v: string): nat {
    if hits == [] then 0 else (if fieldOf(hits[0].ev) == Some(v) then 1 else 0) + Tally(hits[1..], fieldOf, v)
  }

  lemma {:induction false} TallyAdds(a: seq<Hit>, b: seq<Hit>, fieldOf: Event -> Option<string>, v: string)
    ensures Tally(a + b, fieldOf, v) == Tally(a, fieldOf, v) + Tally(b, fieldOf, v)
  {
    if a == [] {
      assert a + b == b;
    } else {
      TallyAdds(a[1..], b, fieldOf, v);
      assert (a + b)[1..] == a[1..] + b;
    }
  }

  /** The counts held are the tallies, and only values that occur are held. */
  ghost predicate Tallied(counts: map<string, nat>, hits: seq<Hit>, fieldOf: Event -> Option<string>) {
    forall v: string :: Tally(hits, fieldOf, v) == if v in counts then counts[v] else 0
  }

  ghost predicate Positive(counts: map<string, nat>) {
    forall v | v in counts :: counts[v] > 0
  }

  /** The grouped rows of one segment, added to the counts so far. */
  method AddSegment(counts: map<string, nat>, ghost before: seq<Hit>, hits: seq<Hit>, fieldOf: Event -> Option<string>)
    returns (more: map<string, nat>)
    requires Tallied(counts, before, fieldOf) && Positive(counts)
    ensures Tallied(more, before + hits, fieldOf) && Positive(more)
  {
    more := counts;
    assert before + hits[..0] == before;
    for i := 0 to |hits|
      invariant Tallied(more, before + hits[..i], fieldOf) && Positive(more)
    {
      var v := fieldOf(hits[i].ev);
      assert before + hits[..i + 1] == before + hits[..i] + [hits[i]];
      forall w: string
        ensures Tally(before + hits[..i + 1], fieldOf, w) ==
          Tally(before + hits[..i], fieldOf, w) + (if v == Some(w) then 1 else 0)
      {
        TallyAdds(before + hits[..i], [hits[i]], fieldOf, w);
        assert Tally([hits[i]], fieldOf, w) == if v == Some(w) then 1 else 0;
      }
      if v.Some? {
        more := more[v.value := (if v.value in more then more[v.value] else 0) + 1];
      }
    }
    assert hits[..|hits|] == hits;
  }

  /** Larger counts first, equal counts by value. */
  predicate Ahead(a: FacetValue, b: FacetValue) {
    a.count > b.count || (a.count == b.count && Less(a.value, b.value))
  }

  ghost predicate Ranked(vs: seq<FacetValue>) {
    forall i, j | 0 <= i < j < |vs| :: Ahead(vs[i], vs[j])
  }

  method InsertRanked(v: FacetValue, vs: seq<FacetValue>) returns (out: seq<FacetValue>)
    requires Ranked(vs) && forall w <- vs :: w.value != v.value
    ensures Ranked(out) && |out| == |vs| + 1 && forall w :: w in out <==> w == v || w in vs
  {
    hide Less;
    var k := 0;
    while k < |vs| && Ahead(vs[k], v)
      invariant 0 <= k <= |vs|
      invariant forall i | 0 <= i < k :: Ahead(vs[i], v)
    {
      k := k + 1;
    }
    out := vs[..k] + [v] + vs[k..];
    assert vs == vs[..k] + vs[k..];
    forall j | k <= j < |vs| ensures Ahead(v, vs[j]) {
      assert vs[k] in vs;
      LessTrichotomy(vs[k].value, v.value);
      if j > k && v.count == vs[j].count {
        LessTransitive(v.value, vs[k].value, vs[j].value);
      }
    }
  }

  /** The top values of a count, best first: what is cut off ranks below everything kept. */
  method BuildFacetResult(counts: map<string, nat>, cardinalityCap: int) returns (r: FacetResult)
    ensures r.cap == if cardinalityCap <= 0 then 50 else cardinalityCap
    ensures Ranked(r.values) && forall fv <- r.values :: fv.value in counts && counts[fv.value] == fv.count
    ensures (r.truncated <==> |counts| > r.cap) && |r.values| == if r.truncated then r.cap else |counts|
    ensures r.truncatedCount == if r.truncated then |counts| else 0
    ensures forall fv, v | fv in r.values && v in counts && FacetValue(v, counts[v]) !in r.values ::
              Ahead(fv, FacetValue(v, counts[v]))
  {
    hide Ahead;
    var all: seq<FacetValue> := [];
    var pending := counts.Keys;
    while pending != {}
      invariant pending <= counts.Keys && Ranked(all) && |all| == |counts| - |pending|
      invariant forall fv :: fv in all <==> fv.value in counts && fv.value !in pending && fv.count == counts[fv.value]
    {
      var v :| v in pending;
      all := InsertRanked(FacetValue(v, counts[v]), all);
      pending := pending - {v};
    }
    var cap := if cardinalityCap <= 0 then 50 else cardinalityCap;
    var truncated := |all| > cap;
    var values := if truncated then all[..cap] else all;
    r := FacetResult(values, cap, truncated, if truncated then |all| else 0);
    assert forall k | 0 <= k < |values| :: values[k] == all[k] && values[k] in values;
    forall fv, v | fv in values && v in counts && FacetValue(v, counts[v]) !in values
      ensures Ahead(fv, FacetValue(v, counts[v]))
    {
      assert FacetValue(v, counts[v]) in all;
      var i :| 0 <= i < |values| && values[i] == fv;
      var j :| 0 <= j < |all| && all[j] == FacetValue(v, counts[v]);
      assert all[i] == fv;
    }
  }

  /** What ranking means: more occurrences first, equal numbers of them in the order of the values. */
  lemma RankedMeans(vs: seq<FacetValue>)
    ensures Ranked(vs) <==>
            forall i, j | 0 <= i < j < |vs| ::
              vs[i].count >= vs[j].count && (vs[i].count == vs[j].count ==> Less(vs[i].value, vs[j].value))
  {
    hide Less;
  }

  /** One facet over the sampled segments: each value shown carries its true count over all matching
      events of the sample, and nothing left out ranks higher. */
  method ComputeFacet(sample: seq<Segment>, accept: Event -> bool, fieldOf: Event -> Option<string>,
                      cardinalityCap: int) returns (r: FacetResult)
    ensures forall fv <- r.values :: fv.count == Tally(AllMatches(sample, accept), fieldOf, fv.value) > 0
    ensures forall i, j | 0 <= i < j < |r.values| ::
              r.values[i].count >= r.values[j].count &&
              (r.values[i].count == r.values[j].count ==> Less(r.values[i].value, r.values[j].value))
    ensures !r.truncated ==>
              forall v: string | Tally(AllMatches(sample, accept), fieldOf, v) > 0 ::
                exists fv <- r.values :: fv.value == v
    ensures forall fv, v: string | fv in r.values && Tally(AllMatches(sample, accept), fieldOf, v) > 0 &&
                                   FacetValue(v, Tally(AllMatches(sample, accept), fieldOf, v)) !in r.values ::
              Ahead(fv, FacetValue(v, Tally(AllMatches(sample, accept), fieldOf, v)))
  {
    hide AllMatches, Matches, Ranked, Ahead, Less, Tally;
    var counts: map<string, nat> := map[];
    NothingTallied(sample, accept, fieldOf);
    for i := 0 to |sample|
      invariant Tallied(counts, AllMatches(sample[..i], accept), fieldOf) && Positive(counts)
    {
      MatchesSoFar(sample, i, accept);
      counts := AddSegment(counts, AllMatches(sample[..i], accept), Matches(sample[i], accept), fieldOf);
    }
    assert sample[..|sample|] == sample;
    r := BuildFacetResult(counts, cardinalityCap);
    if !r.truncated {
      NothingCut(counts, r);
    }
    RankedMeans(r.values);
  }

  lemma NothingTallied(sample: seq<Segment>, accept: Event -> bool, fieldOf: Event -> Option<string>)
    ensures Tallied(map[], AllMatches(sample[..0], accept), fieldOf)
  {
  }

  /** As many distinct values as there are counts means every value is listed. */
  lemma NothingCut(counts: map<string, nat>, r: FacetResult)
    requires Ranked(r.values) && |r.values| == |counts| &&
             forall fv <- r.values :: fv.value in counts && counts[fv.value] == fv.count
    ensures forall v | v in counts :: exists fv <- r.values :: fv.value == v
  {
    hide Ahead;
    var names := set fv <- r.values :: fv.value;
    forall i, j | 0 <= i < j < |r.values| ensures r.values[i].value != r.values[j].value {
      AheadIsStrict(r.values[i], r.values[j], counts);
    }
    NamesCount(r.values);
    SubsetIsAll(names, counts.Keys);
    forall v | v in counts ensures exists fv <- r.values :: fv.value == v {
      assert v in names;
    }
  }

  lemma AheadIsStrict(a: FacetValue, b: FacetValue, counts: map<string, nat>)
    requires Ahead(a, b) && a.value in counts && b.value in counts && counts[a.value] == a.count &&
             counts[b.value] == b.count
    ensures a.value != b.value
  {
    LessTrichotomy(a.value, b.value);
  }

  lemma {:induction false} NamesCount(vs: seq<FacetValue>)
    requires forall i, j | 0 <= i < j < |vs| :: vs[i].value != vs[j].value
    ensures |set fv <- vs :: fv.value| == |vs|
  {
    if vs != [] {
      var n := |vs| - 1;
      NamesCount(vs[..n]);
      assert vs == vs[..n] + [vs[n]];
      assert (set fv <- vs :: fv.value) == (set fv <- vs[..n] :: fv.value) + {vs[n].value};
      assert vs[n].value !in (set fv <- vs[..n] :: fv.value);
    }
  }

  lemma SubsetIsAll(a: set<string>, b: set<string>)
    requires a <= b && |a| == |b|
    ensures a == b
  {
    assert |b - a| == |b| - |a|;
  }
}

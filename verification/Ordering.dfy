/** Sort keys, the order they define on events, and stable sorting. */
module Ordering {
  import opened Text
  import opened Events

  /** An event together with the segment it was read from. */
  datatype Hit = Hit(ev: Event, segment: string)

  datatype SortKey = SortKey(field: string, order: string) {
    predicate Desc() { order == "desc" }
  }

  function CompareText(a: string, b: string): int {
    if a == b then 0 else if Less(a, b) then -1 else 1
  }

  function CompareField(a: Event, b: Event, field: string): int {
    if field == "timestamp" then (if a.timestamp < b.timestamp then -1 else if a.timestamp > b.timestamp then 1 else 0)
    else if field == "service" then CompareText(a.service, b.service)
    else if field == "level" then CompareText(a.level, b.level)
    else if field == "host" then CompareText(a.host, b.host)
    else if field == "source" then CompareText(a.source, b.source)
    else 0
  }

  /** The first key on which two events differ decides. */
  function CompareEvents(a: Event, b: Event, keys: seq<SortKey>): int {
    if keys == [] then 0
    else
      var cmp := CompareField(a, b, keys[0].field);
      if cmp == 0 then CompareEvents(a, b, keys[1..]) else if keys[0].Desc() then -cmp else cmp
  }

  predicate AtMost(x: Hit, y: Hit, keys: seq<SortKey>) {
    CompareEvents(x.ev, y.ev, keys) <= 0
  }

  ghost predicate Sorted(hs: seq<Hit>, keys: seq<SortKey>) {
    forall i, j | 0 <= i < j < |hs| :: AtMost(hs[i], hs[j], keys)
  }

  /** Strictly before by one field: the instant, or the text of a column. */
  predicate ComesBefore(field: string, a: Event, b: Event) {
    if field == "timestamp" then a.timestamp < b.timestamp else Less(CoreText(a, field), CoreText(b, field))
  }

  /** May stand before, in this order: by the first key, ascending or descending, and where that does not
      tell them apart by the next ones. */
  predicate InOrder(a: Event, b: Event, keys: seq<SortKey>) {
    keys == [] ||
    var k := keys[0];
    if k.order == "desc" then ComesBefore(k.field, b, a) || (!ComesBefore(k.field, a, b) && InOrder(a, b, keys[1..]))
    else ComesBefore(k.field, a, b) || (!ComesBefore(k.field, b, a) && InOrder(a, b, keys[1..]))
  }

  predicate Sortable(keys: seq<SortKey>) {
    forall k <- keys :: k.field in {"timestamp", "service", "level", "host", "source"}
  }

  lemma FieldIsCompared(a: Event, b: Event, field: string)
    requires field in {"timestamp", "service", "level", "host", "source"}
    ensures CompareField(a, b, field) < 0 <==> ComesBefore(field, a, b)
    ensures CompareField(a, b, field) > 0 <==> ComesBefore(field, b, a)
  {
    hide Less;
    if field != "timestamp" {
      LessTrichotomy(CoreText(a, field), CoreText(b, field));
    }
  }

  /** The comparison of two events is the order their columns say. */
  lemma {:induction false} EventsInOrder(a: Event, b: Event, keys: seq<SortKey>)
    requires Sortable(keys)
    ensures CompareEvents(a, b, keys) <= 0 <==> InOrder(a, b, keys)
  {
    hide CompareField, ComesBefore;
    if keys != [] {
      assert keys[0] in keys;
      FieldIsCompared(a, b, keys[0].field);
      EventsInOrder(a, b, keys[1..]);
    }
  }

  /** A sorted list is one in which every event may stand before all later ones; in particular none is
      out of order by the first key. */
  lemma SortedByColumns(hs: seq<Hit>, keys: seq<SortKey>)
    requires Sortable(keys)
    ensures Sorted(hs, keys) <==> forall i, j | 0 <= i < j < |hs| :: InOrder(hs[i].ev, hs[j].ev, keys)
    ensures Sorted(hs, keys) && keys != [] ==>
              forall i, j | 0 <= i < j < |hs| ::
                if keys[0].order == "desc" then !ComesBefore(keys[0].field, hs[i].ev, hs[j].ev)
                else !ComesBefore(keys[0].field, hs[j].ev, hs[i].ev)
  {
    hide CompareEvents, InOrder, ComesBefore;
    forall i, j | 0 <= i < j < |hs| ensures AtMost(hs[i], hs[j], keys) <==> InOrder(hs[i].ev, hs[j].ev, keys) {
      EventsInOrder(hs[i].ev, hs[j].ev, keys);
    }
    forall i, j | 0 <= i < j < |hs| && keys != [] && InOrder(hs[i].ev, hs[j].ev, keys)
      ensures if keys[0].order == "desc" then !ComesBefore(keys[0].field, hs[i].ev, hs[j].ev)
              else !ComesBefore(keys[0].field, hs[j].ev, hs[i].ev)
    {
      FirstKeyDecides(hs[i].ev, hs[j].ev, keys);
    }
  }

  lemma FirstKeyDecides(a: Event, b: Event, keys: seq<SortKey>)
    requires keys != [] && InOrder(a, b, keys)
    ensures if keys[0].order == "desc" then !ComesBefore(keys[0].field, a, b) else !ComesBefore(keys[0].field, b, a)
  {
    hide Less;
    LessTrichotomy(CoreText(a, keys[0].field), CoreText(b, keys[0].field));
  }

  lemma FieldOrder(a: Event, b: Event, c: Event, field: string)
    ensures CompareField(a, b, field) == -CompareField(b, a, field)
    ensures CompareField(a, b, field) <= 0 && CompareField(b, c, field) <= 0 ==> CompareField(a, c, field) <= 0
    ensures CompareField(a, b, field) == 0 ==> CompareField(a, c, field) == CompareField(b, c, field)
    ensures CompareField(b, c, field) == 0 ==> CompareField(a, b, field) == CompareField(a, c, field)
  {
    hide CompareText;
    if field == "service" {
      TextOrder(a.service, b.service, c.service);
      TextOrder(b.service, c.service, a.service);
    } else if field == "level" {
      TextOrder(a.level, b.level, c.level);
      TextOrder(b.level, c.level, a.level);
    } else if field == "host" {
      TextOrder(a.host, b.host, c.host);
      TextOrder(b.host, c.host, a.host);
    } else if field == "source" {
      TextOrder(a.source, b.source, c.source);
      TextOrder(b.source, c.source, a.source);
    }
  }

  lemma TextOrder(a: string, b: string, c: string)
    ensures CompareText(a, b) == 0 <==> a == b
    ensures CompareText(a, b) == -CompareText(b, a)
    ensures CompareText(a, b) <= 0 && CompareText(b, c) <= 0 ==> CompareText(a, c) <= 0
  {
    LessTrichotomy(a, b);
    if Less(a, b) && Less(b, c) {
      LessTransitive(a, b, c);
    }
  }

  /** The keys define a total preorder on events. */
  lemma {:induction false} EventOrder(a: Event, b: Event, c: Event, keys: seq<SortKey>)
    ensures CompareEvents(a, b, keys) == -CompareEvents(b, a, keys)
    ensures CompareEvents(a, b, keys) <= 0 && CompareEvents(b, c, keys) <= 0 ==> CompareEvents(a, c, keys) <= 0
  {
    hide CompareField;
    if keys != [] {
      FieldOrder(a, b, c, keys[0].field);
      FieldOrder(c, b, a, keys[0].field);
      FieldOrder(a, c, b, keys[0].field);
      EventOrder(a, b, c, keys[1..]);
    }
  }

  // ------------------------------------------------------------------- sorting

  function Insert(h: Hit, hs: seq<Hit>, keys: seq<SortKey>): seq<Hit> {
    if hs == [] || AtMost(h, hs[0], keys) then [h] + hs else [hs[0]] + Insert(h, hs[1..], keys)
  }

  /** A stable sort. */
  function SortEvents(hs: seq<Hit>, keys: seq<SortKey>): seq<Hit> {
    if hs == [] then [] else Insert(hs[0], SortEvents(hs[1..], keys), keys)
  }

  lemma {:induction false} InsertKeepsSorted(h: Hit, hs: seq<Hit>, keys: seq<SortKey>)
    requires Sorted(hs, keys)
    ensures Sorted(Insert(h, hs, keys), keys) && multiset(Insert(h, hs, keys)) == multiset{h} + multiset(hs)
  {
    hide AtMost;
    if hs == [] {
    } else if AtMost(h, hs[0], keys) {
      forall j | 0 <= j < |hs| ensures AtMost(h, hs[j], keys) {
        AtMostTransitive(h, hs[0], hs[j], keys);
      }
    } else {
      var rest := Insert(h, hs[1..], keys);
      InsertKeepsSorted(h, hs[1..], keys);
      assert hs == [hs[0]] + hs[1..];
      AtMostTransitive(h, hs[0], h, keys);
      forall j | 0 <= j < |rest| ensures AtMost(hs[0], rest[j], keys) {
        assert rest[j] in multiset(rest);
        assert rest[j] == h || rest[j] in hs[1..];
      }
    }
  }

  lemma AtMostTransitive(x: Hit, y: Hit, z: Hit, keys: seq<SortKey>)
    ensures AtMost(x, y, keys) || AtMost(y, x, keys)
    ensures AtMost(x, x, keys)
    ensures AtMost(x, y, keys) && AtMost(y, z, keys) ==> AtMost(x, z, keys)
  {
    EventOrder(x.ev, y.ev, z.ev, keys);
    EventOrder(x.ev, x.ev, x.ev, keys);
  }

  lemma {:induction false} SortIsSorted(hs: seq<Hit>, keys: seq<SortKey>)
    ensures Sorted(SortEvents(hs, keys), keys) && multiset(SortEvents(hs, keys)) == multiset(hs)
  {
    if hs != [] {
      SortIsSorted(hs[1..], keys);
      InsertKeepsSorted(hs[0], SortEvents(hs[1..], keys), keys);
      assert hs == [hs[0]] + hs[1..];
    }
  }

  lemma SameLength(a: seq<Hit>, b: seq<Hit>)
    requires multiset(a) == multiset(b)
    ensures |a| == |b|
  {
    assert |multiset(a)| == |a| && |multiset(b)| == |b|;
  }

  ghost predicate AllAtMost(low: multiset<Hit>, high: multiset<Hit>, keys: seq<SortKey>) {
    forall x, y | x in low && y in high :: AtMost(x, y, keys)
  }

  /** out is a possible answer to "the first n of all, in this order": ties may fall either way. */
  ghost predicate FirstN(out: seq<Hit>, all: multiset<Hit>, n: nat, keys: seq<SortKey>) {
    Sorted(out, keys) && multiset(out) <= all && |out| == (if n <= |all| then n else |all|) &&
    AllAtMost(multiset(out), all - multiset(out), keys)
  }

  lemma BagOfParts(s: seq<Hit>, n: nat)
    requires n <= |s|
    ensures multiset(s) == multiset(s[..n]) + multiset(s[n..])
    ensures multiset(s) - multiset(s[..n]) == multiset(s[n..])
  {
    assert s == s[..n] + s[n..];
  }

  lemma PrefixAtMostRest(s: seq<Hit>, n: nat, keys: seq<SortKey>)
    requires n <= |s| && Sorted(s, keys)
    ensures Sorted(s[..n], keys) && AllAtMost(multiset(s[..n]), multiset(s[n..]), keys)
  {
    hide AtMost;
    forall x, y | x in multiset(s[..n]) && y in multiset(s[n..]) ensures AtMost(x, y, keys) {
      assert x in s[..n] && y in s[n..];
      var i :| 0 <= i < n && s[i] == x;
      var j :| n <= j < |s| && s[j] == y;
    }
  }

  function Cut(s: seq<Hit>, n: nat): seq<Hit> {
    if n <= |s| then s[..n] else s
  }

  /** Sorting and cutting off gives the first n. */
  lemma SortThenTake(hs: seq<Hit>, n: nat, keys: seq<SortKey>)
    ensures FirstN(Cut(SortEvents(hs, keys), n), multiset(hs), n, keys)
  {
    hide SortEvents, AllAtMost, Sorted;
    var s := SortEvents(hs, keys);
    SortIsSorted(hs, keys);
    SameLength(s, hs);
    var m := if n <= |s| then n else |s|;
    assert s[..|s|] == s;
    BagOfParts(s, m);
    PrefixAtMostRest(s, m, keys);
  }
}

/** Strings, and the few facts about the host language's text library that the
    query pipeline relies on. */
module Text {

  datatype Option<+T> = None | Some(value: T)

  function Look<K, V>(m: map<K, V>, k: K): Option<V> {
    if k in m then Some(m[k]) else None
  }

  /** The parts of the runtime that are taken as given: the rune-wise lower-casing
      shared by the matcher and the database, the reading and printing of numerals
      and instants, and the white-space class. */
  datatype Env = Env(
    lower: char -> char,
    num: string -> Option<real>,
    showReal: real -> string,
    time: string -> Option<int>,
    showTime: int -> string,
    space: char -> bool)

  predicate IsLikeSpecial(c: char) {
    c == '\\' || c == '%' || c == '_'
  }

  /** Lower-casing is idempotent, and neither moves nor produces the characters
      that have a meaning inside a LIKE pattern. */
  ghost predicate Lawful(env: Env) {
    && (forall c: char :: env.lower(env.lower(c)) == env.lower(c))
    && (forall c: char :: IsLikeSpecial(env.lower(c)) || IsLikeSpecial(c) ==> env.lower(c) == c)
  }

  function Lower(env: Env, s: string): (r: string) {
    seq(|s|, i requires 0 <= i < |s| => env.lower(s[i]))
  }

  lemma LowerTwice(env: Env, s: string)
    requires Lawful(env)
    ensures Lower(env, Lower(env, s)) == Lower(env, s)
  {
  }

  lemma LowerConcat(env: Env, a: string, b: string)
    ensures Lower(env, a + b) == Lower(env, a) + Lower(env, b)
  {
  }

  /** Substring test. */
  predicate Contains(t: string, s: string) {
    s <= t || (t != "" && Contains(t[1..], s))
  }

  lemma {:induction false} ContainsMeansOccurs(t: string, s: string)
    ensures Contains(t, s) <==> exists i :: 0 <= i <= |t| && s <= t[i..]
  {
    if s <= t {
      assert t[0..] == t;
    } else if t != "" {
      ContainsMeansOccurs(t[1..], s);
      forall i | 0 <= i < |t| ensures t[1..][i..] == t[i + 1..] {
      }
      if i :| 0 <= i <= |t| && s <= t[i..] {
        assert i != 0 && s <= t[1..][i - 1..];
      }
      if i :| 0 <= i <= |t[1..]| && s <= t[1..][i..] {
        assert s <= t[i + 1..];
      }
    }
  }

  /** Replace every occurrence of one character by a string. */
  function ReplaceAll(s: string, c: char, r: string): string {
    if s == "" then "" else (if s[0] == c then r else [s[0]]) + ReplaceAll(s[1..], c, r)
  }

  lemma {:induction false} ReplaceAllConcat(a: string, b: string, c: char, r: string)
    ensures ReplaceAll(a + b, c, r) == ReplaceAll(a, c, r) + ReplaceAll(b, c, r)
  {
    if a == "" {
      assert a + b == b;
    } else {
      assert (a + b)[1..] == a[1..] + b;
      ReplaceAllConcat(a[1..], b, c, r);
    }
  }

  function Join(parts: seq<string>, sep: string): string {
    if parts == [] then "" else if |parts| == 1 then parts[0]
    else parts[0] + sep + Join(parts[1..], sep)
  }

  function TrimLeft(env: Env, s: string): string {
    if s != "" && env.space(s[0]) then TrimLeft(env, s[1..]) else s
  }

  function TrimRight(env: Env, s: string): string {
    if s != "" && env.space(s[|s| - 1]) then TrimRight(env, s[..|s| - 1]) else s
  }

  function TrimSpace(env: Env, s: string): string {
    TrimRight(env, TrimLeft(env, s))
  }

  /** Code-unit order, as both the host language and the database compare text. */
  predicate Less(a: string, b: string) {
    b != "" && (a == "" || a[0] < b[0] || (a[0] == b[0] && Less(a[1..], b[1..])))
  }

  lemma {:induction false} LessTrichotomy(a: string, b: string)
    ensures a == b || Less(a, b) || Less(b, a)
    ensures !(Less(a, b) && Less(b, a)) && !Less(a, a)
  {
    if a != "" && b != "" {
      LessTrichotomy(a[1..], b[1..]);
      if a[0] == b[0] && a[1..] == b[1..] {
        assert a == [a[0]] + a[1..] == b;
      }
    }
    if a != "" {
      LessTrichotomy(a[1..], a[1..]);
    }
  }

  lemma {:induction false} LessTransitive(a: string, b: string, c: string)
    requires Less(a, b) && Less(b, c)
    ensures Less(a, c)
  {
    if a != "" && a[0] == b[0] == c[0] {
      LessTransitive(a[1..], b[1..], c[1..]);
    }
  }

  /** One text comes before another if it is a proper beginning of it, or smaller at the first place
      where they differ. */
  lemma {:induction false} LessMeans(a: string, b: string)
    ensures Less(a, b) <==>
            exists k :: 0 <= k <= |a| && k < |b| && a[..k] == b[..k] && (k == |a| || a[k] < b[k])
  {
    if b != "" && a != "" && a[0] == b[0] {
      LessMeans(a[1..], b[1..]);
      var a', b' := a[1..], b[1..];
      if k :| 0 <= k <= |a'| && k < |b'| && a'[..k] == b'[..k] && (k == |a'| || a'[k] < b'[k]) {
        assert a[..k + 1] == [a[0]] + a'[..k] && b[..k + 1] == [b[0]] + b'[..k];
        assert k + 1 == |a| || a[k + 1] < b[k + 1];
      }
      if k :| 0 <= k <= |a| && k < |b| && a[..k] == b[..k] && (k == |a| || a[k] < b[k]) {
        assert k > 0;
        assert a[1..][..k - 1] == a[..k][1..] && b[1..][..k - 1] == b[..k][1..];
        assert k - 1 == |a[1..]| || a[1..][k - 1] < b[1..][k - 1];
      }
    } else if Less(a, b) {
      assert a[..0] == b[..0];
    } else {
      forall k | 0 <= k <= |a| && k < |b| && a[..k] == b[..k] ensures !(k == |a| || a[k] < b[k]) {
        SameFirst(a, b, k);
      }
    }
  }

  lemma SameFirst(a: string, b: string, k: nat)
    requires k <= |a| && k <= |b| && a[..k] == b[..k]
    ensures k > 0 ==> a[0] == b[0]
  {
    if k > 0 {
      assert a[..k][0] == b[..k][0];
    }
  }

  function Digits(n: nat): string {
    if n < 10 then [(n as char) + '0'] else Digits(n / 10) + [((n % 10) as char) + '0']
  }

  function ShowInt(n: int): string {
    if n < 0 then "-" + Digits(-n) else Digits(n)
  }

  /** Reading a quoted identifier or literal: the text up to the first quote that
      is not doubled. */
  function ReadQuoted(s: string, q: char): Option<(string, string)> {
    if s == "" then None
    else if s[0] != q then
      match ReadQuoted(s[1..], q)
      case None => None
      case Some((t, rest)) => Some(([s[0]] + t, rest))
    else if |s| > 1 && s[1] == q then
      match ReadQuoted(s[2..], q)
      case None => None
      case Some((t, rest)) => Some(([q] + t, rest))
    else Some(("", s[1..]))
  }

  /** Doubling the quote inside a quoted word is exact: whatever the text, the
      closing quote found is the one the compiler wrote. */
  lemma {:induction false} DoubledQuotesReadBack(s: string, q: char, rest: string)
    requires rest == "" || rest[0] != q
    ensures ReadQuoted(ReplaceAll(s, q, [q, q]) + [q] + rest, q) == Some((s, rest))
  {
    var body := ReplaceAll(s, q, [q, q]);
    if s == "" {
      assert body + [q] + rest == [q] + rest;
      assert ([q] + rest)[1..] == rest;
    } else {
      DoubledQuotesReadBack(s[1..], q, rest);
      var tail := ReplaceAll(s[1..], q, [q, q]) + [q] + rest;
      if s[0] == q {
        assert body + [q] + rest == [q, q] + tail;
        assert ([q, q] + tail)[2..] == tail;
      } else {
        assert body + [q] + rest == [s[0]] + tail;
        assert ([s[0]] + tail)[1..] == tail;
      }
      assert [s[0]] + s[1..] == s;
    }
  }
}

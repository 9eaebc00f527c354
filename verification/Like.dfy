/** The LIKE predicate with escape character '\' (ISO/IEC 9075-2:2003, section
    8.5), the escaping of user text into patterns, and the proof that the two
    fit together exactly. */
module Like {
  import opened Text

  /** Does the pattern p match the whole of t? */
  predicate Matches(p: string, t: string)
    decreases |p| + |t|
  {
    if p == "" then t == ""
    else if p[0] == '\\' then |p| > 1 && t != "" && t[0] == p[1] && Matches(p[2..], t[1..])
    else if p[0] == '%' then Matches(p[1..], t) || (t != "" && Matches(p, t[1..]))
    else t != "" && (p[0] == '_' || t[0] == p[0]) && Matches(p[1..], t[1..])
  }

  /** Three replacements, one after another, as the compiler performs them. */
  function EscapeLike(s: string): string {
    ReplaceAll(ReplaceAll(ReplaceAll(s, '\\', "\\\\"), '%', "\\%"), '_', "\\_")
  }

  /** The same thing said as one map over characters. */
  function EscapeEach(s: string): string {
    if s == "" then "" else (if IsLikeSpecial(s[0]) then ['\\', s[0]] else [s[0]]) + EscapeEach(s[1..])
  }

  lemma {:induction false} EscapeIsCharacterMap(s: string)
    ensures EscapeLike(s) == EscapeEach(s)
  {
    if s != "" {
      EscapeIsCharacterMap(s[1..]);
      var h1 := if s[0] == '\\' then "\\\\" else [s[0]];
      ReplaceAllConcat(h1, ReplaceAll(s[1..], '\\', "\\\\"), '%', "\\%");
      var h2 := ReplaceAll(h1, '%', "\\%");
      ReplaceAllConcat(h2, ReplaceAll(ReplaceAll(s[1..], '\\', "\\\\"), '%', "\\%"), '_', "\\_");
      EscapeHead(s[0]);
    }
  }

  lemma EscapeHead(c: char)
    ensures EscapeLike([c]) == if IsLikeSpecial(c) then ['\\', c] else [c]
  {
    assert ReplaceAll([c], '\\', "\\\\") == if c == '\\' then "\\\\" else [c];
    assert ReplaceAll("\\\\", '%', "\\%") == "\\\\" by {
      assert "\\\\"[1..] == "\\";
    }
    assert ReplaceAll("\\\\", '_', "\\_") == "\\\\" by {
      assert "\\\\"[1..] == "\\";
    }
    assert ReplaceAll("\\%", '_', "\\_") == "\\%" by {
      assert "\\%"[1..] == "%";
    }
  }

  lemma {:induction false} EscapeCommutesWithLower(env: Env, s: string)
    requires Lawful(env)
    ensures Lower(env, EscapeLike(s)) == EscapeLike(Lower(env, s))
  {
    EscapeIsCharacterMap(s);
    EscapeIsCharacterMap(Lower(env, s));
    EscapeEachCommutesWithLower(env, s);
  }

  lemma {:induction false} EscapeEachCommutesWithLower(env: Env, s: string)
    requires Lawful(env)
    ensures Lower(env, EscapeEach(s)) == EscapeEach(Lower(env, s))
  {
    if s != "" {
      EscapeEachCommutesWithLower(env, s[1..]);
      assert Lower(env, s)[1..] == Lower(env, s[1..]);
      var h := if IsLikeSpecial(s[0]) then ['\\', s[0]] else [s[0]];
      LowerConcat(env, h, EscapeEach(s[1..]));
      assert IsLikeSpecial('\\');
      assert Lower(env, h) == if IsLikeSpecial(env.lower(s[0])) then ['\\', env.lower(s[0])] else [env.lower(s[0])];
    }
  }

  /** An escaped text in front of a pattern consumes exactly itself. */
  lemma {:induction false} EscapedTextMatchesItself(s: string, p: string, t: string)
    ensures Matches(EscapeLike(s) + p, t) <==> s <= t && Matches(p, t[|s|..])
  {
    EscapeIsCharacterMap(s);
    EscapedEachMatchesItself(s, p, t);
  }

  lemma {:induction false} EscapedEachMatchesItself(s: string, p: string, t: string)
    ensures Matches(EscapeEach(s) + p, t) <==> s <= t && Matches(p, t[|s|..])
  {
    if s == "" {
      assert EscapeEach(s) + p == p && t[0..] == t;
    } else {
      var h := if IsLikeSpecial(s[0]) then ['\\', s[0]] else [s[0]];
      var rest := EscapeEach(s[1..]) + p;
      assert EscapeEach(s) + p == h + rest;
      assert (h + rest)[|h|..] == rest;
      if t != "" && t[0] == s[0] {
        EscapedEachMatchesItself(s[1..], p, t[1..]);
        assert t == [t[0]] + t[1..] && s == [s[0]] + s[1..];
        assert s <= t <==> s[1..] <= t[1..];
        if s <= t {
          assert t[1..][|s| - 1..] == t[|s|..];
        }
      }
    }
  }

  lemma {:induction false} PercentMatchesAnything(t: string)
    ensures Matches("%", t)
  {
    if t == "" {
      assert "%"[1..] == "";
    } else {
      PercentMatchesAnything(t[1..]);
    }
  }

  /** `starts_with`: the pattern built from s matches t exactly when s is a prefix of t. */
  lemma PrefixPatternIsExact(s: string, t: string)
    ensures Matches(EscapeLike(s) + "%", t) <==> s <= t
  {
    EscapedTextMatchesItself(s, "%", t);
    if s <= t {
      PercentMatchesAnything(t[|s|..]);
    }
  }

  /** `contains`: the pattern built from s matches t exactly when s occurs in t. */
  lemma {:induction false} ContainsPatternIsExact(s: string, t: string)
    ensures Matches("%" + EscapeLike(s) + "%", t) <==> Contains(t, s)
    decreases |t|
  {
    var tail := EscapeLike(s) + "%";
    assert "%" + EscapeLike(s) + "%" == "%" + tail;
    assert ("%" + tail)[1..] == tail;
    PrefixPatternIsExact(s, t);
    if t != "" {
      ContainsPatternIsExact(s, t[1..]);
    }
  }
}

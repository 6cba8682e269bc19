/** The two SQL text primitives that the store leans on, as SQLite defines them: replace()
    and LIKE. */
module SqlText {

  /** replace(s, from, to): every occurrence, scanning left to right; nothing for an empty `from`. */
  function Replace(s: string, from: string, to: string): string
    decreases |s|
  {
    if from == "" || |s| < |from| then s
    else if from <= s then to + Replace(s[|from|..], from, to)
    else [s[0]] + Replace(s[1..], from, to)
  }

  predicate Occurs(part: string, s: string)
    decreases |s|
  {
    part <= s || (s != "" && Occurs(part, s[1..]))
  }

  lemma {:induction false} OccursAt(part: string, s: string)
    requires Occurs(part, s)
    ensures exists i :: 0 <= i <= |s| && part <= s[i..]
    decreases |s|
  {
    if part <= s {
      assert s[0..] == s;
    } else {
      OccursAt(part, s[1..]);
      var i :| 0 <= i <= |s| - 1 && part <= s[1..][i..];
      assert s[1..][i..] == s[i + 1..];
    }
  }

  lemma {:induction false} ReplaceLength(s: string, from: string, to: string)
    ensures |from| <= |to| ==> |s| <= |Replace(s, from, to)|
    ensures |to| <= |from| ==> |Replace(s, from, to)| <= |s|
    decreases |s|
  {
    if from == "" || |s| < |from| {
    } else if from <= s {
      ReplaceLength(s[|from|..], from, to);
    } else {
      ReplaceLength(s[1..], from, to);
    }
  }

  /** replace() leaves a string alone exactly when there is nothing to replace in it. */
  lemma {:induction false} ReplaceIdentityIff(s: string, from: string, to: string)
    ensures Replace(s, from, to) == s <==> from == "" || from == to || !Occurs(from, s)
    decreases |s|
  {
    if from == "" {
    } else if |s| < |from| {
      TooShort(s, from);
    } else if from <= s {
      var rest := s[|from|..];
      assert s == from + rest;
      if from == to {
        ReplaceIdentityIff(rest, from, to);
      } else {
        ReplaceLength(rest, from, to);
        if |from| == |to| {
          assert Replace(s, from, to)[..|from|] == to;
        }
      }
    } else {
      ReplaceIdentityIff(s[1..], from, to);
      assert s == [s[0]] + s[1..];
      assert Replace(s, from, to)[1..] == Replace(s[1..], from, to);
    }
  }

  lemma {:induction false} TooShort(s: string, part: string)
    requires |s| < |part|
    ensures !Occurs(part, s)
    decreases |s|
  {
    if s != "" {
      TooShort(s[1..], part);
    }
  }

  lemma ReplaceAtPrefix(from: string, rest: string, to: string)
    requires from != ""
    ensures Replace(from + rest, from, to) == to + Replace(rest, from, to)
  {
    assert (from + rest)[|from|..] == rest;
  }

  /** Replacing the user of an address touches nothing but that user exactly when the user
      does not occur again in the rest. */
  lemma ReplacesPrefixOnlyIff(from: string, rest: string, to: string)
    ensures Replace(from + rest, from, to) == to + rest <==> from == to || (from != "" && !Occurs(from, rest))
  {
    if from == "" {
      assert from + rest == rest;
      if to != "" {
        assert |to + rest| > |rest|;
      }
    } else {
      ReplaceAtPrefix(from, rest, to);
      ReplaceIdentityIff(rest, from, to);
      assert (to + Replace(rest, from, to))[|to|..] == Replace(rest, from, to);
      assert (to + rest)[|to|..] == rest;
    }
  }

  // ---------------------------------------------------------------- LIKE

  /** SQLite compares ASCII letters without regard to case. */
  function Fold(c: char): char {
    if 'A' <= c <= 'Z' then (c as int + 32) as char else c
  }

  predicate Like(pattern: string, s: string)
    decreases |pattern| + |s|
  {
    if pattern == "" then s == ""
    else if pattern[0] == '%' then Like(pattern[1..], s) || (s != "" && Like(pattern, s[1..]))
    else s != "" && (pattern[0] == '_' || Fold(pattern[0]) == Fold(s[0])) && Like(pattern[1..], s[1..])
  }

  /** Characters that match themselves only. */
  predicate Literal(c: char) {
    c != '%' && c != '_' && !('A' <= c <= 'Z') && !('a' <= c <= 'z')
  }

  predicate AllLiteral(s: string) {
    forall c | c in s :: Literal(c)
  }

  lemma {:induction false} PercentMatchesAll(s: string)
    ensures Like("%", s)
    decreases |s|
  {
    if s != "" {
      PercentMatchesAll(s[1..]);
    } else {
      assert "%"[1..] == "";
    }
  }

  lemma {:induction false} LiteralPrefix(user: string, s: string)
    requires AllLiteral(user)
    ensures Like(user + ":%", s) <==> user + ":" <= s
    decreases |user|
  {
    var pattern := user + ":%";
    if user == "" {
      assert pattern[1..] == "%";
      if s != "" {
        PercentMatchesAll(s[1..]);
      }
    } else {
      assert pattern[1..] == user[1..] + ":%";
      assert pattern[0] == user[0] && user[0] in user;
      assert (user + ":")[1..] == user[1..] + ":";
      if s != "" {
        LiteralPrefix(user[1..], s[1..]);
        assert s == [s[0]] + s[1..];
        assert user + ":" <= s <==> user[0] == s[0] && user[1..] + ":" <= s[1..];
      }
    }
  }

  /** Character by character, a wildcard or a letter of either case also matches another one. */
  lemma {:induction false} LikeCharwise(p: string, s: string, pattern: string, t: string)
    requires |p| == |s| && Like(pattern, t)
    requires forall i :: 0 <= i < |p| ==> p[i] == '%' || p[i] == '_' || Fold(p[i]) == Fold(s[i])
    ensures Like(p + pattern, s + t)
    decreases |p|
  {
    if p == "" {
      assert p + pattern == pattern && s + t == t;
    } else {
      LikeCharwise(p[1..], s[1..], pattern, t);
      assert (p + pattern)[1..] == p[1..] + pattern && (s + t)[1..] == s[1..] + t;
      if p[0] == '%' {
        assert Like(p + pattern, (s + t)[1..]);
      }
    }
  }

  function Other(c: char): char
    requires !Literal(c)
  {
    if 'A' <= c <= 'Z' then (c as int + 32) as char
    else if 'a' <= c <= 'z' then (c as int - 32) as char
    else ':'
  }

  ghost predicate SelectsUser(user: string, s: string) {
    Like(user + ":%", s) <==> user + ":" <= s
  }

  /** The pattern `user:%` selects exactly the addresses of that user, for all strings, just
      when the user has no wildcard and no letter in it. */
  lemma LikeSelectsUserIff(user: string)
    ensures (forall s :: SelectsUser(user, s)) <==>
              forall c :: c in user ==> c != '%' && c != '_' && !('A' <= c <= 'Z') && !('a' <= c <= 'z')
    ensures (forall s :: SelectsUser(user, s)) <==> AllLiteral(user)
  {
    if AllLiteral(user) {
      forall s
        ensures SelectsUser(user, s)
      {
        LiteralPrefix(user, s);
      }
    } else {
      var i :| 0 <= i < |user| && !Literal(user[i]);
      var s := user[i := Other(user[i])];
      assert ":%"[1..] == "%" && ":"[1..] == "";
      PercentMatchesAll("");
      LikeCharwise(user, s, ":%", ":");
      assert (s + ":")[i] != (user + ":")[i];
      assert !SelectsUser(user, s + ":");
    }
  }

  ghost predicate MatchesOnlyItself(pattern: string, s: string) {
    Like(pattern, s) <==> s == pattern
  }

  lemma {:induction false} LiteralMatch(pattern: string, s: string)
    requires AllLiteral(pattern)
    ensures MatchesOnlyItself(pattern, s)
    decreases |pattern|
  {
    if pattern != "" {
      assert pattern[0] in pattern && pattern == [pattern[0]] + pattern[1..];
      if s != "" {
        LiteralMatch(pattern[1..], s[1..]);
        assert s == [s[0]] + s[1..];
      }
    }
  }

  /** A string used as a LIKE pattern stands for itself alone, just when it has no wildcard
      and no letter in it. */
  lemma LikeIsEqualityIff(pattern: string)
    ensures (forall s :: MatchesOnlyItself(pattern, s)) <==>
              forall c :: c in pattern ==> c != '%' && c != '_' && !('A' <= c <= 'Z') && !('a' <= c <= 'z')
    ensures (forall s :: MatchesOnlyItself(pattern, s)) <==> AllLiteral(pattern)
  {
    if AllLiteral(pattern) {
      forall s
        ensures MatchesOnlyItself(pattern, s)
      {
        LiteralMatch(pattern, s);
      }
    } else {
      var i :| 0 <= i < |pattern| && !Literal(pattern[i]);
      var s := pattern[i := Other(pattern[i])];
      LikeCharwise(pattern, s, "", "");
      assert pattern + "" == pattern && s + "" == s;
      assert s[i] != pattern[i];
      assert !MatchesOnlyItself(pattern, s);
    }
  }

  // ---------------------------------------------------------------- suffixes

  ghost predicate SameFolded(a: string, b: string) {
    |a| == |b| && forall i :: 0 <= i < |a| ==> Fold(a[i]) == Fold(b[i])
  }

  lemma {:induction false} LikeWithoutWildcards(pattern: string, s: string)
    requires '%' !in pattern && '_' !in pattern
    ensures Like(pattern, s) <==> SameFolded(pattern, s)
    decreases |pattern|
  {
    if pattern != "" && s != "" {
      assert pattern == [pattern[0]] + pattern[1..] && s == [s[0]] + s[1..];
      LikeWithoutWildcards(pattern[1..], s[1..]);
    } else if pattern != "" {
      assert pattern[0] in pattern;
    }
  }

  /** The string ends in the suffix, up to the case of letters. */
  ghost predicate EndsFolded(suffix: string, s: string) {
    |suffix| <= |s| && SameFolded(suffix, s[|s| - |suffix|..])
  }

  lemma LikePercent(rest: string, s: string)
    ensures Like("%" + rest, s) <==> Like(rest, s) || (s != "" && Like("%" + rest, s[1..]))
  {
    assert ("%" + rest)[1..] == rest;
  }

  lemma EndsFoldedStep(suffix: string, s: string)
    requires s != ""
    ensures EndsFolded(suffix, s) <==> SameFolded(suffix, s) || EndsFolded(suffix, s[1..])
  {
    if |suffix| == |s| {
      assert s[|s| - |suffix|..] == s;
    } else if |suffix| < |s| {
      assert s[1..][|s[1..]| - |suffix|..] == s[|s| - |suffix|..];
    }
  }

  /** `%suffix` asks for the suffix only, up to the case of letters. */
  lemma {:induction false} LikeSuffix(suffix: string, s: string)
    requires '%' !in suffix && '_' !in suffix
    ensures Like("%" + suffix, s) <==> EndsFolded(suffix, s)
    decreases |s|
  {
    LikePercent(suffix, s);
    LikeWithoutWildcards(suffix, s);
    if s != "" {
      LikeSuffix(suffix, s[1..]);
      EndsFoldedStep(suffix, s);
    }
  }

  /** Cutting off a suffix whose first character does not occur before it. */
  lemma {:induction false} ReplaceSuffix(s: string, suffix: string, to: string)
    requires suffix != "" && suffix[0] !in s
    ensures Replace(s + suffix, suffix, to) == s + to
    decreases |s|
  {
    var all := s + suffix;
    if s == "" {
      assert all == suffix && all[|suffix|..] == "";
    } else {
      assert all[0] == s[0] && s[0] in s;
      assert all[1..] == s[1..] + suffix;
      ReplaceSuffix(s[1..], suffix, to);
      assert s + to == [s[0]] + (s[1..] + to);
    }
  }
}

/** The SQL LIKE tests. Both compile the pattern into an anchored,
    case-insensitive regular expression ("^" + escaped pattern with % as ".*"
    and _ as "." + "$"); here each language is recognised by a recursive
    matcher, and proved equal to a declarative reading of the pattern.
    IsLikeMatch is the test of both indexes; IsWhereLikeMatch is the WHERE
    clause's, which differs from it only on a backslash standing right
    before a wildcard. */
module Like {
  import opened Text

  /** Characters match when their upper-case images agree (RegexOptions.IgnoreCase). */
  predicate SameLetter(a: char, b: char) {
    UpperChar(a) == UpperChar(b)
  }

  /** IsLikeMatch(value, pattern): the whole value matches the pattern. */
  predicate IsLikeMatch(value: string, pattern: string)
    decreases |value| + |pattern|
  {
    if pattern == [] then value == []
    else if pattern[0] == '%' then
      IsLikeMatch(value, pattern[1..]) || (value != [] && IsLikeMatch(value[1..], pattern))
    else
      value != [] && (pattern[0] == '_' || SameLetter(value[0], pattern[0]))
      && IsLikeMatch(value[1..], pattern[1..])
  }

  /** The language of a pattern, read directly: % stands for any run of
      characters (".*"), _ for exactly one character ("."), and every other
      character for itself up to case; the match is anchored at both ends. */
  ghost predicate InLanguage(value: string, pattern: string)
    decreases |pattern|
  {
    if pattern == [] then value == []
    else if pattern[0] == '%' then
      exists k :: 0 <= k <= |value| && InLanguage(value[k..], pattern[1..])
    else
      |value| >= 1 && (pattern[0] == '_' || SameLetter(value[0], pattern[0]))
      && InLanguage(value[1..], pattern[1..])
  }

  lemma {:induction false} MatchSound(value: string, pattern: string)
    requires IsLikeMatch(value, pattern)
    ensures InLanguage(value, pattern)
    decreases |value| + |pattern|
  {
    if pattern == [] {
    } else if pattern[0] == '%' {
      if IsLikeMatch(value, pattern[1..]) {
        MatchSound(value, pattern[1..]);
        assert value[0..] == value;
      } else {
        MatchSound(value[1..], pattern);
        var k :| 0 <= k <= |value[1..]| && InLanguage(value[1..][k..], pattern[1..]);
        assert value[1..][k..] == value[k + 1..];
      }
    } else {
      MatchSound(value[1..], pattern[1..]);
    }
  }

  lemma {:induction false} MatchComplete(value: string, pattern: string)
    requires InLanguage(value, pattern)
    ensures IsLikeMatch(value, pattern)
    decreases |value| + |pattern|
  {
    if pattern == [] {
    } else if pattern[0] == '%' {
      var k :| 0 <= k <= |value| && InLanguage(value[k..], pattern[1..]);
      if k == 0 {
        assert value[0..] == value;
        MatchComplete(value, pattern[1..]);
      } else {
        assert value[1..][k - 1..] == value[k..];
        assert InLanguage(value[1..], pattern);
        MatchComplete(value[1..], pattern);
      }
    } else {
      MatchComplete(value[1..], pattern[1..]);
    }
  }

  /** The matcher accepts exactly the language of the pattern. */
  lemma {:induction false} MatchIffInLanguage(value: string, pattern: string)
    ensures IsLikeMatch(value, pattern) <==> InLanguage(value, pattern)
  {
    if IsLikeMatch(value, pattern) { MatchSound(value, pattern); }
    if InLanguage(value, pattern) { MatchComplete(value, pattern); }
  }

  /** "%" matches every value. */
  lemma {:induction false} PercentMatchesAll(value: string)
    ensures IsLikeMatch(value, "%")
    decreases |value|
  {
    assert "%"[1..] == [];
    if value != [] {
      PercentMatchesAll(value[1..]);
    }
  }

  predicate NoWildcards(pattern: string) {
    forall i :: 0 <= i < |pattern| ==> pattern[i] != '%' && pattern[i] != '_'
  }

  /** A pattern without wildcards matches exactly the values equal to it
      up to case. */
  lemma {:induction false} LiteralPattern(value: string, pattern: string)
    requires NoWildcards(pattern)
    ensures IsLikeMatch(value, pattern) <==> EqualsIgnoreCase(value, pattern)
    decreases |pattern|
  {
    if pattern != [] && value != [] {
      LiteralPattern(value[1..], pattern[1..]);
      assert Upper(value) == [UpperChar(value[0])] + Upper(value[1..]);
      assert Upper(pattern) == [UpperChar(pattern[0])] + Upper(pattern[1..]);
    }
  }

  /** A value matching "<prefix>%" starts with the prefix, up to case. */
  lemma {:induction false} PrefixPattern(value: string, prefix: string)
    requires NoWildcards(prefix)
    requires IsLikeMatch(value, prefix + "%")
    ensures |prefix| <= |value| && EqualsIgnoreCase(value[..|prefix|], prefix)
    decreases |prefix|
  {
    if prefix != [] {
      assert (prefix + "%")[1..] == prefix[1..] + "%";
      PrefixPattern(value[1..], prefix[1..]);
      assert value[..|prefix|] == [value[0]] + value[1..][..|prefix| - 1];
      assert Upper(value[..|prefix|]) == [UpperChar(value[0])] + Upper(value[1..][..|prefix| - 1]);
      assert Upper(prefix) == [UpperChar(prefix[0])] + Upper(prefix[1..]);
    }
  }

  // ---------------------------------------------------------------------------
  // The WHERE clause variant

  /** The pattern starts with a backslash followed by the wildcard w. */
  predicate EscapedWildcard(pattern: string, w: char) {
    |pattern| >= 2 && pattern[0] == '\\' && pattern[1] == w
  }

  /** The WHERE clause's test. Regex.Escape doubles each backslash of the
      pattern and leaves % and _ alone; the replacements of \% by % and of
      \_ by _ then consume the second backslash of a pair standing before a
      wildcard, and the first escapes the "." the wildcard becomes. So a
      backslash right before % means any run of literal dots, one right
      before _ a single dot, and every other character, backslash included,
      stands for itself up to case. */
  predicate IsWhereLikeMatch(value: string, pattern: string)
    decreases |value| + |pattern|
  {
    if pattern == [] then value == []
    else if EscapedWildcard(pattern, '%') then
      IsWhereLikeMatch(value, pattern[2..]) || (value != [] && value[0] == '.' && IsWhereLikeMatch(value[1..], pattern))
    else if EscapedWildcard(pattern, '_') then
      value != [] && value[0] == '.' && IsWhereLikeMatch(value[1..], pattern[2..])
    else if pattern[0] == '%' then
      IsWhereLikeMatch(value, pattern[1..]) || (value != [] && IsWhereLikeMatch(value[1..], pattern))
    else
      value != [] && (pattern[0] == '_' || SameLetter(value[0], pattern[0]))
      && IsWhereLikeMatch(value[1..], pattern[1..])
  }

  predicate AllDots(s: string) {
    forall i :: 0 <= i < |s| ==> s[i] == '.'
  }

  /** The WHERE clause's language read directly: the index language, except
      that backslash-percent stands for any run of dots and backslash-underscore
      for a single dot. */
  ghost predicate InWhereLanguage(value: string, pattern: string)
    decreases |pattern|
  {
    if pattern == [] then value == []
    else if EscapedWildcard(pattern, '%') then
      exists k :: 0 <= k <= |value| && AllDots(value[..k]) && InWhereLanguage(value[k..], pattern[2..])
    else if EscapedWildcard(pattern, '_') then
      |value| >= 1 && value[0] == '.' && InWhereLanguage(value[1..], pattern[2..])
    else if pattern[0] == '%' then
      exists k :: 0 <= k <= |value| && InWhereLanguage(value[k..], pattern[1..])
    else
      |value| >= 1 && (pattern[0] == '_' || SameLetter(value[0], pattern[0]))
      && InWhereLanguage(value[1..], pattern[1..])
  }

  /** A dot in front of a value in the language of a dot run keeps it there. */
  lemma {:induction false} DotRunLonger(value: string, pattern: string)
    requires EscapedWildcard(pattern, '%')
    requires value != [] && value[0] == '.' && InWhereLanguage(value[1..], pattern)
    ensures InWhereLanguage(value, pattern)
  {
    var k :| 0 <= k <= |value[1..]| && AllDots(value[1..][..k]) && InWhereLanguage(value[1..][k..], pattern[2..]);
    assert value[..k + 1] == [value[0]] + value[1..][..k];
    assert value[1..][k..] == value[k + 1..];
  }

  /** A dot run of length k > 0 leaves one of length k - 1 after its first dot. */
  lemma {:induction false} DotRunShorter(value: string, pattern: string, k: nat)
    requires EscapedWildcard(pattern, '%')
    requires 0 < k <= |value| && AllDots(value[..k]) && InWhereLanguage(value[k..], pattern[2..])
    ensures value[0] == '.' && InWhereLanguage(value[1..], pattern)
  {
    assert value[..k][0] == value[0];
    assert value[1..][..k - 1] == value[1..k];
    assert value[1..][k - 1..] == value[k..];
  }

  lemma {:induction false} WhereMatchSound(value: string, pattern: string)
    requires IsWhereLikeMatch(value, pattern)
    ensures InWhereLanguage(value, pattern)
    decreases |value| + |pattern|
  {
    if pattern == [] {
    } else if EscapedWildcard(pattern, '%') {
      if IsWhereLikeMatch(value, pattern[2..]) {
        WhereMatchSound(value, pattern[2..]);
        assert value[..0] == [] && value[0..] == value;
      } else {
        WhereMatchSound(value[1..], pattern);
        DotRunLonger(value, pattern);
      }
    } else if EscapedWildcard(pattern, '_') {
      WhereMatchSound(value[1..], pattern[2..]);
    } else if pattern[0] == '%' {
      if IsWhereLikeMatch(value, pattern[1..]) {
        WhereMatchSound(value, pattern[1..]);
        assert value[0..] == value;
      } else {
        WhereMatchSound(value[1..], pattern);
        var k :| 0 <= k <= |value[1..]| && InWhereLanguage(value[1..][k..], pattern[1..]);
        assert value[1..][k..] == value[k + 1..];
      }
    } else {
      WhereMatchSound(value[1..], pattern[1..]);
    }
  }

  lemma {:induction false} WhereMatchComplete(value: string, pattern: string)
    requires InWhereLanguage(value, pattern)
    ensures IsWhereLikeMatch(value, pattern)
    decreases |value| + |pattern|
  {
    if pattern == [] {
    } else if EscapedWildcard(pattern, '%') {
      var k :| 0 <= k <= |value| && AllDots(value[..k]) && InWhereLanguage(value[k..], pattern[2..]);
      if k == 0 {
        assert value[0..] == value;
        WhereMatchComplete(value, pattern[2..]);
      } else {
        DotRunShorter(value, pattern, k);
        WhereMatchComplete(value[1..], pattern);
      }
    } else if EscapedWildcard(pattern, '_') {
      WhereMatchComplete(value[1..], pattern[2..]);
    } else if pattern[0] == '%' {
      var k :| 0 <= k <= |value| && InWhereLanguage(value[k..], pattern[1..]);
      if k == 0 {
        assert value[0..] == value;
        WhereMatchComplete(value, pattern[1..]);
      } else {
        assert value[1..][k - 1..] == value[k..];
        assert InWhereLanguage(value[1..], pattern);
        WhereMatchComplete(value[1..], pattern);
      }
    } else {
      WhereMatchComplete(value[1..], pattern[1..]);
    }
  }

  /** The WHERE matcher accepts exactly the WHERE language of the pattern. */
  lemma {:induction false} WhereMatchIffInLanguage(value: string, pattern: string)
    ensures IsWhereLikeMatch(value, pattern) <==> InWhereLanguage(value, pattern)
  {
    if IsWhereLikeMatch(value, pattern) { WhereMatchSound(value, pattern); }
    if InWhereLanguage(value, pattern) { WhereMatchComplete(value, pattern); }
  }

  /** No backslash of the pattern stands right before a wildcard. */
  predicate NoEscapedWildcards(pattern: string) {
    forall i :: 0 <= i < |pattern| - 1 && pattern[i] == '\\' ==> pattern[i + 1] != '%' && pattern[i + 1] != '_'
  }

  /** Without a backslash before a wildcard the WHERE clause and the indexes
      give the same verdict. */
  lemma {:induction false} WhereAgreesWithoutEscapes(value: string, pattern: string)
    requires NoEscapedWildcards(pattern)
    ensures IsWhereLikeMatch(value, pattern) == IsLikeMatch(value, pattern)
    decreases |value| + |pattern|
  {
    if pattern != [] {
      assert !EscapedWildcard(pattern, '%') && !EscapedWildcard(pattern, '_') by {
        if |pattern| >= 2 && pattern[0] == '\\' { assert pattern[1] != '%' && pattern[1] != '_'; }
      }
      assert NoEscapedWildcards(pattern[1..]) by {
        forall i | 0 <= i < |pattern[1..]| - 1 && pattern[1..][i] == '\\'
          ensures pattern[1..][i + 1] != '%' && pattern[1..][i + 1] != '_'
        {
          assert pattern[1..][i] == pattern[i + 1];
        }
      }
      if value != [] {
        WhereAgreesWithoutEscapes(value[1..], pattern[1..]);
      }
      if pattern[0] == '%' {
        WhereAgreesWithoutEscapes(value, pattern[1..]);
        if value != [] {
          WhereAgreesWithoutEscapes(value[1..], pattern);
        }
      }
    }
  }

  /** The two tests part on the pattern a, backslash, %: the WHERE clause
      reads it as "a" and a run of dots, the indexes as "a", a backslash and
      anything. */
  lemma EscapedPercentDiffers()
    ensures IsWhereLikeMatch("a..", "a\\%") && !IsLikeMatch("a..", "a\\%")
    ensures IsLikeMatch("a\\xyz", "a\\%") && !IsWhereLikeMatch("a\\xyz", "a\\%")
  {
    assert "a\\%"[1..] == "\\%" && "\\%"[2..] == [] && "\\%"[1..] == "%" && "%"[1..] == [];
    assert "a.."[1..] == ".." && ".."[1..] == "." && "."[1..] == [];
    assert "a\\xyz"[1..] == "\\xyz" && "\\xyz"[1..] == "xyz" && "xyz"[1..] == "yz" && "yz"[1..] == "z" && "z"[1..] == [];
    assert IsLikeMatch("z", "%") && IsLikeMatch("yz", "%") && IsLikeMatch("xyz", "%");
  }

  /** With a prefix free of wildcards and not ending in a backslash, a value
      matching "<prefix>%" in a WHERE clause starts with the prefix, up to case. */
  lemma {:induction false} WherePrefixPattern(value: string, prefix: string)
    requires NoWildcards(prefix)
    requires prefix == [] || prefix[|prefix| - 1] != '\\'
    requires IsWhereLikeMatch(value, prefix + "%")
    ensures |prefix| <= |value| && EqualsIgnoreCase(value[..|prefix|], prefix)
  {
    var p := prefix + "%";
    assert NoEscapedWildcards(p) by {
      forall i | 0 <= i < |p| - 1 && p[i] == '\\'
        ensures p[i + 1] != '%' && p[i + 1] != '_'
      {
        assert p[i] == prefix[i];
        if i + 1 < |prefix| { assert p[i + 1] == prefix[i + 1]; }
      }
    }
    WhereAgreesWithoutEscapes(value, p);
    PrefixPattern(value, prefix);
  }
}

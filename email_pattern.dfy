/**
 * The email shape check shared by the registration and login pages:
 * `re.match(r"^[\w\.-]+@[\w\.-]+\.\w+$", s)`. Without the MULTILINE flag,
 * `$` matches at the end of the string and also just before a newline that
 * ends it.
 */
module EmailPattern {
  import opened PyText

  /** The regex class `[\w\.-]`. */
  predicate IsNameChar(c: char) {
    IsWordChar(c) || c == '.' || c == '-'
  }

  /**
   * `s` matches the pattern with its `@` at index `a` and the `.` before the
   * final run of word characters at index `b`.
   */
  predicate MatchAt(s: string, a: int, b: int) {
    && 0 < a && a + 1 < b < |s| - 1
    && s[a] == '@' && s[b] == '.'
    && (forall k | 0 <= k < a :: IsNameChar(s[k]))
    && (forall k | a < k < b :: IsNameChar(s[k]))
    && (forall k | b < k < |s| :: IsWordChar(s[k]))
  }

  /**
   * The language of the pattern: a non-empty run of name characters, `@`, a
   * non-empty run of name characters, `.`, and a non-empty run of word
   * characters, with nothing before or after.
   */
  predicate Matches(s: string) {
    exists a, b | 0 < a < |s| && 0 < b < |s| :: MatchAt(s, a, b)
  }

  /** `re.match(…, s) is not None`: a match of the pattern, alone or followed by one final newline. */
  predicate Accepts(s: string) {
    Matches(s) || (|s| > 0 && s[|s| - 1] == '\n' && Matches(s[..|s| - 1]))
  }

  /** The `$` of the pattern lets a single trailing newline through. */
  lemma AcceptsTrailingNewline(s: string)
    requires Matches(s)
    ensures Accepts(s + "\n") && !Matches(s + "\n")
  {
    var t := s + "\n";
    assert t[..|t| - 1] == s;
    MatchEndsInWordChar(t);
    assert t[|t| - 1] == '\n';
  }

  /** A match of the pattern ends with a word character. */
  lemma MatchEndsInWordChar(s: string)
    ensures Matches(s) ==> |s| > 0 && IsWordChar(s[|s| - 1])
  {
    if Matches(s) {
      var a, b :| 0 < a < |s| && 0 < b < |s| && MatchAt(s, a, b);
      assert b < |s| - 1;
    }
  }

  /** A domain `d` of the pattern: name characters, then a last `.` that is neither first nor last, then word characters. */
  predicate DomainMatches(d: string) {
    var b := RFind(d, '.');
    && 0 < b < |d| - 1
    && (forall k | 0 <= k < b :: IsNameChar(d[k]))
    && (forall k | b < k < |d| :: IsWordChar(d[k]))
  }

  /** The same language decided by locating the first `@` and the last `.` after it. */
  predicate MatchesBySplit(s: string) {
    var a := Find(s, '@');
    && a > 0
    && (forall k | 0 <= k < a :: IsNameChar(s[k]))
    && DomainMatches(s[a + 1..])
  }

  /** Any match of the pattern puts its `@` at the first `@` and its `.` at the last `.` after it. */
  lemma MatchAtIsSplit(s: string, a: int, b: int)
    requires MatchAt(s, a, b)
    ensures a == Find(s, '@') && b - a - 1 == RFind(s[a + 1..], '.')
    ensures MatchesBySplit(s)
  {
    var f := Find(s, '@');
    assert f == a by {
      assert f >= 0 && f <= a;
    }
    var d := s[a + 1..];
    var r := RFind(d, '.');
    assert d[b - a - 1] == '.';
    assert r == b - a - 1 by {
      assert r >= b - a - 1;
    }
    forall k | 0 <= k < r ensures IsNameChar(d[k]) { assert d[k] == s[a + 1 + k]; }
    forall k | r < k < |d| ensures IsWordChar(d[k]) { assert d[k] == s[a + 1 + k]; }
  }

  /** The split-based reading gives a match of the pattern. */
  lemma SplitIsMatch(s: string)
    requires MatchesBySplit(s)
    ensures MatchAt(s, Find(s, '@'), Find(s, '@') + 1 + RFind(s[Find(s, '@') + 1..], '.'))
    ensures Matches(s)
  {
    var a := Find(s, '@');
    var d := s[a + 1..];
    var r := RFind(d, '.');
    var b := a + 1 + r;
    assert s[b] == d[r];
    forall k | a < k < b ensures IsNameChar(s[k]) { assert s[k] == d[k - a - 1]; }
    forall k | b < k < |s| ensures IsWordChar(s[k]) { assert s[k] == d[k - a - 1]; }
    assert MatchAt(s, a, b);
  }

  /** The pattern and the split-based reading of it accept the same strings. */
  lemma MatchesIffSplit(s: string)
    ensures Matches(s) <==> MatchesBySplit(s)
  {
    if Matches(s) {
      var a, b :| 0 < a < |s| && 0 < b < |s| && MatchAt(s, a, b);
      MatchAtIsSplit(s, a, b);
    }
    if MatchesBySplit(s) {
      SplitIsMatch(s);
    }
  }

  /** A matching string has exactly one `@`, a non-empty part before it and no whitespace. */
  lemma MatchedShape(s: string)
    requires Matches(s)
    ensures Find(s, '@') > 0
    ensures forall j | 0 <= j < |s| && s[j] == '@' :: j == Find(s, '@')
    ensures forall j | 0 <= j < |s| :: !IsSpace(s[j])
  {
    var a, b :| 0 < a < |s| && 0 < b < |s| && MatchAt(s, a, b);
    MatchAtIsSplit(s, a, b);
    assert forall k | 0 <= k < |s| && k != a :: IsNameChar(s[k]) by {
      forall k | 0 <= k < |s| && k != a ensures IsNameChar(s[k]) {
        if b < k {
          assert IsWordChar(s[k]);
        }
      }
    }
    forall j | 0 <= j < |s| ensures (s[j] == '@' ==> j == a) && !IsSpace(s[j]) {
      if j != a {
        NameCharIsPlain(s[j]);
      }
    }
  }

  /**
   * An accepted string has exactly one `@`, a non-empty part before it and no
   * whitespace but possibly the final newline.
   */
  lemma AcceptedShape(s: string)
    requires Accepts(s)
    ensures Find(s, '@') > 0
    ensures forall j | 0 <= j < |s| && s[j] == '@' :: j == Find(s, '@')
    ensures forall j | 0 <= j < |s| && IsSpace(s[j]) :: j == |s| - 1 && s[j] == '\n'
  {
    if Matches(s) {
      MatchedShape(s);
    } else {
      NewlineShape(s);
    }
  }

  /** The case of `AcceptedShape` where a match is followed by a newline. */
  lemma NewlineShape(s: string)
    requires |s| > 0 && s[|s| - 1] == '\n' && Matches(s[..|s| - 1])
    ensures Find(s, '@') > 0
    ensures forall j | 0 <= j < |s| && s[j] == '@' :: j == Find(s, '@')
    ensures forall j | 0 <= j < |s| && IsSpace(s[j]) :: j == |s| - 1
  {
    var t := s[..|s| - 1];
    MatchedShape(t);
    var a := Find(t, '@');
    assert forall k | 0 <= k < |t| :: s[k] == t[k];
    assert s[a] == '@';
    assert Find(s, '@') == a;
  }

  /** Name characters are neither `@` nor whitespace. */
  lemma NameCharIsPlain(c: char)
    requires IsNameChar(c)
    ensures c != '@' && !IsSpace(c)
  {
  }
}

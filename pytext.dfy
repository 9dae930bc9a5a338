/**
 * The parts of Python's `str` type and of its regular-expression character
 * classes that the application relies on: `isspace`, `strip`, `split` with no
 * separator, `" ".join`, `find`, `rfind` and `lower`.
 */
module PyText {

  /** `c.isspace()`: the characters that `str.split()` and `str.strip()` treat as whitespace. */
  predicate IsSpace(c: char) {
    var n := c as int;
    n == 0x20 || 0x09 <= n <= 0x0D || 0x1C <= n <= 0x1F || n == 0x85 || n == 0xA0 || n == 0x1680
    || 0x2000 <= n <= 0x200A || n == 0x2028 || n == 0x2029 || n == 0x202F || n == 0x205F || n == 0x3000
  }

  /** The regex class `[A-Z]`. */
  predicate IsAsciiUpper(c: char) { 'A' <= c <= 'Z' }

  /** The ASCII part of the regex class `\d`. */
  predicate IsAsciiDigit(c: char) { '0' <= c <= '9' }

  /** The ASCII part of the regex class `\w`. */
  predicate IsWordChar(c: char) { 'a' <= c <= 'z' || 'A' <= c <= 'Z' || '0' <= c <= '9' || c == '_' }

  predicate AllSpace(s: string) {
    forall i | 0 <= i < |s| :: IsSpace(s[i])
  }

  // ---------------------------------------------------------------------------
  // strip()
  // ---------------------------------------------------------------------------

  /** The end of the run of whitespace that starts at `i`. */
  function SkipSpace(s: string, i: nat): (e: nat)
    requires i <= |s|
    ensures i <= e <= |s|
    ensures forall k | i <= k < e :: IsSpace(s[k])
    ensures e < |s| ==> !IsSpace(s[e])
    decreases |s| - i
  {
    if i < |s| && IsSpace(s[i]) then SkipSpace(s, i + 1) else i
  }

  /** The start of the run of whitespace that ends at `j`, going back no further than `lo`. */
  function SkipSpaceBack(s: string, lo: nat, j: nat): (b: nat)
    requires lo <= j <= |s|
    ensures lo <= b <= j
    ensures forall k | b <= k < j :: IsSpace(s[k])
    ensures b > lo ==> !IsSpace(s[b - 1])
    decreases j
  {
    if j > lo && IsSpace(s[j - 1]) then SkipSpaceBack(s, lo, j - 1) else j
  }

  /** `s.strip()`: `s` without its leading and trailing whitespace. */
  function Strip(s: string): (r: string)
    ensures r == [] <==> AllSpace(s)
    ensures r != [] ==> !IsSpace(r[0]) && !IsSpace(r[|r| - 1])
  {
    var a := SkipSpace(s, 0);
    var b := SkipSpaceBack(s, a, |s|);
    assert a == b ==> forall k | 0 <= k < |s| :: IsSpace(s[k]);
    s[a..b]
  }

  /** Strip removes whitespace at the two ends of `s` and nothing else. */
  lemma StripRemovesOnlyEdges(s: string)
    ensures exists i, j | 0 <= i <= j <= |s| ::
              && Strip(s) == s[i..j]
              && (forall k | 0 <= k < i :: IsSpace(s[k]))
              && (forall k | j <= k < |s| :: IsSpace(s[k]))
  {
    var a := SkipSpace(s, 0);
    var b := SkipSpaceBack(s, a, |s|);
    assert Strip(s) == s[a..b];
  }

  /** Stripping twice is stripping once. */
  lemma StripIdempotent(s: string)
    ensures Strip(Strip(s)) == Strip(s)
  {
    var r := Strip(s);
    if r != [] {
      assert SkipSpace(r, 0) == 0;
      assert SkipSpaceBack(r, 0, |r|) == |r|;
      assert r[0..|r|] == r;
    }
  }

  // ---------------------------------------------------------------------------
  // find() and rfind() for one character
  // ---------------------------------------------------------------------------

  /** `s.find(c)`: the first index of `c` in `s`, or -1. */
  function Find(s: string, c: char): (r: int)
    ensures -1 <= r < |s|
    ensures r == -1 <==> forall k | 0 <= k < |s| :: s[k] != c
    ensures r >= 0 ==> s[r] == c && forall k | 0 <= k < r :: s[k] != c
  {
    if s == [] then -1
    else if s[0] == c then 0
    else
      var k := Find(s[1..], c);
      if k == -1 then -1 else k + 1
  }

  /** `s.rfind(c)`: the last index of `c` in `s`, or -1. */
  function RFind(s: string, c: char): (r: int)
    ensures -1 <= r < |s|
    ensures r == -1 <==> forall k | 0 <= k < |s| :: s[k] != c
    ensures r >= 0 ==> s[r] == c && forall k | r < k < |s| :: s[k] != c
  {
    if s == [] then -1
    else if s[|s| - 1] == c then |s| - 1
    else RFind(s[..|s| - 1], c)
  }

  // ---------------------------------------------------------------------------
  // lower()
  // ---------------------------------------------------------------------------

  /** `c.lower()` on the ASCII letters; every other character is left as it is. */
  function LowerChar(c: char): char {
    if 'A' <= c <= 'Z' then (c as int + 32) as char else c
  }

  /** `s.lower()` */
  function Lower(s: string): (r: string)
    ensures |r| == |s|
    ensures forall i | 0 <= i < |s| :: r[i] == LowerChar(s[i])
  {
    seq(|s|, i requires 0 <= i < |s| => LowerChar(s[i]))
  }

  // ---------------------------------------------------------------------------
  // split() and " ".join(...)
  // ---------------------------------------------------------------------------

  /** A word of `str.split()`: a non-empty run of non-whitespace characters. */
  predicate IsWord(w: string) {
    w != [] && forall i | 0 <= i < |w| :: !IsSpace(w[i])
  }

  /** The length of the run of non-whitespace characters at the start of `s`. */
  function WordLen(s: string): (n: nat)
    ensures n <= |s|
    ensures forall i | 0 <= i < n :: !IsSpace(s[i])
    ensures n < |s| ==> IsSpace(s[n])
  {
    if s == [] || IsSpace(s[0]) then 0 else 1 + WordLen(s[1..])
  }

  /** `s.split()` with no separator: the maximal runs of non-whitespace, in order. */
  function Words(s: string): (ws: seq<string>)
    ensures forall k | 0 <= k < |ws| :: IsWord(ws[k])
    decreases |s|
  {
    if s == [] then []
    else if IsSpace(s[0]) then Words(s[1..])
    else
      var n := WordLen(s);
      [s[..n]] + Words(s[n..])
  }

  /** `" ".join(ws)` */
  function JoinSpace(ws: seq<string>): (r: string)
    ensures ws != [] ==> ws[0] <= r
  {
    if ws == [] then ""
    else if |ws| == 1 then ws[0]
    else ws[0] + " " + JoinSpace(ws[1..])
  }

  /** `" ".join(s.split())`: every run of whitespace becomes one space and the ends are trimmed. */
  function Normalize(s: string): (r: string)
    ensures IsNormal(r)
  {
    JoinSpaceIsNormal(Words(s));
    JoinSpace(Words(s))
  }

  /**
   * The shape of the strings Normalize produces: the only whitespace is `' '`,
   * never at either end and never twice in a row.
   */
  ghost predicate IsNormal(t: string) {
    && (forall i | 0 <= i < |t| && IsSpace(t[i]) :: t[i] == ' ' && 0 < i < |t| - 1)
    && (forall i, j | 0 <= i && j == i + 1 && j < |t| :: !(IsSpace(t[i]) && IsSpace(t[j])))
  }

  /** A string without whitespace is one word of `split()`. */
  lemma WordsOfWord(w: string)
    requires IsWord(w)
    ensures Words(w) == [w]
  {
    var n := WordLen(w);
    assert n == |w|;
    assert w[..n] == w && w[n..] == [];
  }

  /** Joining words with single spaces gives a normal string. */
  lemma {:induction false} JoinSpaceIsNormal(ws: seq<string>)
    requires forall k | 0 <= k < |ws| :: IsWord(ws[k])
    ensures IsNormal(JoinSpace(ws))
  {
    if |ws| >= 2 {
      var w, j := ws[0], JoinSpace(ws[1..]);
      JoinSpaceIsNormal(ws[1..]);
      var t := JoinSpace(ws);
      assert t == w + " " + j;
      assert ws[1] <= j;
      assert forall i | 0 <= i < |w| :: t[i] == w[i];
      forall i | 0 <= i < |t| && IsSpace(t[i])
        ensures t[i] == ' ' && 0 < i < |t| - 1 && !IsSpace(t[i + 1])
      {
        if i == |w| {
          assert t[i + 1] == j[0] == ws[1][0];
        } else if i > |w| {
          assert t[i] == j[i - |w| - 1];
          assert i + 1 < |t| ==> t[i + 1] == j[i - |w|];
        }
      }
    }
  }

  /** `" ".join(ws).split() == ws` when every element of `ws` is a word. */
  lemma {:induction false} WordsOfJoin(ws: seq<string>)
    requires forall k | 0 <= k < |ws| :: IsWord(ws[k])
    ensures Words(JoinSpace(ws)) == ws
  {
    if |ws| == 1 {
      WordsOfWord(ws[0]);
    } else if |ws| >= 2 {
      var w, j := ws[0], JoinSpace(ws[1..]);
      var t := w + " " + j;
      assert JoinSpace(ws) == t;
      assert !IsSpace(t[0]) by { assert t[0] == w[0]; }
      var n := WordLen(t);
      assert forall i | 0 <= i < |w| :: t[i] == w[i];
      assert t[|w|] == ' ';
      assert n == |w|;
      assert t[..n] == w;
      assert t[n..][1..] == j;
      assert Words(t[n..]) == Words(j);
      WordsOfJoin(ws[1..]);
      assert ws == [w] + ws[1..];
    }
  }

  /** Normalising keeps the sequence of words. */
  lemma NormalizeKeepsWords(s: string)
    ensures Words(Normalize(s)) == Words(s)
  {
    WordsOfJoin(Words(s));
  }

  /** The result of Normalize is normal. */
  lemma NormalizeIsNormal(s: string)
    ensures IsNormal(Normalize(s))
  {
    JoinSpaceIsNormal(Words(s));
  }

  /** Normalize is idempotent. */
  lemma NormalizeIdempotent(s: string)
    ensures Normalize(Normalize(s)) == Normalize(s)
  {
    NormalizeKeepsWords(s);
  }

  /** A normal string is left unchanged by Normalize, so Normalize(s) is the one normal string with the words of `s`. */
  lemma {:induction false} NormalIsFixedPoint(t: string)
    requires IsNormal(t)
    ensures Normalize(t) == t
    decreases |t|
  {
    if t != [] {
      assert !IsSpace(t[0]);
      var n := WordLen(t);
      var w := t[..n];
      WordsOfWord(w);
      if n == |t| {
        assert w == t;
      } else {
        var u := t[n + 1..];
        NormalTail(t, n);
        NormalIsFixedPoint(u);
        WordsAtSpace(w, ' ', u);
        var wu := Words(u);
        assert wu != [];
        assert Words(t) == [w] + wu;
        assert ([w] + wu)[1..] == wu;
      }
    }
  }

  /** In a normal string, a whitespace character is one space followed by a normal rest. */
  lemma NormalTail(t: string, n: nat)
    requires IsNormal(t) && n < |t| && IsSpace(t[n])
    ensures t[n] == ' ' && n + 1 < |t| && t == t[..n] + [' '] + t[n + 1..]
    ensures IsNormal(t[n + 1..])
  {
    var u := t[n + 1..];
    assert t == t[..n] + [t[n]] + u;
    forall j | 0 <= j < |u| && IsSpace(u[j]) ensures u[j] == ' ' && 0 < j < |u| - 1 {
      assert u[j] == t[n + 1 + j];
    }
    forall i, j | 0 <= i && j == i + 1 && j < |u| ensures !(IsSpace(u[i]) && IsSpace(u[j])) {
      assert u[i] == t[n + 1 + i] && u[j] == t[n + 1 + j];
    }
  }

  /** Splitting a string at one whitespace character splits its word sequence there. */
  lemma {:induction false} WordsAtSpace(a: string, c: char, b: string)
    requires IsSpace(c)
    ensures Words(a + [c] + b) == Words(a) + Words(b)
    decreases |a|
  {
    var s := a + [c] + b;
    if a == [] {
      assert s[1..] == b;
    } else if IsSpace(a[0]) {
      assert s[1..] == a[1..] + [c] + b;
      WordsAtSpace(a[1..], c, b);
    } else {
      var m := WordLen(a);
      var n := WordLen(s);
      assert forall i | 0 <= i < |a| :: s[i] == a[i];
      assert s[|a|] == c;
      assert n == m;
      assert s[..n] == a[..m];
      assert s[n..] == a[m..] + [c] + b;
      WordsAtSpace(a[m..], c, b);
    }
  }

  /** Text that is empty or ends in whitespace and the text after it keep their words apart. */
  lemma WordsAfterSpace(t: string, p: string)
    requires t == [] || IsSpace(t[|t| - 1])
    ensures Words(t + p) == Words(t) + Words(p)
  {
    if t == [] {
      assert t + p == p;
    } else {
      var t0, c := t[..|t| - 1], t[|t| - 1];
      assert t == t0 + [c] + [];
      assert t + p == t0 + [c] + p;
      WordsAtSpace(t0, c, p);
      WordsAtSpace(t0, c, []);
    }
  }
}

/** The handful of Python string operations the schema tools rely on:
    `str.strip()`, `str.upper()`, the substring test `t in s`,
    `sep.join(xs)` and, as the inverse of `join`, `s.split(sep)`. */
module Text {

  /** Python's `str.isspace()`: the characters `str.strip()` removes. */
  predicate IsSpace(c: char) {
    || c == ' '
    || ('\t' <= c <= '\r')
    || ('\U{1C}' <= c <= '\U{1F}')
    || c == '\U{85}' || c == '\U{A0}' || c == '\U{1680}'
    || ('\U{2000}' <= c <= '\U{200A}')
    || c == '\U{2028}' || c == '\U{2029}' || c == '\U{202F}' || c == '\U{205F}' || c == '\U{3000}'
  }

  predicate AllSpace(s: string) {
    forall i :: 0 <= i < |s| ==> IsSpace(s[i])
  }

  /** No whitespace at either end: what `strip()` leaves behind. */
  predicate Trimmed(s: string) {
    |s| == 0 || (!IsSpace(s[0]) && !IsSpace(s[|s| - 1]))
  }

  /** `s.lstrip()`: the longest suffix of `s` that does not start with whitespace. */
  function TrimStart(s: string): (r: string)
    ensures |r| <= |s| && r == s[|s| - |r|..]
    ensures AllSpace(s[..|s| - |r|])
    ensures |r| == 0 || !IsSpace(r[0])
  {
    if |s| > 0 && IsSpace(s[0]) then TrimStart(s[1..]) else s
  }

  /** `s.rstrip()`: the longest prefix of `s` that does not end with whitespace. */
  function TrimEnd(s: string): (r: string)
    ensures |r| <= |s| && r == s[..|r|]
    ensures AllSpace(s[|r|..])
    ensures |r| == 0 || !IsSpace(r[|r| - 1])
  {
    if |s| > 0 && IsSpace(s[|s| - 1]) then TrimEnd(s[..|s| - 1]) else s
  }

  /** `r` is a stretch of `s` with nothing but whitespace before and after it. */
  ghost predicate PaddedBy(s: string, r: string) {
    exists k :: 0 <= k <= |s| - |r| && r == s[k..k + |r|] && AllSpace(s[..k]) && AllSpace(s[k + |r|..])
  }

  lemma SpanOfTrims(s: string, a: string, b: string)
    requires |a| <= |s| && a == s[|s| - |a|..] && AllSpace(s[..|s| - |a|])
    requires |b| <= |a| && b == a[..|b|] && AllSpace(a[|b|..])
    ensures PaddedBy(s, b)
  {
    var k := |s| - |a|;
    assert b == s[k..k + |b|];
    assert s[k + |b|..] == a[|b|..];
  }

  /** `s.strip()`: whitespace removed from both ends, the middle kept. */
  function Strip(s: string): (r: string)
    ensures Trimmed(r)
    ensures |r| <= |s|
    ensures PaddedBy(s, r)
  {
    var a := TrimStart(s);
    var b := TrimEnd(a);
    assert |b| == 0 || b[0] == a[0];
    SpanOfTrims(s, a, b);
    b
  }

  lemma {:induction false} TrimStartSpaces(ws: string, t: string)
    requires AllSpace(ws)
    ensures TrimStart(ws + t) == TrimStart(t)
    decreases |ws|
  {
    if |ws| > 0 {
      assert (ws + t)[1..] == ws[1..] + t;
      TrimStartSpaces(ws[1..], t);
    } else {
      assert ws + t == t;
    }
  }

  lemma {:induction false} TrimEndSpaces(t: string, ws: string)
    requires AllSpace(ws)
    ensures TrimEnd(t + ws) == TrimEnd(t)
    decreases |ws|
  {
    if |ws| > 0 {
      assert (t + ws)[..|t + ws| - 1] == t + ws[..|ws| - 1];
      TrimEndSpaces(t, ws[..|ws| - 1]);
    } else {
      assert t + ws == t;
    }
  }

  lemma TrimStartNoop(s: string)
    requires |s| == 0 || !IsSpace(s[0])
    ensures TrimStart(s) == s
  {
  }

  lemma TrimEndNoop(s: string)
    requires |s| == 0 || !IsSpace(s[|s| - 1])
    ensures TrimEnd(s) == s
  {
  }

  lemma {:induction false} TrimStartAppend(t: string, u: string)
    ensures TrimStart(t + u) == if |TrimStart(t)| > 0 then TrimStart(t) + u else TrimStart(u)
    decreases |t|
  {
    if |t| > 0 && IsSpace(t[0]) {
      assert (t + u)[1..] == t[1..] + u;
      TrimStartAppend(t[1..], u);
    } else if |t| == 0 {
      assert t + u == u;
    }
  }

  lemma TrimStartAllSpace(ws: string)
    requires AllSpace(ws)
    ensures TrimStart(ws) == []
  {
  }

  /** Whitespace padding on either side never changes what `strip()` returns. */
  lemma StripPadding(ws1: string, t: string, ws2: string)
    requires AllSpace(ws1) && AllSpace(ws2)
    ensures Strip(ws1 + t + ws2) == Strip(t)
  {
    assert ws1 + t + ws2 == ws1 + (t + ws2);
    TrimStartSpaces(ws1, t + ws2);
    TrimStartAppend(t, ws2);
    var a := TrimStart(t);
    if |a| > 0 {
      TrimEndSpaces(a, ws2);
    } else {
      TrimStartAllSpace(ws2);
    }
  }

  lemma StripLeading(ws: string, t: string)
    requires AllSpace(ws)
    ensures Strip(ws + t) == Strip(t)
  {
    assert ws + t == ws + t + [];
    StripPadding(ws, t, []);
  }

  /** A string with no whitespace at its ends is its own `strip()`. */
  lemma StripTrimmed(s: string)
    requires Trimmed(s)
    ensures Strip(s) == s
  {
    TrimStartNoop(s);
    TrimEndNoop(s);
  }

  /** Stripping twice is stripping once. */
  lemma StripIdempotent(s: string)
    ensures Strip(Strip(s)) == Strip(s)
  {
    StripTrimmed(Strip(s));
  }

  /** ASCII upper-casing of one character (Python's `str.upper()` restricted to ASCII). */
  function UpperChar(c: char): char {
    if 'a' <= c <= 'z' then (c as int - 32) as char else c
  }

  /** `s.upper()`, character by character. */
  function Upper(s: string): (r: string)
    ensures |r| == |s|
    ensures forall i :: 0 <= i < |s| ==> r[i] == UpperChar(s[i])
  {
    seq(|s|, i requires 0 <= i < |s| => UpperChar(s[i]))
  }

  /** Upper-casing is idempotent and leaves no lower-case ASCII letter behind. */
  lemma UpperIdempotent(s: string)
    ensures Upper(Upper(s)) == Upper(s)
    ensures forall i :: 0 <= i < |s| ==> !('a' <= Upper(s)[i] <= 'z')
  {
  }

  /** Python's `t in s` for two strings: `t` occurs as a contiguous piece of `s`. */
  predicate IsSubstring(t: string, s: string) {
    exists i :: 0 <= i <= |s| - |t| && OccursAt(t, s, i)
  }

  predicate OccursAt(t: string, s: string, i: int)
    requires 0 <= i <= |s| - |t|
  {
    s[i..i + |t|] == t
  }

  /** A piece that starts with a character `s` does not contain is not in `s`. */
  lemma NotSubstringFirstChar(t: string, s: string)
    requires |t| > 0 && t[0] !in s
    ensures !IsSubstring(t, s)
  {
    forall i | 0 <= i <= |s| - |t|
      ensures !OccursAt(t, s, i)
    {
      assert s[i] in s;
      assert s[i..i + |t|][0] == s[i];
    }
  }

  /** `sep.join(xs)`. */
  function Join(sep: string, xs: seq<string>): (r: string)
    ensures |xs| == 1 ==> r == xs[0]
  {
    if |xs| == 0 then ""
    else if |xs| == 1 then xs[0]
    else xs[0] + sep + Join(sep, xs[1..])
  }

  /** Index of the first `c` in `s`. */
  function IndexOf(s: string, c: char): (i: nat)
    requires c in s
    ensures i < |s| && s[i] == c && c !in s[..i]
  {
    if s[0] == c then 0 else 1 + IndexOf(s[1..], c)
  }

  /** `s.split(c)` for a one-character separator. */
  function Split(s: string, c: char): (r: seq<string>)
    ensures |r| >= 1
    decreases |s|
  {
    if c in s then
      var i := IndexOf(s, c);
      [s[..i]] + Split(s[i + 1..], c)
    else [s]
  }

  /** `split` undoes `join` whenever no piece contains the separator and there is
      at least one piece (`"".split(",")` is `[""]`, not `[]`). */
  lemma {:induction false} SplitJoin(xs: seq<string>, c: char)
    requires |xs| >= 1
    requires forall k :: 0 <= k < |xs| ==> c !in xs[k]
    ensures Split(Join([c], xs), c) == xs
    decreases |xs|
  {
    if |xs| == 1 {
      assert Join([c], xs) == xs[0];
    } else {
      var s := Join([c], xs);
      var tail := Join([c], xs[1..]);
      assert s == xs[0] + [c] + tail;
      assert s[|xs[0]|] == c;
      assert c in s;
      var i := IndexOf(s, c);
      assert s[..|xs[0]|] == xs[0];
      assert i == |xs[0]| by {
        assert forall k :: 0 <= k < |xs[0]| ==> s[k] == xs[0][k];
        assert c !in xs[0];
        assert i >= |xs[0]|;
        assert forall k :: 0 <= k < i ==> s[k] != c by {
          forall k | 0 <= k < i ensures s[k] != c {
            assert s[..i][k] == s[k];
          }
        }
      }
      assert s[i + 1..] == tail;
      SplitJoin(xs[1..], c);
      assert [xs[0]] + xs[1..] == xs;
    }
  }
}

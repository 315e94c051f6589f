/** The text the bridge posts to the chat webhook for one notification
    (gotify_teams_bridge.py:40-43): the title, trimmed of white space and
    set in bold, a blank line, then the message body with every line break
    doubled so that the sink renders it as a paragraph break. */
module TeamsFormat {

  /** Python's `str.isspace` for one character: the characters that a
      bare `str.strip()` removes from either end of a string. */
  predicate IsSpace(c: char)
  {
    || ('\U{0009}' <= c <= '\U{000D}')
    || ('\U{001C}' <= c <= '\U{001F}')
    || c == ' '
    || c == '\U{0085}'
    || c == '\U{00A0}'
    || c == '\U{1680}'
    || ('\U{2000}' <= c <= '\U{200A}')
    || c == '\U{2028}'
    || c == '\U{2029}'
    || c == '\U{202F}'
    || c == '\U{205F}'
    || c == '\U{3000}'
  }

  ghost predicate AllSpace(s: string)
  {
    forall k :: 0 <= k < |s| ==> IsSpace(s[k])
  }

  /** Neither end of `s` is white space (vacuously so for the empty string). */
  ghost predicate Trimmed(s: string)
  {
    s == [] || (!IsSpace(s[0]) && !IsSpace(s[|s| - 1]))
  }

  /** Drops the leading white space of `s` (see `TrimLeftSpec`). */
  function TrimLeft(s: string): string
    decreases |s|
  {
    if s != [] && IsSpace(s[0]) then TrimLeft(s[1..]) else s
  }

  /** Drops the trailing white space of `s` (see `TrimRightSpec`). */
  function TrimRight(s: string): string
    decreases |s|
  {
    if s != [] && IsSpace(s[|s| - 1]) then TrimRight(s[..|s| - 1]) else s
  }

  /** Python's `str.strip()` with no argument: white space cut from both
      ends (`StripTrimmed`, `StripSplit` and `StripUnique` say which infix
      of `s` is left). */
  function Strip(s: string): string
  {
    TrimRight(TrimLeft(s))
  }

  /** `TrimLeft` gives the longest suffix of `s` that does not start with
      white space: everything it drops is white space. */
  lemma {:induction false} TrimLeftSpec(s: string)
    ensures var r := TrimLeft(s);
      && |r| <= |s| && r == s[|s| - |r|..]
      && (forall k :: 0 <= k < |s| - |r| ==> IsSpace(s[k]))
      && (r == [] || !IsSpace(r[0]))
    decreases |s|
  {
    if s != [] && IsSpace(s[0]) {
      TrimLeftSpec(s[1..]);
    }
  }

  /** `TrimRight` gives the longest prefix of `s` that does not end with
      white space: everything it drops is white space. */
  lemma {:induction false} TrimRightSpec(s: string)
    ensures var r := TrimRight(s);
      && |r| <= |s| && r == s[..|r|]
      && (forall k :: |r| <= k < |s| ==> IsSpace(s[k]))
      && (r == [] || !IsSpace(r[|r| - 1]))
    decreases |s|
  {
    if s != [] && IsSpace(s[|s| - 1]) {
      TrimRightSpec(s[..|s| - 1]);
    }
  }

  /** Neither end of a stripped string is white space. */
  lemma StripTrimmed(s: string)
    ensures Trimmed(Strip(s))
  {
    var t := TrimLeft(s);
    TrimLeftSpec(s);
    TrimRightSpec(t);
    var r := TrimRight(t);
    assert r != [] ==> r[0] == t[0];
  }

  /** Leading white space is exactly what `TrimLeft` removes. */
  lemma {:induction false} TrimLeftOf(a: string, t: string)
    requires AllSpace(a)
    requires t == [] || !IsSpace(t[0])
    ensures TrimLeft(a + t) == t
    decreases |a|
  {
    if a != [] {
      assert (a + t)[1..] == a[1..] + t;
      TrimLeftOf(a[1..], t);
    } else {
      assert a + t == t;
    }
  }

  /** A string that is all white space trims to nothing. */
  lemma {:induction false} TrimLeftAllSpace(s: string)
    requires AllSpace(s)
    ensures TrimLeft(s) == []
    decreases |s|
  {
    if s != [] {
      TrimLeftAllSpace(s[1..]);
    }
  }

  /** Trailing white space is exactly what `TrimRight` removes. */
  lemma {:induction false} TrimRightOf(m: string, b: string)
    requires AllSpace(b)
    requires m == [] || !IsSpace(m[|m| - 1])
    ensures TrimRight(m + b) == m
    decreases |b|
  {
    if b != [] {
      var s := m + b;
      assert s[|s| - 1] == b[|b| - 1];
      assert s[..|s| - 1] == m + b[..|b| - 1];
      TrimRightOf(m, b[..|b| - 1]);
    } else {
      assert m + b == m;
    }
  }

  /** `Strip` is the only way to cut white space off both ends of a string
      and be left with a string whose ends are not white space: whenever
      `s == a + m + b` with `a` and `b` all white space and `m` trimmed,
      `Strip(s) == m`. */
  lemma StripUnique(a: string, m: string, b: string)
    requires AllSpace(a) && AllSpace(b) && Trimmed(m)
    ensures Strip(a + m + b) == m
  {
    if m == [] {
      assert a + m + b == a + b;
      assert AllSpace(a + b);
      TrimLeftAllSpace(a + b);
    } else {
      assert a + m + b == a + (m + b);
      assert (m + b)[0] == m[0];
      TrimLeftOf(a, m + b);
      TrimRightOf(m, b);
    }
  }

  /** Stripping twice is the same as stripping once. */
  lemma StripIdempotent(s: string)
    ensures Strip(Strip(s)) == Strip(s)
  {
    var r := Strip(s);
    StripTrimmed(s);
    StripUnique([], r, []);
    assert [] + r + [] == r;
  }

  /** Python's `str.replace(pat, rep)`: every occurrence of `pat`, found
      from left to right without overlap, becomes `rep`. An empty `pat`
      matches before every character and at the end. */
  function Replace(s: string, pat: string, rep: string): string
    decreases |s|
  {
    if pat == [] then
      if s == [] then rep else rep + [s[0]] + Replace(s[1..], pat, rep)
    else if |s| < |pat| then s
    else if s[..|pat|] == pat then rep + Replace(s[|pat|..], pat, rep)
    else [s[0]] + Replace(s[1..], pat, rep)
  }

  /** The body transformation of gotify_teams_bridge.py:40. */
  function ExpandBreaks(body: string): string
  {
    Replace(body, "\n", "\n\n")
  }

  /** The inverse transformation: every paragraph break back to one line break. */
  function CollapseBreaks(text: string): string
  {
    Replace(text, "\n\n", "\n")
  }

  /** Doubling the line breaks adds exactly one character per line break. */
  lemma {:induction false} ExpandBreaksLength(body: string)
    ensures |ExpandBreaks(body)| == |body| + multiset(body)['\n']
    decreases |body|
  {
    if body != [] {
      assert body == [body[0]] + body[1..];
      assert multiset(body) == multiset([body[0]]) + multiset(body[1..]);
      ExpandBreaksLength(body[1..]);
    }
  }

  /** A body without line breaks goes through unchanged. */
  lemma {:induction false} ExpandBreaksNoBreaks(body: string)
    requires '\n' !in body
    ensures ExpandBreaks(body) == body
    decreases |body|
  {
    if body != [] {
      ExpandBreaksNoBreaks(body[1..]);
      assert body == [body[0]] + body[1..];
    }
  }

  /** The body transformation works character by character: it
      distributes over concatenation. */
  lemma {:induction false} ExpandBreaksAppend(x: string, y: string)
    ensures ExpandBreaks(x + y) == ExpandBreaks(x) + ExpandBreaks(y)
    decreases |x|
  {
    if x == [] {
      assert x + y == y;
    } else {
      var s := x + y;
      assert s[..1] == [x[0]] && x[..1] == [x[0]];
      assert s[1..] == x[1..] + y;
      ExpandBreaksAppend(x[1..], y);
    }
  }

  /** Collapsing the paragraph breaks of an expanded body gives back the
      original body, so the body transformation loses nothing. */
  lemma {:induction false} ExpandBreaksRoundTrip(body: string)
    ensures CollapseBreaks(ExpandBreaks(body)) == body
    decreases |body|
  {
    if body != [] {
      var c, rest := body[0], body[1..];
      assert body == [c] + rest;
      ExpandBreaksAppend([c], rest);
      ExpandBreaksRoundTrip(rest);
      if c == '\n' {
        assert ExpandBreaks([c]) == "\n\n";
        CollapseAfterBreak(ExpandBreaks(rest));
      } else {
        assert ExpandBreaks([c]) == [c];
        CollapseAfterChar(c, ExpandBreaks(rest));
      }
    }
  }

  lemma CollapseAfterBreak(u: string)
    ensures CollapseBreaks("\n\n" + u) == "\n" + CollapseBreaks(u)
  {
    var s := "\n\n" + u;
    assert s[..2] == "\n\n" && s[2..] == u;
  }

  lemma CollapseAfterChar(c: char, u: string)
    requires c != '\n'
    ensures CollapseBreaks([c] + u) == [c] + CollapseBreaks(u)
  {
    var s := [c] + u;
    if |s| >= 2 {
      assert s[..2] != "\n\n" by { assert s[0] == c; }
      assert s[1..] == u;
    } else {
      assert u == [];
    }
  }

  /** The text posted for one notification (gotify_teams_bridge.py:41-43). */
  function Render(title: string, message: string): string
  {
    "**" + Strip(title) + "**\n\n" + ExpandBreaks(message)
  }

  /** The posted text is six characters of markup longer than the stripped
      title and the message together, plus one per line break. */
  lemma RenderLength(title: string, message: string)
    ensures |Render(title, message)| == 6 + |Strip(title)| + |message| + multiset(message)['\n']
  {
    ExpandBreaksLength(message);
  }

  /** The posted text can be taken apart again: the stripped title sits in
      bold at the front, followed by a blank line, and collapsing the
      paragraph breaks of what follows gives back the message exactly. */
  lemma RenderRecovers(title: string, message: string)
    ensures var r := Render(title, message);
      var k := |Strip(title)|;
      && r[..2] == "**"
      && r[2..2 + k] == Strip(title)
      && r[2 + k..6 + k] == "**\n\n"
      && CollapseBreaks(r[6 + k..]) == message
  {
    var r := Render(title, message);
    var k := |Strip(title)|;
    assert r[6 + k..] == ExpandBreaks(message);
    ExpandBreaksRoundTrip(message);
  }

  /** The white space `TrimLeft` drops is a prefix. */
  lemma TrimLeftSplit(s: string) returns (lead: string)
    ensures s == lead + TrimLeft(s) && AllSpace(lead)
  {
    var t := TrimLeft(s);
    TrimLeftSpec(s);
    lead := s[..|s| - |t|];
    forall k | 0 <= k < |lead| ensures IsSpace(lead[k]) {
      assert lead[k] == s[k];
    }
  }

  /** The white space `TrimRight` drops is a suffix. */
  lemma TrimRightSplit(t: string) returns (trail: string)
    ensures t == TrimRight(t) + trail && AllSpace(trail)
  {
    var r := TrimRight(t);
    TrimRightSpec(t);
    trail := t[|r|..];
    forall k | 0 <= k < |trail| ensures IsSpace(trail[k]) {
      assert trail[k] == t[|r| + k];
    }
  }

  /** Every string is its stripped form with white space around it. */
  lemma StripSplit(s: string) returns (lead: string, trail: string)
    ensures s == lead + Strip(s) + trail
    ensures AllSpace(lead) && AllSpace(trail)
  {
    lead := TrimLeftSplit(s);
    trail := TrimRightSplit(TrimLeft(s));
    assert s == lead + (Strip(s) + trail);
  }

  lemma AllSpaceConcat(x: string, y: string)
    requires AllSpace(x) && AllSpace(y)
    ensures AllSpace(x + y)
  {
    forall k | 0 <= k < |x + y| ensures IsSpace((x + y)[k]) {
      if k >= |x| { assert (x + y)[k] == y[k - |x|]; }
    }
  }

  lemma Regroup(a: string, x: string, y: string, z: string, b: string)
    ensures a + (x + y + z) + b == (a + x) + y + (z + b)
  {
  }

  /** White space added around a string does not change what it strips to. */
  lemma StripPadded(a: string, s: string, b: string)
    requires AllSpace(a) && AllSpace(b)
    ensures Strip(a + s + b) == Strip(s)
  {
    var lead, trail := StripSplit(s);
    StripTrimmed(s);
    AllSpaceConcat(a, lead);
    AllSpaceConcat(trail, b);
    Regroup(a, lead, Strip(s), trail, b);
    StripUnique(a + lead, Strip(s), trail + b);
  }

  /** Only the trimmed title reaches the posted text: titles that differ
      only in surrounding white space render identically. */
  lemma RenderIgnoresTitlePadding(a: string, title: string, b: string, message: string)
    requires AllSpace(a) && AllSpace(b)
    ensures Render(a + title + b, message) == Render(title, message)
  {
    StripPadded(a, title, b);
  }
}

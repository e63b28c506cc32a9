/** Python's whitespace handling on `str`: `strip()`, `split()` with no
    separator, and `" ".join(...)`, over strings of Unicode code points. */
module PyText {

  /** The code points for which Python's `str.isspace()` holds, as inclusive
      ranges; `strip()` and `split()` without arguments cut at exactly these. */
  const SpaceRanges: seq<(char, char)> := [
    ('\t', '\r'), ('\U{1C}', '\U{1F}'), (' ', ' '), ('\U{85}', '\U{85}'),
    ('\U{A0}', '\U{A0}'), ('\U{1680}', '\U{1680}'), ('\U{2000}', '\U{200A}'),
    ('\U{2028}', '\U{2029}'), ('\U{202F}', '\U{202F}'), ('\U{205F}', '\U{205F}'),
    ('\U{3000}', '\U{3000}')
  ]

  predicate InRanges(c: char, rs: seq<(char, char)>) {
    rs != [] && ((rs[0].0 <= c <= rs[0].1) || InRanges(c, rs[1..]))
  }

  predicate IsSpace(c: char) {
    InRanges(c, SpaceRanges)
  }

  predicate AllSpace(s: string) {
    forall i :: 0 <= i < |s| ==> IsSpace(s[i])
  }

  predicate NoSpace(s: string) {
    forall i :: 0 <= i < |s| ==> !IsSpace(s[i])
  }

  /** A word as `split()` yields it: non-empty and free of whitespace. */
  predicate IsWord(w: string) {
    w != [] && NoSpace(w)
  }

  predicate AllWords(ws: seq<string>) {
    forall i :: 0 <= i < |ws| ==> IsWord(ws[i])
  }

  /** Normal form, as `" ".join` of words produces it: empty, or a word
      followed by nothing or by one space and a non-empty normal rest. */
  ghost predicate IsNormal(s: string)
    decreases |s|
  {
    s == [] ||
      var n := WordLength(s);
      n > 0 && (n == |s| || (n + 1 < |s| && s[n] == ' ' && IsNormal(s[n + 1..])))
  }

  /** No leading, trailing or doubled whitespace, and no whitespace other than
      the plain space. */
  ghost predicate NoStraySpace(s: string) {
    && (s == [] || (!IsSpace(s[0]) && !IsSpace(s[|s| - 1])))
    && (forall i, j :: 0 <= i < j < |s| && j == i + 1 ==> !IsSpace(s[i]) || !IsSpace(s[j]))
    && (forall i :: 0 <= i < |s| && IsSpace(s[i]) ==> s[i] == ' ')
  }

  /** How many whitespace characters `s` starts with. */
  function LeadingSpace(s: string): (n: nat)
    ensures n <= |s|
    ensures forall i :: 0 <= i < n ==> IsSpace(s[i])
    ensures n == |s| || !IsSpace(s[n])
  {
    if s != [] && IsSpace(s[0]) then 1 + LeadingSpace(s[1..]) else 0
  }

  /** How many whitespace characters `s` ends with. */
  function TrailingSpace(s: string): (n: nat)
    ensures n <= |s|
    ensures forall i :: |s| - n <= i < |s| ==> IsSpace(s[i])
    ensures n == |s| || !IsSpace(s[|s| - 1 - n])
  {
    if s != [] && IsSpace(s[|s| - 1]) then 1 + TrailingSpace(s[..|s| - 1]) else 0
  }

  /** `str.strip()`: `s` without the whitespace at either end. */
  function Strip(s: string): string {
    var t := s[LeadingSpace(s)..];
    t[..|t| - TrailingSpace(t)]
  }

  /** How many non-whitespace characters `s` starts with. */
  function WordLength(s: string): (n: nat)
    ensures n <= |s|
    ensures forall i :: 0 <= i < n ==> !IsSpace(s[i])
    ensures n == |s| || IsSpace(s[n])
  {
    if s != [] && !IsSpace(s[0]) then 1 + WordLength(s[1..]) else 0
  }

  /** `str.split()` with no separator: the maximal runs of non-whitespace in
      `s`, left to right. */
  function Split(s: string): (ws: seq<string>)
    ensures AllWords(ws)
    decreases |s|
  {
    if s == [] then []
    else if IsSpace(s[0]) then Split(s[1..])
    else
      var n := WordLength(s);
      [s[..n]] + Split(s[n..])
  }

  /** `" ".join(ws)`. */
  function Join(ws: seq<string>): string {
    if ws == [] then []
    else if |ws| == 1 then ws[0]
    else ws[0] + " " + Join(ws[1..])
  }

  /** The prompt the bot builds from a message: `" ".join(text.split())`. */
  function Normalize(s: string): string {
    Join(Split(s))
  }

  /** Removing non-whitespace characters only: what of `s` is kept by `split()`. */
  function Visible(s: string): string {
    if s == [] then []
    else if IsSpace(s[0]) then Visible(s[1..])
    else [s[0]] + Visible(s[1..])
  }

  function Concat(ws: seq<string>): string {
    if ws == [] then [] else ws[0] + Concat(ws[1..])
  }

  // ---------------------------------------------------------------------
  // strip()

  /** `strip()` leaves the slice of `s` between its leading and its trailing
      whitespace. */
  lemma StripIsSlice(s: string)
    ensures var k, r := LeadingSpace(s), Strip(s);
      && k + |r| <= |s|
      && r == s[k..k + |r|]
      && AllSpace(s[..k]) && AllSpace(s[k + |r|..])
  {
    var k := LeadingSpace(s);
    StripSlice(s, k, s[k..], TrailingSpace(s[k..]));
  }

  /** What `strip()` leaves neither starts nor ends with whitespace, and it is
      empty exactly when `s` is all whitespace. */
  lemma StripTrimsBothEnds(s: string)
    ensures var r := Strip(s);
      && (r == [] || (!IsSpace(r[0]) && !IsSpace(r[|r| - 1])))
      && (r == [] <==> AllSpace(s))
  {
    var k := LeadingSpace(s);
    var t := s[k..];
    StripSlice(s, k, t, TrailingSpace(t));
    StripEnds(s, k, t, TrailingSpace(t));
  }

  lemma StripSlice(s: string, k: nat, t: string, m: nat)
    requires k == LeadingSpace(s) && t == s[k..] && m == TrailingSpace(t)
    ensures Strip(s) == t[..|t| - m]
    ensures k + |Strip(s)| <= |s|
    ensures Strip(s) == s[k..k + |Strip(s)|]
    ensures AllSpace(s[..k])
    ensures AllSpace(s[k + |Strip(s)|..])
  {
    var n := |t| - m;
    TakeOfDrop(s, k, n);
    DropOfDrop(s, k, n);
    LeadingIsSpace(s);
    TrailingIsSpace(t);
  }

  lemma TakeOfDrop(s: string, k: nat, n: nat)
    requires k + n <= |s|
    ensures s[k..][..n] == s[k..k + n]
  {
  }

  lemma DropOfDrop(s: string, k: nat, n: nat)
    requires k + n <= |s|
    ensures s[k..][n..] == s[k + n..]
  {
  }

  lemma LeadingIsSpace(s: string)
    ensures AllSpace(s[..LeadingSpace(s)])
  {
    var g := s[..LeadingSpace(s)];
    forall i | 0 <= i < |g| ensures IsSpace(g[i]) {
      assert g[i] == s[i];
    }
  }

  lemma TrailingIsSpace(t: string)
    ensures AllSpace(t[|t| - TrailingSpace(t)..])
  {
    var m := TrailingSpace(t);
    var h := t[|t| - m..];
    forall i | 0 <= i < |h| ensures IsSpace(h[i]) {
      assert h[i] == t[|t| - m + i];
    }
  }

  lemma StripEnds(s: string, k: nat, t: string, m: nat)
    requires k == LeadingSpace(s) && t == s[k..] && m == TrailingSpace(t)
    ensures var r := t[..|t| - m];
      && (r == [] || (!IsSpace(r[0]) && !IsSpace(r[|r| - 1])))
      && (r == [] <==> AllSpace(s))
  {
    var r := t[..|t| - m];
    assert t == [] || !IsSpace(t[0]);
    if r != [] {
      assert r[0] == t[0] == s[k] && r[|r| - 1] == t[|t| - 1 - m];
    }
  }

  // ---------------------------------------------------------------------
  // How Split decomposes its input

  /** Whitespace in front of a string does not change its words. */
  lemma {:induction false} SplitSpacePrefix(g: string, x: string)
    requires AllSpace(g)
    ensures Split(g + x) == Split(x)
  {
    if g == [] {
      assert g + x == x;
    } else {
      assert (g + x)[0] == g[0] && (g + x)[1..] == g[1..] + x;
      SplitSpacePrefix(g[1..], x);
    }
  }

  lemma {:induction false} WordLengthOf(w: string, rest: string)
    requires NoSpace(w)
    requires rest == [] || IsSpace(rest[0])
    ensures WordLength(w + rest) == |w|
  {
    if w == [] {
      assert w + rest == rest;
    } else {
      assert (w + rest)[0] == w[0] && (w + rest)[1..] == w[1..] + rest;
      WordLengthOf(w[1..], rest);
    }
  }

  /** A word followed by the end of the string or by whitespace is the first
      word `split()` yields. */
  lemma SplitWordThen(w: string, rest: string)
    requires IsWord(w)
    requires rest == [] || IsSpace(rest[0])
    ensures Split(w + rest) == [w] + Split(rest)
  {
    WordLengthOf(w, rest);
    assert (w + rest)[0] == w[0];
    assert (w + rest)[..|w|] == w && (w + rest)[|w|..] == rest;
  }

  /** Whitespace behind a string does not change its words. */
  lemma {:induction false} SplitSpaceSuffix(x: string, g: string)
    requires AllSpace(g)
    ensures Split(x + g) == Split(x)
    decreases |x|
  {
    if x == [] {
      SplitSpacePrefix(g, []);
      assert g + [] == g && x + g == g;
    } else if IsSpace(x[0]) {
      assert (x + g)[0] == x[0] && (x + g)[1..] == x[1..] + g;
      SplitSpaceSuffix(x[1..], g);
    } else {
      var n := WordLength(x);
      var w, rest := x[..n], x[n..];
      assert x == w + rest && x + g == w + (rest + g);
      SplitWordThen(w, rest + g);
      SplitSpaceSuffix(rest, g);
    }
  }

  /** `split()` after `strip()` yields the same words as `split()` alone. */
  lemma SplitStripped(s: string)
    ensures Split(Strip(s)) == Split(s)
  {
    var k := LeadingSpace(s);
    var t := s[k..];
    StripSlice(s, k, t, TrailingSpace(t));
    SplitDropsLeading(s);
    var n := |t| - TrailingSpace(t);
    SplitSpaceSuffix(t[..n], t[n..]);
    assert t[..n] + t[n..] == t;
  }

  lemma {:induction false} SplitDropsLeading(s: string)
    ensures Split(s[LeadingSpace(s)..]) == Split(s)
    decreases |s|
  {
    if s != [] && IsSpace(s[0]) {
      SplitDropsLeading(s[1..]);
      assert s[1..][LeadingSpace(s[1..])..] == s[LeadingSpace(s)..];
    }
  }

  /** A string has no words exactly when it is all whitespace. */
  lemma {:induction false} SplitEmpty(s: string)
    ensures Split(s) == [] <==> AllSpace(s)
    decreases |s|
  {
    if s != [] && IsSpace(s[0]) {
      SplitEmpty(s[1..]);
      assert AllSpace(s[1..]) ==> AllSpace(s) by {
        if AllSpace(s[1..]) {
          forall i | 0 <= i < |s| ensures IsSpace(s[i]) {
            if i > 0 {
              assert s[i] == s[1..][i - 1];
            }
          }
        }
      }
    }
  }

  // ---------------------------------------------------------------------
  // join() and the round trip

  lemma {:induction false} JoinEmpty(ws: seq<string>)
    requires AllWords(ws)
    ensures Join(ws) == [] <==> ws == []
  {
    if |ws| > 1 {
      assert (ws[0] + " " + Join(ws[1..]))[|ws[0]|] == ' ';
    }
  }

  /** Joining words gives a string whose words are exactly those words. */
  lemma {:induction false} SplitJoin(ws: seq<string>)
    requires AllWords(ws)
    ensures Split(Join(ws)) == ws
  {
    if |ws| == 1 {
      SplitWordThen(ws[0], []);
      assert ws[0] + [] == ws[0];
    } else if |ws| > 1 {
      var tail := Join(ws[1..]);
      assert AllWords(ws[1..]);
      SplitJoin(ws[1..]);
      SplitWordThen(ws[0], " " + tail);
      SplitSpacePrefix(" ", tail);
      assert ws[0] + " " + tail == ws[0] + (" " + tail);
      assert ws == [ws[0]] + ws[1..];
    }
  }

  /** Joined words are in normal form. */
  lemma {:induction false} JoinIsNormal(ws: seq<string>)
    requires AllWords(ws)
    ensures IsNormal(Join(ws))
  {
    if |ws| == 1 {
      WordLengthOf(ws[0], []);
      assert ws[0] + [] == ws[0];
    } else if |ws| > 1 {
      assert AllWords(ws[1..]);
      JoinIsNormal(ws[1..]);
      JoinEmpty(ws[1..]);
      var w, t := ws[0], Join(ws[1..]);
      var s := w + " " + t;
      assert s == w + (" " + t);
      WordLengthOf(w, " " + t);
      assert s[|w| + 1..] == t;
    }
  }

  lemma Reassemble(s: string, n: nat, x: string)
    requires n < |s| && s[n] == ' '
    requires x == s[..n] + " " + s[n + 1..]
    ensures x == s
  {
    assert s[..n] + [s[n]] + s[n + 1..] == s;
  }

  /** The words of a word, one space and a string that starts with a word. */
  lemma SplitWordSpace(w: string, tail: string)
    requires IsWord(w) && tail != [] && !IsSpace(tail[0])
    ensures Split(w + " " + tail) == [w] + Split(tail)
    ensures Split(tail) != []
  {
    assert w + " " + tail == w + (" " + tail);
    SplitWordThen(w, " " + tail);
    SplitSpacePrefix(" ", tail);
    SplitEmpty(tail);
  }

  lemma NormalizeStep(s: string, n: nat)
    requires n == WordLength(s) && 0 < n && n + 1 < |s| && s[n] == ' ' && !IsSpace(s[n + 1])
    ensures Normalize(s) == s[..n] + " " + Normalize(s[n + 1..])
  {
    var w, tail := s[..n], s[n + 1..];
    assert tail[0] == s[n + 1];
    assert Split(s) == [w] + Split(tail) by {
      Reassemble(s, n, w + " " + tail);
      SplitWordSpace(w, tail);
    }
    assert ([w] + Split(tail))[1..] == Split(tail);
  }

  /** A string is in normal form exactly when normalising leaves it unchanged. */
  lemma {:induction false} NormalIsFixpoint(s: string)
    ensures IsNormal(s) <==> Normalize(s) == s
    decreases |s|
  {
    JoinIsNormal(Split(s));
    if IsNormal(s) && s != [] {
      var n := WordLength(s);
      if n == |s| {
        assert s == s[..n] + [];
        SplitWordThen(s[..n], []);
      } else {
        var tail := s[n + 1..];
        NormalIsFixpoint(tail);
        assert !IsSpace(s[n + 1]) by {
          assert WordLength(tail) > 0 && tail[0] == s[n + 1];
        }
        NormalizeStep(s, n);
        Reassemble(s, n, Normalize(s));
      }
    }
  }

  /** Normal form has none of the whitespace `split()` would remove. */
  lemma {:induction false} NormalHasNoStraySpace(s: string)
    requires IsNormal(s)
    ensures NoStraySpace(s)
    decreases |s|
  {
    if s != [] {
      var n := WordLength(s);
      if n < |s| {
        var t := s[n + 1..];
        NormalHasNoStraySpace(t);
        forall i, j | 0 <= i < j < |s| && j == i + 1
          ensures !IsSpace(s[i]) || !IsSpace(s[j])
        {
          if i == n {
            assert s[j] == t[0];
          } else if i > n {
            assert s[i] == t[i - n - 1] && s[j] == t[j - n - 1];
          }
        }
        forall i | 0 <= i < |s| && IsSpace(s[i]) ensures s[i] == ' ' {
          if i > n {
            assert s[i] == t[i - n - 1];
          }
        }
        assert s[|s| - 1] == t[|t| - 1];
      }
    }
  }

  // ---------------------------------------------------------------------
  // The normalised prompt

  lemma {:induction false} VisibleAppend(a: string, b: string)
    ensures Visible(a + b) == Visible(a) + Visible(b)
  {
    if a == [] {
      assert a + b == b;
    } else {
      assert (a + b)[0] == a[0] && (a + b)[1..] == a[1..] + b;
      VisibleAppend(a[1..], b);
    }
  }

  lemma {:induction false} VisibleOfWord(w: string)
    requires NoSpace(w)
    ensures Visible(w) == w
  {
    if w != [] {
      VisibleOfWord(w[1..]);
    }
  }

  /** The words of `s`, run together, are its non-whitespace characters. */
  lemma {:induction false} SplitKeepsVisible(s: string)
    ensures Concat(Split(s)) == Visible(s)
    decreases |s|
  {
    if s != [] {
      if IsSpace(s[0]) {
        SplitKeepsVisible(s[1..]);
      } else {
        var n := WordLength(s);
        var w, rest := s[..n], s[n..];
        assert s == w + rest;
        VisibleAppend(w, rest);
        VisibleOfWord(w);
        SplitKeepsVisible(rest);
        assert ([w] + Split(rest))[1..] == Split(rest);
      }
    }
  }

  lemma {:induction false} JoinKeepsVisible(ws: seq<string>)
    requires AllWords(ws)
    ensures Visible(Join(ws)) == Concat(ws)
  {
    if |ws| == 1 {
      VisibleOfWord(ws[0]);
      assert Concat(ws[1..]) == [];
    } else if |ws| > 1 {
      assert AllWords(ws[1..]);
      JoinKeepsVisible(ws[1..]);
      VisibleAppend(ws[0] + " ", Join(ws[1..]));
      VisibleAppend(ws[0], " ");
      VisibleOfWord(ws[0]);
    }
  }

  /** What `" ".join(s.split())` promises: it keeps every non-whitespace
      character in order, has no leading, trailing, doubled or non-space
      whitespace, is empty exactly when `s` is all whitespace, is a fixpoint
      of itself, and `strip()` beforehand makes no difference. */
  lemma NormalizeSpec(s: string)
    ensures Visible(Normalize(s)) == Visible(s)
    ensures IsNormal(Normalize(s)) && NoStraySpace(Normalize(s))
    ensures Normalize(s) == [] <==> AllSpace(s)
    ensures Normalize(Normalize(s)) == Normalize(s)
    ensures Normalize(Strip(s)) == Normalize(s)
  {
    var ws := Split(s);
    JoinKeepsVisible(ws);
    SplitKeepsVisible(s);
    JoinIsNormal(ws);
    NormalHasNoStraySpace(Join(ws));
    JoinEmpty(ws);
    SplitEmpty(s);
    SplitJoin(ws);
    SplitStripped(s);
  }
}

/**
  The description normalisation of the search handler: the text of a result
  link is split on whitespace and the words are joined again with single
  spaces (`" ".join(text.split())` in Python).  `Words` models `str.split()`
  with no separator, `Join` models `" ".join`, and `Normalize` is their
  composition.
 */
module Whitespace {

  /** The characters Python's `str.isspace` accepts, on which `str.split()` breaks. */
  predicate IsSpace(c: char) {
    var n := c as int;
    || (9 <= n <= 13)          // \t \n \v \f \r
    || (28 <= n <= 32)         // the four separators \x1c..\x1f, and ' '
    || n == 0x85 || n == 0xA0 || n == 0x1680
    || (0x2000 <= n <= 0x200A)
    || n == 0x2028 || n == 0x2029 || n == 0x202F || n == 0x205F || n == 0x3000
  }

  /** A word as `str.split()` yields it: non-empty and free of whitespace. */
  predicate IsWord(w: string) {
    |w| > 0 && forall i :: 0 <= i < |w| ==> !IsSpace(w[i])
  }

  /** The length of the longest whitespace-free prefix of `s`. */
  function WordLength(s: string): (n: nat)
    ensures n <= |s|
    ensures forall i :: 0 <= i < n ==> !IsSpace(s[i])
    ensures n < |s| ==> IsSpace(s[n])
  {
    if s == [] || IsSpace(s[0]) then 0 else 1 + WordLength(s[1..])
  }

  /** `s.split()`: the maximal whitespace-free runs of `s`, in order. */
  function Words(s: string): (ws: seq<string>)
    ensures forall k :: 0 <= k < |ws| ==> IsWord(ws[k])
    decreases |s|
  {
    if s == [] then []
    else if IsSpace(s[0]) then Words(s[1..])
    else
      var n := WordLength(s);
      [s[..n]] + Words(s[n..])
  }

  /** `" ".join(ws)`. */
  function Join(ws: seq<string>): string {
    if ws == [] then ""
    else if |ws| == 1 then ws[0]
    else ws[0] + " " + Join(ws[1..])
  }

  /** True of a string with no leading or trailing blank, no two blanks in a
      row, and no whitespace other than the plain space. */
  predicate Normalized(s: string) {
    && (forall i :: 0 <= i < |s| && IsSpace(s[i]) ==> s[i] == ' ')
    && (|s| > 0 ==> s[0] != ' ' && s[|s| - 1] != ' ')
    && (forall i :: 0 < i < |s| ==> !DoubleBlankAt(s, i))
  }

  /** True when the characters at `i - 1` and `i` are both blanks. */
  predicate DoubleBlankAt(s: string, i: nat)
    requires 0 < i < |s|
  {
    s[i - 1] == ' ' && s[i] == ' '
  }

  /** The characters of `s` that are not whitespace, in order. */
  function NonSpace(s: string): string {
    if s == [] then ""
    else if IsSpace(s[0]) then NonSpace(s[1..])
    else [s[0]] + NonSpace(s[1..])
  }

  /** The concatenation of a sequence of strings. */
  function Concat(ws: seq<string>): string {
    if ws == [] then "" else ws[0] + Concat(ws[1..])
  }

  /** `" ".join(text.split())`: normalised, and split gives back the same words. */
  function Normalize(s: string): (r: string)
    ensures Normalized(r)
    ensures Words(r) == Words(s)
  {
    JoinNormalized(Words(s));
    WordsOfJoin(Words(s));
    Join(Words(s))
  }

  // ---------------------------------------------------------------------
  // How split treats a leading blank and a leading word.

  lemma WordsSkipsSpace(c: char, s: string)
    requires IsSpace(c)
    ensures Words([c] + s) == Words(s)
  {
  }

  lemma {:induction false} WordLengthOfWord(w: string, rest: string)
    requires IsWord(w)
    requires rest == [] || IsSpace(rest[0])
    ensures WordLength(w + rest) == |w|
    decreases |w|
  {
    assert (w + rest)[0] == w[0];
    if |w| > 1 {
      assert (w + rest)[1..] == w[1..] + rest;
      WordLengthOfWord(w[1..], rest);
    } else {
      assert (w + rest)[1..] == rest;
    }
  }

  lemma WordsOfWordThen(w: string, rest: string)
    requires IsWord(w)
    requires rest == [] || IsSpace(rest[0])
    ensures Words(w + rest) == [w] + Words(rest)
  {
    WordLengthOfWord(w, rest);
    assert (w + rest)[0] == w[0];
    assert (w + rest)[..|w|] == w;
    assert (w + rest)[|w|..] == rest;
  }

  // ---------------------------------------------------------------------
  // Splitting a joined list of words gives the words back.

  /** `" ".join(ws).split() == ws` for every list of words. */
  lemma {:induction false} WordsOfJoin(ws: seq<string>)
    requires forall k :: 0 <= k < |ws| ==> IsWord(ws[k])
    ensures Words(Join(ws)) == ws
  {
    if ws == [] {
    } else if |ws| == 1 {
      WordsOfWordThen(ws[0], "");
      assert ws[0] + "" == ws[0];
    } else {
      var tail := Join(ws[1..]);
      calc {
        Words(Join(ws));
        { SeqAssoc(ws[0], " ", tail); }
        Words(ws[0] + (" " + tail));
        { WordsOfWordThen(ws[0], " " + tail); }
        [ws[0]] + Words(" " + tail);
        { WordsSkipsSpace(' ', tail); }
        [ws[0]] + Words(tail);
        { WordsOfJoin(ws[1..]); }
        [ws[0]] + ws[1..];
      }
      assert ws == [ws[0]] + ws[1..];
    }
  }

  /** `" ".join(ws)` is normalised when every element is a word. */
  lemma {:induction false} JoinNormalized(ws: seq<string>)
    requires forall k :: 0 <= k < |ws| ==> IsWord(ws[k])
    ensures Normalized(Join(ws))
    ensures ws != [] ==> |Join(ws)| > 0 && !IsSpace(Join(ws)[0])
  {
    if |ws| == 1 {
    } else if |ws| > 1 {
      var w, tail := ws[0], Join(ws[1..]);
      JoinNormalized(ws[1..]);
      var s := w + " " + tail;
      assert Join(ws) == s;
      assert forall i :: 0 <= i < |w| ==> s[i] == w[i];
      assert s[|w|] == ' ';
      assert forall i :: |w| < i < |s| ==> s[i] == tail[i - |w| - 1];
      forall i | 0 <= i < |s| && IsSpace(s[i])
        ensures s[i] == ' '
      {
        if i > |w| {
          assert s[i] == tail[i - |w| - 1];
        }
      }
      forall i | 0 < i < |s|
        ensures !DoubleBlankAt(s, i)
      {
        if i > |w| + 1 {
          assert !DoubleBlankAt(tail, i - |w| - 1);
        }
      }
    }
  }

  lemma NormalizedSuffix(t: string, m: nat)
    requires Normalized(t)
    requires m <= |t|
    requires m < |t| ==> t[m] != ' '
    ensures Normalized(t[m..])
  {
    var r := t[m..];
    assert forall i :: 0 <= i < |r| ==> r[i] == t[m + i];
    forall i | 0 < i < |r|
      ensures !DoubleBlankAt(r, i)
    {
      assert !DoubleBlankAt(t, m + i);
    }
  }

  lemma JoinCons(w: string, ws: seq<string>)
    requires ws != []
    ensures Join([w] + ws) == w + " " + Join(ws)
  {
  }

  /** In a normalised string, the first word is followed by one blank and then a non-blank. */
  lemma BlankAfterFirstWord(t: string)
    requires Normalized(t) && t != []
    requires WordLength(t) < |t|
    ensures var n := WordLength(t);
      n + 1 < |t| && t[n] == ' ' && t[n + 1] != ' '
  {
    var n := WordLength(t);
    assert IsSpace(t[n]);
    assert !DoubleBlankAt(t, n + 1);
  }

  /** Split takes the first word, then skips the whitespace character that ends it. */
  lemma WordsAfterFirstWord(t: string)
    requires t != [] && !IsSpace(t[0])
    requires WordLength(t) < |t|
    ensures Words(t) == [t[..WordLength(t)]] + Words(t[WordLength(t) + 1..])
  {
  }

  /** A normalised string is the join of its own words. */
  lemma {:induction false} JoinWordsOfNormalized(t: string)
    requires Normalized(t)
    ensures Join(Words(t)) == t
    decreases |t|
  {
    if t != [] {
      var n := WordLength(t);
      assert !IsSpace(t[0]);
      if n == |t| {
        assert t[..n] == t && t[n..] == [];
        assert Words(t) == [t];
      } else {
        BlankAfterFirstWord(t);
        WordsAfterFirstWord(t);
        var rest := t[n + 1..];
        NormalizedSuffix(t, n + 1);
        JoinWordsOfNormalized(rest);
        assert !IsSpace(rest[0]);
        assert Words(rest) != [];
        JoinCons(t[..n], Words(rest));
        assert t == t[..n] + " " + rest;
      }
    }
  }

  // ---------------------------------------------------------------------
  // Properties of the normalisation.

  /** Normalising twice gives the same as normalising once. */
  lemma NormalizeIdempotent(s: string)
    ensures Normalize(Normalize(s)) == Normalize(s)
  {
  }

  /** `Normalize(s)` is the only normalised string with the words of `s`. */
  lemma NormalizeUnique(s: string, t: string)
    requires Normalized(t)
    requires Words(t) == Words(s)
    ensures t == Normalize(s)
  {
    JoinWordsOfNormalized(t);
  }

  /** The strings normalisation leaves alone are exactly the normalised ones. */
  lemma NormalizeFixedPoints(s: string)
    ensures Normalize(s) == s <==> Normalized(s)
  {
    if Normalized(s) {
      JoinWordsOfNormalized(s);
    }
  }

  lemma {:induction false} NonSpaceAppend(a: string, b: string)
    ensures NonSpace(a + b) == NonSpace(a) + NonSpace(b)
    decreases |a|
  {
    if a != [] {
      assert (a + b)[0] == a[0];
      assert (a + b)[1..] == a[1..] + b;
      NonSpaceAppend(a[1..], b);
    } else {
      assert a + b == b;
    }
  }

  lemma {:induction false} NonSpaceOfWord(w: string)
    requires IsWord(w)
    ensures NonSpace(w) == w
    decreases |w|
  {
    if |w| > 1 {
      NonSpaceOfWord(w[1..]);
      assert w == [w[0]] + w[1..];
    } else {
      assert w == [w[0]];
    }
  }

  /** The words of `s`, run together, are the non-whitespace characters of `s`. */
  lemma {:induction false} ConcatWords(s: string)
    ensures Concat(Words(s)) == NonSpace(s)
    decreases |s|
  {
    if s != [] {
      if IsSpace(s[0]) {
        ConcatWords(s[1..]);
      } else {
        var n := WordLength(s);
        var w, ws := s[..n], Words(s);
        assert ws == [w] + Words(s[n..]);
        assert ws[0] == w && ws[1..] == Words(s[n..]);
        ConcatWords(s[n..]);
        assert s == w + s[n..];
        NonSpaceAppend(w, s[n..]);
        NonSpaceOfWord(w);
      }
    }
  }

  /** Joining words with blanks adds no non-whitespace character. */
  lemma {:induction false} NonSpaceOfJoin(ws: seq<string>)
    requires forall k :: 0 <= k < |ws| ==> IsWord(ws[k])
    ensures NonSpace(Join(ws)) == Concat(ws)
  {
    if |ws| == 1 {
      NonSpaceOfWord(ws[0]);
      assert Concat(ws) == ws[0] + Concat([]);
    } else if |ws| > 1 {
      NonSpaceOfJoin(ws[1..]);
      NonSpaceOfWord(ws[0]);
      NonSpaceAppend(ws[0] + " ", Join(ws[1..]));
      NonSpaceAppend(ws[0], " ");
      assert NonSpace(" ") == NonSpace(" "[1..]);
    }
  }

  /** Normalisation keeps every non-whitespace character, in order, and adds none. */
  lemma NormalizeKeepsText(s: string)
    ensures NonSpace(Normalize(s)) == NonSpace(s)
  {
    NonSpaceOfJoin(Words(s));
    ConcatWords(s);
  }

  /** Split skips any run of leading whitespace. */
  lemma {:induction false} WordsSkipsBlanks(p: string, s: string)
    requires AllSpace(p)
    ensures Words(p + s) == Words(s)
    decreases |p|
  {
    if p != [] {
      assert p + s == [p[0]] + (p[1..] + s);
      WordsSkipsSpace(p[0], p[1..] + s);
      WordsSkipsBlanks(p[1..], s);
    } else {
      assert p + s == s;
    }
  }

  // ---------------------------------------------------------------------
  // Split yields exactly the maximal whitespace-free runs.

  /** A run of whitespace characters, possibly empty. */
  predicate AllSpace(g: string) {
    forall i :: 0 <= i < |g| ==> IsSpace(g[i])
  }

  /** Gaps that may surround `n` words: `n + 1` whitespace runs, those between
      two words non-empty. */
  predicate ValidGaps(gs: seq<string>, n: nat) {
    && |gs| == n + 1
    && (forall i :: 0 <= i < |gs| ==> AllSpace(gs[i]))
    && (forall i :: 0 < i < n ==> |gs[i]| > 0)
  }

  /** `gs[0] + ws[0] + gs[1] + ... + ws[n - 1] + gs[n]`. */
  function Interleave(gs: seq<string>, ws: seq<string>): string
    requires |gs| == |ws| + 1
  {
    if ws == [] then gs[0] else gs[0] + (ws[0] + Interleave(gs[1..], ws[1..]))
  }

  /** However a text is laid out as whitespace gaps and words, split yields
      exactly those words: the words are the maximal whitespace-free runs. */
  lemma {:induction false} WordsOfInterleave(gs: seq<string>, ws: seq<string>)
    requires ValidGaps(gs, |ws|)
    requires forall k :: 0 <= k < |ws| ==> IsWord(ws[k])
    ensures Words(Interleave(gs, ws)) == ws
  {
    if ws == [] {
      WordsSkipsBlanks(gs[0], []);
      assert gs[0] + [] == gs[0];
    } else {
      var rest := Interleave(gs[1..], ws[1..]);
      assert ValidGaps(gs[1..], |ws[1..]|) by {
        assert forall i :: 0 < i < |ws| - 1 ==> gs[1..][i] == gs[i + 1];
      }
      WordsOfInterleave(gs[1..], ws[1..]);
      if |ws| > 1 {
        assert |gs[1]| > 0;
        assert rest == gs[1] + (ws[1] + Interleave(gs[2..], ws[2..])) by {
          assert gs[1..][0] == gs[1] && gs[1..][1..] == gs[2..];
        }
        assert rest[0] == gs[1][0];
      } else {
        assert rest == gs[1];
      }
      WordsOfWordThen(ws[0], rest);
      WordsSkipsBlanks(gs[0], ws[0] + rest);
      assert ws == [ws[0]] + ws[1..];
    }
  }

  /** The whitespace gaps around the words of `s`: every text is laid out as
      its words separated by whitespace. */
  function Gaps(s: string): (gs: seq<string>)
    ensures ValidGaps(gs, |Words(s)|)
    ensures Interleave(gs, Words(s)) == s
    ensures s != [] && IsSpace(s[0]) ==> |gs[0]| > 0
    decreases |s|
  {
    if s == [] then [""]
    else if IsSpace(s[0]) then
      var g := Gaps(s[1..]);
      var gs := [[s[0]] + g[0]] + g[1..];
      GapsConsSpace(s, g, gs);
      gs
    else
      var n := WordLength(s);
      var g := Gaps(s[n..]);
      var gs := [""] + g;
      GapsConsWord(s, n, g, gs);
      gs
  }

  lemma InterleavePrepend(c: char, g: seq<string>, ws: seq<string>)
    requires |g| == |ws| + 1
    ensures Interleave([[c] + g[0]] + g[1..], ws) == [c] + Interleave(g, ws)
  {
    var gs := [[c] + g[0]] + g[1..];
    if ws == [] {
      assert gs[0] == [c] + g[0];
    } else {
      assert gs[1..] == g[1..];
      var tail := ws[0] + Interleave(g[1..], ws[1..]);
      calc {
        Interleave(gs, ws);
        { InterleaveFirstGap(gs, ws); }
        ([c] + g[0]) + tail;
        { SeqAssoc([c], g[0], tail); }
        [c] + (g[0] + tail);
        { InterleaveFirstGap(g, ws); }
        [c] + Interleave(g, ws);
      }
    }
  }

  lemma SeqAssoc(a: string, b: string, c: string)
    ensures (a + b) + c == a + (b + c)
  {
  }

  lemma InterleaveFirstGap(gs: seq<string>, ws: seq<string>)
    requires |gs| == |ws| + 1 && ws != []
    ensures Interleave(gs, ws) == gs[0] + (ws[0] + Interleave(gs[1..], ws[1..]))
  {
  }

  lemma GapsConsSpace(s: string, g: seq<string>, gs: seq<string>)
    requires s != [] && IsSpace(s[0])
    requires ValidGaps(g, |Words(s[1..])|) && Interleave(g, Words(s[1..])) == s[1..]
    requires gs == [[s[0]] + g[0]] + g[1..]
    ensures ValidGaps(gs, |Words(s)|) && Interleave(gs, Words(s)) == s && |gs[0]| > 0
  {
    assert Words(s) == Words(s[1..]);
    assert forall i :: 0 < i < |gs| ==> gs[i] == g[i];
    assert AllSpace(gs[0]) by {
      assert forall i :: 0 < i < |gs[0]| ==> gs[0][i] == g[0][i - 1];
    }
    InterleavePrepend(s[0], g, Words(s[1..]));
    assert s == [s[0]] + s[1..];
  }

  lemma GapsConsWord(s: string, n: nat, g: seq<string>, gs: seq<string>)
    requires s != [] && !IsSpace(s[0]) && n == WordLength(s)
    requires ValidGaps(g, |Words(s[n..])|) && Interleave(g, Words(s[n..])) == s[n..]
    requires s[n..] != [] && IsSpace(s[n..][0]) ==> |g[0]| > 0
    requires gs == [""] + g
    ensures ValidGaps(gs, |Words(s)|) && Interleave(gs, Words(s)) == s
  {
    var ws := Words(s);
    assert ws == [s[..n]] + Words(s[n..]);
    assert ws[1..] == Words(s[n..]) && gs[1..] == g;
    assert forall i :: 0 < i < |gs| ==> gs[i] == g[i - 1];
    assert AllSpace(gs[0]);
    if |ws| > 1 {
      assert n < |s|;
      assert |g[0]| > 0;
    }
    assert Interleave(gs, ws) == "" + (s[..n] + s[n..]);
    assert s == s[..n] + s[n..];
  }

  /** The example of the handler's description field: `"  Foo\n  Bar  "` becomes `"Foo Bar"`. */
  lemma NormalizeExample(s: string)
    requires s == "  Foo\n  Bar  "
    ensures Normalize(s) == "Foo Bar"
  {
    var foo, bar := "Foo", "Bar";
    var gs, ws := ["  ", "\n  ", "  "], [foo, bar];
    assert IsWord(foo) && IsWord(bar);
    assert ValidGaps(gs, |ws|);
    InterleaveFirstGap(gs, ws);
    InterleaveFirstGap(gs[1..], ws[1..]);
    assert gs[1..][1..] == ["  "] && ws[1..][1..] == [];
    assert s == Interleave(gs, ws);
    WordsOfInterleave(gs, ws);
    JoinCons(foo, [bar]);
    assert ws == [foo] + [bar];
  }
}

/**
 * `re.sub(r'\s+', ' ', text)` on a Python str: every maximal run of
 * whitespace becomes one space.
 */
module Whitespace {

  /** The characters `\s` matches in a str pattern (those for which `str.isspace` holds). */
  predicate IsSpace(c: char) {
    || c == ' '
    || '\t' <= c <= '\r'
    || '\U{1c}' <= c <= '\U{1f}'
    || c == '\U{85}' || c == '\U{a0}' || c == '\U{1680}'
    || '\U{2000}' <= c <= '\U{200a}'
    || c == '\U{2028}' || c == '\U{2029}' || c == '\U{202f}' || c == '\U{205f}' || c == '\U{3000}'
  }

  /**
   * Within ASCII, the whitespace characters are the space, tab, line feed,
   * vertical tab, form feed, carriage return and the four separators
   * 0x1c-0x1f; no printable character but the space is whitespace.
   */
  lemma IsSpaceAscii(c: char)
    requires c < '\U{80}'
    ensures IsSpace(c) <==> c == ' ' || '\t' <= c <= '\r' || '\U{1c}' <= c <= '\U{1f}'
    ensures '!' <= c <= '~' ==> !IsSpace(c)
  {
  }

  /** Positions i and i + 1 of `s` both hold a space. */
  predicate DoubleSpaceAt(s: string, i: nat)
    requires i + 1 < |s|
  {
    s[i] == ' ' && s[i + 1] == ' '
  }

  /** The only whitespace is the plain space, and no two spaces are adjacent. */
  predicate Collapsed(s: string) {
    && (forall i :: 0 <= i < |s| && IsSpace(s[i]) ==> s[i] == ' ')
    && (forall i: nat :: i + 1 < |s| ==> !DoubleSpaceAt(s, i))
  }

  /** Putting a character in front of collapsed text keeps it collapsed unless it makes a double space. */
  lemma ConsCollapsed(c: char, rest: string)
    requires Collapsed(rest)
    requires IsSpace(c) ==> c == ' '
    requires c == ' ' && rest != [] ==> rest[0] != ' '
    ensures Collapsed([c] + rest)
  {
    var r := [c] + rest;
    forall i: nat | i + 1 < |r| ensures !DoubleSpaceAt(r, i) {
      if i > 0 {
        assert !DoubleSpaceAt(rest, i - 1);
      }
    }
  }

  /** Dropping the first character of collapsed text keeps it collapsed. */
  lemma TailCollapsed(s: string)
    requires s != [] && Collapsed(s)
    ensures Collapsed(s[1..])
  {
    var t := s[1..];
    forall i: nat | i + 1 < |t| ensures !DoubleSpaceAt(t, i) {
      assert !DoubleSpaceAt(s, i + 1);
    }
  }

  /** The text with all whitespace taken out. */
  function NonSpace(s: string): string
    decreases |s|
  {
    if s == [] then [] else (if IsSpace(s[0]) then [] else [s[0]]) + NonSpace(s[1..])
  }

  /** Skips the whitespace run at the front of `s`. */
  function DropSpaces(s: string): (t: string)
    ensures t == [] || !IsSpace(t[0])
    ensures |t| <= |s| && t == s[|s| - |t|..]
    ensures forall i :: 0 <= i < |s| - |t| ==> IsSpace(s[i])
    ensures NonSpace(t) == NonSpace(s)
    decreases |s|
  {
    if s != [] && IsSpace(s[0]) then DropSpaces(s[1..]) else s
  }

  function CollapseWhitespace(s: string): (r: string)
    ensures |r| <= |s|
    ensures s == [] <==> r == []
    ensures s != [] && IsSpace(s[0]) ==> r[0] == ' '
    ensures s != [] && !IsSpace(s[0]) ==> r[0] == s[0]
    decreases |s|
  {
    if s == [] then []
    else if IsSpace(s[0]) then [' '] + CollapseWhitespace(DropSpaces(s[1..]))
    else [s[0]] + CollapseWhitespace(s[1..])
  }

  /**
   * The collapse leaves no whitespace but single spaces, never two spaces in
   * a row, and the same non-whitespace text in the same order.
   */
  lemma {:induction false} CollapseShape(s: string)
    ensures Collapsed(CollapseWhitespace(s))
    ensures NonSpace(CollapseWhitespace(s)) == NonSpace(s)
    decreases |s|
  {
    if s != [] {
      var r := CollapseWhitespace(s);
      var t := if IsSpace(s[0]) then DropSpaces(s[1..]) else s[1..];
      var rest := CollapseWhitespace(t);
      CollapseShape(t);
      assert r == [r[0]] + rest;
      ConsCollapsed(r[0], rest);
      assert r[1..] == rest;
    }
  }

  /** Text that is already collapsed is left as it is. */
  lemma {:induction false} CollapseFixesCollapsed(s: string)
    requires Collapsed(s)
    ensures CollapseWhitespace(s) == s
    decreases |s|
  {
    if s != [] {
      var t := s[1..];
      TailCollapsed(s);
      CollapsedHead(s);
      CollapseFixesCollapsed(t);
      if IsSpace(s[0]) {
        assert DropSpaces(t) == t;
        assert CollapseWhitespace(s) == [' '] + CollapseWhitespace(t);
      } else {
        assert CollapseWhitespace(s) == [s[0]] + CollapseWhitespace(t);
      }
      assert s == [s[0]] + t;
    }
  }

  /** Collapsed text starting with whitespace starts with a space followed by a non-whitespace character. */
  lemma CollapsedHead(s: string)
    requires s != [] && Collapsed(s)
    ensures IsSpace(s[0]) ==> s[0] == ' ' && (|s| > 1 ==> !IsSpace(s[1]))
  {
    if IsSpace(s[0]) && |s| > 1 {
      assert !DoubleSpaceAt(s, 0);
    }
  }

  /** A string is a fixed point of the collapse exactly when it is collapsed. */
  lemma CollapseFixedPoints(s: string)
    ensures CollapseWhitespace(s) == s <==> Collapsed(s)
  {
    CollapseShape(s);
    if Collapsed(s) {
      CollapseFixesCollapsed(s);
    }
  }

  /** Collapsing twice gives the same text as collapsing once. */
  lemma CollapseIdempotent(s: string)
    ensures CollapseWhitespace(CollapseWhitespace(s)) == CollapseWhitespace(s)
  {
    CollapseShape(s);
    CollapseFixesCollapsed(CollapseWhitespace(s));
  }

  // ---------------------------------------------------------------------------
  // An independent description of the collapse, in terms of words

  /** A non-empty run of non-whitespace characters. */
  predicate IsWord(w: string) {
    w != [] && forall j :: 0 <= j < |w| ==> !IsSpace(w[j])
  }

  /**
   * The maximal runs of non-whitespace characters of `s`, in order: a
   * non-whitespace character belongs to the same word as the character
   * right after it when that one is not whitespace either.
   */
  function Words(s: string): (ws: seq<string>)
    ensures forall k :: 0 <= k < |ws| ==> IsWord(ws[k])
    ensures s != [] && !IsSpace(s[0]) ==> |ws| > 0 && ws[0] != [] && ws[0][0] == s[0]
    decreases |s|
  {
    if s == [] then []
    else if IsSpace(s[0]) then Words(s[1..])
    else
      var rest := Words(s[1..]);
      if |s| > 1 && !IsSpace(s[1]) then [[s[0]] + rest[0]] + rest[1..]
      else [[s[0]]] + rest
  }

  /** The words separated by single spaces. */
  function JoinWords(ws: seq<string>): string {
    if ws == [] then []
    else if |ws| == 1 then ws[0]
    else ws[0] + " " + JoinWords(ws[1..])
  }

  predicate LeadingSpace(s: string) {
    s != [] && IsSpace(s[0])
  }

  predicate TrailingSpace(s: string) {
    s != [] && IsSpace(s[|s| - 1])
  }

  /**
   * What `re.sub(r'\s+', ' ', s)` produces, described run by run: text that
   * is all whitespace becomes one space; otherwise leading whitespace
   * becomes one space, the words follow separated by one space each, and
   * trailing whitespace becomes one space.
   */
  function Layout(s: string): string {
    if Words(s) == [] then (if s == [] then "" else " ")
    else
      (if LeadingSpace(s) then " " else "")
      + JoinWords(Words(s))
      + (if TrailingSpace(s) then " " else "")
  }

  /** Skipping leading whitespace does not change the words. */
  lemma {:induction false} WordsDropSpaces(s: string)
    ensures Words(DropSpaces(s)) == Words(s)
    decreases |s|
  {
    if s != [] && IsSpace(s[0]) {
      WordsDropSpaces(s[1..]);
    }
  }

  /** Text without words is all whitespace. */
  lemma {:induction false} NoWordsAllSpace(s: string)
    requires Words(s) == []
    ensures forall i :: 0 <= i < |s| ==> IsSpace(s[i])
    decreases |s|
  {
    if s != [] {
      NoWordsAllSpace(s[1..]);
      forall i | 0 <= i < |s| ensures IsSpace(s[i]) {
        if i > 0 { assert s[i] == s[1..][i - 1]; }
      }
    }
  }

  /** A character in front of the first word becomes part of it when joined. */
  lemma JoinWordsCons(c: char, ws: seq<string>)
    requires ws != []
    ensures JoinWords([[c] + ws[0]] + ws[1..]) == [c] + JoinWords(ws)
  {
    var vs := [[c] + ws[0]] + ws[1..];
    if |ws| > 1 {
      assert vs[1..] == ws[1..];
    }
  }

  /** The collapse keeps the words of the text, in order. */
  lemma {:induction false} CollapseKeepsWords(s: string)
    ensures Words(CollapseWhitespace(s)) == Words(s)
    decreases |s|
  {
    if s != [] {
      var r := CollapseWhitespace(s);
      if IsSpace(s[0]) {
        var t := DropSpaces(s[1..]);
        var rest := CollapseWhitespace(t);
        assert r[1..] == rest;
        CollapseKeepsWords(t);
        WordsDropSpaces(s[1..]);
      } else {
        var rest := CollapseWhitespace(s[1..]);
        assert r[1..] == rest;
        CollapseKeepsWords(s[1..]);
      }
    }
  }

  /** Layout of text that starts with a word: the words, then the trailing space if any. */
  lemma LayoutNoLead(t: string)
    requires t != [] && !IsSpace(t[0])
    ensures Words(t) != []
    ensures Layout(t) == JoinWords(Words(t)) + (if TrailingSpace(t) then " " else "")
  {
    assert Words(t) != [];
    assert !LeadingSpace(t);
  }

  /** A non-empty suffix ends where the whole text ends. */
  lemma TrailingOfSuffix(s: string, k: nat)
    requires k < |s|
    ensures TrailingSpace(s[k..]) == TrailingSpace(s)
  {
    assert s[k..][|s| - k - 1] == s[|s| - 1];
  }

  /** A leading whitespace run lays out as one space followed by the layout of the rest. */
  lemma LayoutLeadingRun(s: string)
    requires LeadingSpace(s)
    ensures Layout(s) == " " + Layout(DropSpaces(s[1..]))
  {
    var x := s[1..];
    var t := DropSpaces(x);
    assert Words(s) == Words(x);
    WordsDropSpaces(x);
    if t != [] {
      assert t == s[|s| - |t|..];
      LayoutLeadThenSuffix(s, |s| - |t|);
    }
  }

  /** Leading whitespace followed by a suffix with the same words, which starts with a word. */
  lemma LayoutLeadThenSuffix(s: string, k: nat)
    requires LeadingSpace(s) && 0 < k < |s| && !IsSpace(s[k])
    requires Words(s[k..]) == Words(s)
    ensures Layout(s) == " " + Layout(s[k..])
  {
    var t := s[k..];
    LayoutNoLead(t);
    LayoutLead(s);
    TrailingOfSuffix(s, k);
  }

  /** A word character followed by another one joins the first word of the rest. */
  lemma LayoutWordContinues(s: string)
    requires |s| > 1 && !IsSpace(s[0]) && !IsSpace(s[1])
    ensures Layout(s) == [s[0]] + Layout(s[1..])
  {
    var x := s[1..];
    LayoutNoLead(x);
    JoinWordsCons(s[0], Words(x));
    TrailingOfSuffix(s, 1);
  }

  /** A word character with nothing after it is a one-character word. */
  lemma LayoutLastChar(s: string)
    requires |s| == 1 && !IsSpace(s[0])
    ensures Layout(s) == [s[0]] + Layout(s[1..])
  {
    assert Words(s) == [[s[0]]];
  }

  /** Layout of text that starts with whitespace and has words. */
  lemma LayoutLead(s: string)
    requires LeadingSpace(s) && Words(s) != []
    ensures Layout(s) == " " + JoinWords(Words(s)) + (if TrailingSpace(s) then " " else "")
  {
  }

  /** A word character followed only by whitespace: the word, then one space. */
  lemma LayoutLastWord(s: string)
    requires |s| > 1 && !IsSpace(s[0]) && IsSpace(s[1]) && Words(s[1..]) == []
    ensures Layout(s) == [s[0]] + Layout(s[1..])
  {
    var x := s[1..];
    assert Words(s) == [[s[0]]];
    NoWordsAllSpace(x);
    assert TrailingSpace(x);
    TrailingOfSuffix(s, 1);
    assert Layout(x) == " ";
  }

  /** Joining a word in front of further words puts one space between them. */
  lemma JoinWordsConsWord(w: string, ws: seq<string>)
    requires ws != []
    ensures JoinWords([w] + ws) == w + " " + JoinWords(ws)
  {
    assert ([w] + ws)[1..] == ws;
  }

  /** A word character followed by whitespace is a word of its own. */
  lemma WordsWordEnds(s: string)
    requires |s| > 1 && !IsSpace(s[0]) && IsSpace(s[1])
    ensures Words(s) == [[s[0]]] + Words(s[1..])
  {
  }

  /** A word character followed by whitespace and more words: the word, one space, the rest. */
  lemma LayoutWordBeforeWords(s: string)
    requires |s| > 1 && !IsSpace(s[0]) && IsSpace(s[1]) && Words(s[1..]) != []
    ensures Layout(s) == [s[0]] + Layout(s[1..])
  {
    var c, x := s[0], s[1..];
    var ws := Words(x);
    WordsWordEnds(s);
    LayoutNoLead(s);
    LayoutLead(x);
    TrailingOfSuffix(s, 1);
    JoinWordsConsWord([c], ws);
  }

  /** The collapse is exactly the run-by-run description Layout. */
  lemma {:induction false} CollapseLayout(s: string)
    ensures CollapseWhitespace(s) == Layout(s)
    decreases |s|
  {
    if s == [] {
    } else if IsSpace(s[0]) {
      CollapseLayout(DropSpaces(s[1..]));
      LayoutLeadingRun(s);
    } else {
      CollapseLayout(s[1..]);
      if |s| == 1 {
        LayoutLastChar(s);
      } else if IsSpace(s[1]) && Words(s[1..]) == [] {
        LayoutLastWord(s);
      } else if IsSpace(s[1]) {
        LayoutWordBeforeWords(s);
      } else {
        LayoutWordContinues(s);
      }
    }
  }
}

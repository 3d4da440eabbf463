/** The text buffer: a list of paragraphs, each a non-empty list of wrapped
    display lines, built from the initial text by `Editor.text_init` and
    serialised back by `Editor.__call__`. */
module Buffer {
  import opened Lines
  import opened Wrapper

  /** One paragraph: its wrapped display lines. */
  type Paragraph = seq<string>

  /** `Editor.text`: the paragraphs in order. */
  type Text = seq<Paragraph>

  /** The line boundaries of Python's `str.splitlines`. */
  predicate LineBreak(c: char)
  {
    c == '\n' || c == '\r' || c == '\U{0B}' || c == '\U{0C}' || c == '\U{1C}' || c == '\U{1D}'
    || c == '\U{1E}' || c == '\U{85}' || c == '\U{2028}' || c == '\U{2029}'
  }

  predicate NoLineBreak(s: string)
  {
    forall i :: 0 <= i < |s| ==> !LineBreak(s[i])
  }

  /** Membership in Python's `string.printable`: the ASCII codes 9 to 13 and
      32 to 126. */
  predicate Printable(c: char)
    ensures Printable(c) ==> c < '\U{80}'
    ensures Printable(c) && LineBreak(c) ==> Rewritten(c)
  {
    '\t' <= c <= '\r' || ' ' <= c <= '~'
  }

  /** The logical text of every paragraph (`"".join(p)` for each `p`). */
  function Texts(text: Text): (r: seq<string>)
    ensures |r| == |text|
  {
    seq(|text|, p requires 0 <= p < |text| => Flatten(text[p]))
  }

  /** The layout invariant of the buffer at window width `winSizeX`: there is
      at least one paragraph, and every paragraph is exactly the wrap of its
      own text, a text that textwrap's rewrites leave alone and that holds no
      line boundary. */
  ghost predicate WellWrapped(text: Text, winSizeX: int)
  {
    && winSizeX >= 2
    && |text| >= 1
    && forall p :: 0 <= p < |text| ==> WrappedAt(text, p, winSizeX)
  }

  /** Paragraph `p` is the wrap of its own text, which is clean and has no
      line boundary. */
  ghost predicate WrappedAt(text: Text, p: nat, winSizeX: int)
    requires p < |text| && winSizeX >= 2
  {
    && text[p] == TextWrap(Flatten(text[p]), winSizeX)
    && Clean(Flatten(text[p]))
    && NoLineBreak(Flatten(text[p]))
  }

  /** Every paragraph has at least one display row. */
  predicate NonEmptyParagraphs(text: Text)
  {
    forall p :: 0 <= p < |text| ==> text[p] != []
  }

  /** `Editor.flattened_text`: all display rows in order, or `[""]`. */
  function Flattened(text: Text): (r: seq<string>)
    ensures |r| >= 1
    ensures |text| >= 1 && NonEmptyParagraphs(text) ==> |r| >= |text| && r == Flatten(text)
  {
    FlattenCountsNonEmptyIfAll(text);
    var rows := Flatten(text);
    if rows == [] then [""] else rows
  }

  lemma FlattenCountsNonEmptyIfAll(text: Text)
    ensures NonEmptyParagraphs(text) ==> |Flatten(text)| >= |text|
  {
    if NonEmptyParagraphs(text) {
      FlattenCountsNonEmpty(text);
    }
  }

  /** Index of the first line boundary of `s`, or `|s|` when there is none. */
  function FirstBreak(s: string): (i: nat)
    ensures i <= |s|
    ensures i < |s| ==> LineBreak(s[i])
    ensures NoLineBreak(s[..i])
  {
    if s == [] then 0
    else if LineBreak(s[0]) then 0
    else
      var i := 1 + FirstBreak(s[1..]);
      assert s[..i] == [s[0]] + s[1..][..i - 1];
      i
  }

  /** Python's `str.splitlines()`: the pieces between line boundaries, where
      CR LF counts as one boundary and a boundary at the very end does not
      open an empty last line. */
  function SplitLines(s: string): (r: seq<string>)
    ensures forall k :: 0 <= k < |r| ==> NoLineBreak(r[k])
    ensures (r == []) == (s == [])
    decreases |s|
  {
    if s == [] then []
    else
      var i := FirstBreak(s);
      if i == |s| then
        assert s[..i] == s;
        [s]
      else
        var next := if s[i] == '\r' && i + 1 < |s| && s[i + 1] == '\n' then i + 2 else i + 1;
        [s[..i]] + SplitLines(s[next..])
  }

  /** `text.splitlines() or [""]`: the paragraphs of an initial text. */
  function ParagraphsOf(s: string): (r: seq<string>)
    ensures |r| >= 1
    ensures forall k :: 0 <= k < |r| ==> NoLineBreak(r[k])
    ensures s == [] ==> r == [""]
  {
    var ls := SplitLines(s);
    if ls == [] then [""] else ls
  }

  /** The list `text_init` builds before truncation (and keeps as
      `text_orig`): every paragraph wrapped at `winSizeX`. The
      `or [""]` after `_text_wrap` there never applies, since `_text_wrap`
      already returns at least one line. */
  function InitText(s: string, winSizeX: int): (r: Text)
    requires winSizeX >= 2
    ensures |r| == |ParagraphsOf(s)|
    ensures forall k :: 0 <= k < |r| ==> Flatten(r[k]) == Normalized(ParagraphsOf(s)[k])
  {
    Layout(ParagraphsOf(s), winSizeX)
  }

  /** Paragraph texts laid out at window width `winSizeX`: one paragraph
      of at least one row per text, holding that text as textwrap rewrites
      it. */
  function Layout(ps: seq<string>, winSizeX: int): (r: Text)
    requires winSizeX >= 2
    ensures |r| == |ps|
    ensures forall k :: 0 <= k < |r| ==> r[k] != [] && Flatten(r[k]) == Normalized(ps[k])
  {
    seq(|ps|, k requires 0 <= k < |ps| => TextWrap(ps[k], winSizeX))
  }

  /** Text in which every line boundary is one that the rewrites replace by
      a space, so that no boundary survives wrapping. */
  predicate SafeText(s: string)
  {
    forall i :: 0 <= i < |s| ==> LineBreak(s[i]) ==> Rewritten(s[i])
  }

  /** What being laid out says about one paragraph. */
  lemma WrappedParagraph(text: Text, winSizeX: int, p: nat)
    requires WellWrapped(text, winSizeX) && p < |text|
    ensures text[p] != [] && text[p] == TextWrap(Texts(text)[p], winSizeX)
    ensures Clean(Texts(text)[p]) && NoLineBreak(Texts(text)[p])
  {
    assert WrappedAt(text, p, winSizeX);
  }

  /** A laid-out buffer is determined by its paragraph texts. */
  lemma WellWrappedIsLayout(text: Text, winSizeX: int)
    requires WellWrapped(text, winSizeX)
    ensures text == Layout(Texts(text), winSizeX)
  {
    forall k | 0 <= k < |text|
      ensures text[k] == Layout(Texts(text), winSizeX)[k]
    {
      assert WrappedAt(text, k, winSizeX);
    }
  }

  /** Rewrapping one paragraph from new text keeps the buffer laid out and
      changes that paragraph's text only, to the rewritten new text. */
  lemma WellWrappedUpdate(text: Text, winSizeX: int, p: nat, s: string)
    requires WellWrapped(text, winSizeX) && p < |text| && SafeText(s)
    ensures WellWrapped(text[p := TextWrap(s, winSizeX)], winSizeX)
    ensures Texts(text[p := TextWrap(s, winSizeX)]) == Texts(text)[p := Normalized(s)]
  {
    RewrapStable(s, winSizeX);
    NormalizedKeepsNoLineBreak(s);
    var t := text[p := TextWrap(s, winSizeX)];
    forall k | 0 <= k < |t|
      ensures WrappedAt(t, k, winSizeX)
    {
      if k != p {
        assert WrappedAt(text, k, winSizeX);
      }
    }
  }

  /** Inserting a paragraph wrapped from new text keeps the buffer laid out
      and inserts the rewritten text into the paragraph texts. */
  lemma WellWrappedInsert(text: Text, winSizeX: int, p: nat, s: string)
    requires WellWrapped(text, winSizeX) && p <= |text| && SafeText(s)
    ensures WellWrapped(text[..p] + [TextWrap(s, winSizeX)] + text[p..], winSizeX)
    ensures Texts(text[..p] + [TextWrap(s, winSizeX)] + text[p..]) == Texts(text)[..p] + [Normalized(s)] + Texts(text)[p..]
  {
    RewrapStable(s, winSizeX);
    NormalizedKeepsNoLineBreak(s);
    var w := TextWrap(s, winSizeX);
    var t := text[..p] + [w] + text[p..];
    forall k | 0 <= k < |t|
      ensures WrappedAt(t, k, winSizeX)
    {
      if k < p {
        assert t[k] == text[k] && WrappedAt(text, k, winSizeX);
      } else if k == p {
        assert t[k] == w;
      } else {
        assert t[k] == text[k - 1] && WrappedAt(text, k - 1, winSizeX);
      }
    }
    var ts := Texts(text)[..p] + [Normalized(s)] + Texts(text)[p..];
    forall k | 0 <= k < |t|
      ensures Texts(t)[k] == ts[k]
    {
      if k < p {
        assert t[k] == text[k];
      } else if k == p {
        assert t[k] == w;
      } else {
        assert t[k] == text[k - 1];
      }
    }
  }

  /** Deleting a paragraph (one of at least two) keeps the buffer laid out and
      deletes its text. */
  lemma WellWrappedDelete(text: Text, winSizeX: int, p: nat)
    requires WellWrapped(text, winSizeX) && |text| >= 2 && p < |text|
    ensures WellWrapped(text[..p] + text[p + 1..], winSizeX)
    ensures Texts(text[..p] + text[p + 1..]) == Texts(text)[..p] + Texts(text)[p + 1..]
  {
    var t := text[..p] + text[p + 1..];
    forall k | 0 <= k < |t|
      ensures WrappedAt(t, k, winSizeX)
    {
      if k < p {
        assert t[k] == text[k] && WrappedAt(text, k, winSizeX);
      } else {
        assert t[k] == text[k + 1] && WrappedAt(text, k + 1, winSizeX);
      }
    }
  }

  /** `text[:max_text_rows]` when `max_text_rows` is non-zero. */
  function Truncate(text: Text, maxTextRows: nat): (r: Text)
    ensures r <= text
    ensures maxTextRows == 0 ==> r == text
    ensures maxTextRows > 0 ==> |r| <= maxTextRows && (|r| < |text| ==> |r| == maxTextRows)
  {
    if maxTextRows != 0 && maxTextRows < |text| then text[..maxTextRows] else text
  }

  /** `"\n".join(["".join(i) for i in text])`, the value the editor returns.
      When no paragraph text holds a line boundary, splitting it into lines
      again gives the paragraph texts back, less an empty last one. */
  function Serialize(text: Text): (r: string)
    ensures |text| >= 1 && (forall k :: 0 <= k < |text| ==> NoLineBreak(Texts(text)[k])) ==>
      ParagraphsOf(r) == DropTrailingEmpty(Texts(text))
  {
    var ps := Texts(text);
    if |ps| >= 1 && forall k :: 0 <= k < |ps| ==> NoLineBreak(ps[k]) then
      ParagraphsOfJoin(ps);
      Join('\n', ps)
    else
      Join('\n', ps)
  }

  /** What `text_init` promises: at least one paragraph, each a non-empty list
      of lines laid out for the width, one paragraph per input line, `[[""]]`
      for the empty input; truncation keeps a non-empty prefix of at most
      `max_text_rows` paragraphs when that is non-zero. */
  lemma InitTextShape(s: string, winSizeX: int, maxTextRows: nat)
    requires winSizeX >= 2
    ensures WellWrapped(InitText(s, winSizeX), winSizeX)
    ensures |InitText(s, winSizeX)| == |ParagraphsOf(s)|
    ensures s == [] ==> InitText(s, winSizeX) == [[""]]
    ensures WellWrapped(Truncate(InitText(s, winSizeX), maxTextRows), winSizeX)
    ensures Truncate(InitText(s, winSizeX), maxTextRows) <= InitText(s, winSizeX)
    ensures maxTextRows > 0 ==> |Truncate(InitText(s, winSizeX), maxTextRows)| <= maxTextRows
  {
    var t := InitText(s, winSizeX);
    var ps := ParagraphsOf(s);
    forall p | 0 <= p < |t|
      ensures t[p] == TextWrap(Flatten(t[p]), winSizeX)
      ensures Clean(Flatten(t[p])) && NoLineBreak(Flatten(t[p]))
    {
      RewrapStable(ps[p], winSizeX);
      NormalizedKeepsNoLineBreak(ps[p]);
    }
  }

  /** The rewrites only ever produce spaces, so text without a line boundary
      other than the rewritten ones keeps none. */
  lemma NormalizedKeepsNoLineBreak(s: string)
    requires SafeText(s)
    ensures NoLineBreak(Normalized(s))
  {
    var r := Normalized(s);
    forall i | 0 <= i < |r| ensures !LineBreak(r[i]) {
      if r[i] != ' ' {
        assert r[i] in s && !Rewritten(r[i]);
      }
    }
  }

  /** The logical texts of a laid-out buffer are the texts it was built from. */
  lemma InitTextTexts(s: string, winSizeX: int)
    requires winSizeX >= 2
    requires forall i :: 0 <= i < |s| ==> s[i] != '\t'
    ensures Texts(InitText(s, winSizeX)) == ParagraphsOf(s)
  {
    var ps := ParagraphsOf(s);
    var t := InitText(s, winSizeX);
    forall k | 0 <= k < |ps| ensures Flatten(t[k]) == ps[k] {
      NoTabNoBreakIsClean(s, ps, k);
    }
  }

  /** A piece of `splitlines` of a text without tabs is untouched by the
      rewrites. */
  lemma NoTabNoBreakIsClean(s: string, ps: seq<string>, k: nat)
    requires forall i :: 0 <= i < |s| ==> s[i] != '\t'
    requires ps == ParagraphsOf(s) && k < |ps|
    ensures Clean(ps[k])
  {
    forall i | 0 <= i < |ps[k]| ensures !Rewritten(ps[k][i]) {
      assert !LineBreak(ps[k][i]);
      if s != [] {
        SplitLinesChar(s, k, i);
      }
    }
  }

  /** Every character of a piece of `splitlines` comes from the input. */
  lemma {:induction false} SplitLinesChar(s: string, k: nat, j: nat)
    requires k < |SplitLines(s)| && j < |SplitLines(s)[k]|
    ensures SplitLines(s)[k][j] in s
    decreases |s|
  {
    var i := FirstBreak(s);
    if i < |s| {
      var next := if s[i] == '\r' && i + 1 < |s| && s[i + 1] == '\n' then i + 2 else i + 1;
      var tail := SplitLines(s[next..]);
      assert SplitLines(s) == [s[..i]] + tail;
      var c := SplitLines(s)[k][j];
      if k == 0 {
        assert c == s[j];
      } else {
        assert c == tail[k - 1][j];
        SplitLinesChar(s[next..], k - 1, j);
        var m :| 0 <= m < |s[next..]| && s[next..][m] == c;
        assert s[next + m] == c;
      }
    } else {
      assert SplitLines(s) == [s];
    }
  }

  /** Joining the pieces of `splitlines` with LF gives the text back when LF
      is its only line boundary and it does not end with one. */
  lemma {:induction false} JoinSplitLines(s: string)
    requires forall i :: 0 <= i < |s| ==> LineBreak(s[i]) ==> s[i] == '\n'
    requires s == [] || s[|s| - 1] != '\n'
    ensures Join('\n', SplitLines(s)) == s
    decreases |s|
  {
    if s != [] {
      var i := FirstBreak(s);
      if i < |s| {
        assert s[i] == '\n' && i + 1 < |s|;
        var a, rest := s[..i], s[i + 1..];
        assert s == a + ['\n'] + rest;
        assert rest[|rest| - 1] == s[|s| - 1];
        forall j | 0 <= j < |rest|
          ensures LineBreak(rest[j]) ==> rest[j] == '\n'
        {
          assert rest[j] == s[i + 1 + j];
        }
        JoinSplitLines(rest);
        SplitLinesCons(a, rest);
        assert SplitLines(rest) != [];
      } else {
        assert SplitLines(s) == [s];
      }
    }
  }

  /** Round trip: serialising right after `text_init` returns the initial text
      when it has no tab, LF is its only line boundary, it does not end with
      LF, and it was not truncated. */
  lemma SerializeInitText(s: string, winSizeX: int)
    requires winSizeX >= 2
    requires forall i :: 0 <= i < |s| ==> s[i] != '\t'
    requires forall i :: 0 <= i < |s| ==> LineBreak(s[i]) ==> s[i] == '\n'
    requires s == [] || s[|s| - 1] != '\n'
    ensures Serialize(InitText(s, winSizeX)) == s
  {
    InitTextTexts(s, winSizeX);
    if s != [] {
      JoinSplitLines(s);
    }
  }

  /** Drops one empty last paragraph when there is more than one paragraph. */
  function DropTrailingEmpty(ps: seq<string>): seq<string>
  {
    if |ps| > 1 && ps[|ps| - 1] == [] then ps[..|ps| - 1] else ps
  }

  /** Splitting the LF-join of paragraphs without line boundaries gives the
      paragraphs back, except that an empty last one is lost. */
  lemma {:induction false} SplitLinesJoin(ps: seq<string>)
    requires |ps| >= 1
    requires forall k :: 0 <= k < |ps| ==> NoLineBreak(ps[k])
    ensures SplitLines(Join('\n', ps)) == if ps[|ps| - 1] == [] then ps[..|ps| - 1] else ps
    decreases |ps|
  {
    if |ps| == 1 {
      assert Join('\n', ps) == ps[0];
      if ps[0] != [] {
        NoBreakFirstBreak(ps[0]);
        assert ps[0][..|ps[0]|] == ps[0];
        assert SplitLines(ps[0]) == [ps[0]];
      } else {
        assert SplitLines(ps[0]) == [];
        assert ps[..0] == [];
      }
    } else {
      var tail := ps[1..];
      assert ps == [ps[0]] + tail;
      assert tail[|tail| - 1] == ps[|ps| - 1];
      assert ps[..|ps| - 1] == [ps[0]] + tail[..|tail| - 1];
      SplitLinesJoin(tail);
      assert Join('\n', ps) == ps[0] + ['\n'] + Join('\n', tail);
      SplitLinesCons(ps[0], Join('\n', tail));
    }
  }

  /** A non-empty text without line boundaries is a single paragraph. */
  lemma SingleParagraph(s: string)
    requires s != [] && NoLineBreak(s)
    ensures SplitLines(s) == [s] && ParagraphsOf(s) == [s]
  {
    NoBreakFirstBreak(s);
    assert s[..|s|] == s;
  }

  /** A boundary-free piece followed by LF is split off as the first line. */
  lemma SplitLinesCons(a: string, rest: string)
    requires NoLineBreak(a)
    ensures SplitLines(a + ['\n'] + rest) == [a] + SplitLines(rest)
  {
    var s := a + ['\n'] + rest;
    NoBreakPrefixFirstBreak(a, ['\n'] + rest);
    assert a + (['\n'] + rest) == s;
    var i := FirstBreak(s);
    assert i == |a|;
    assert s[i] == '\n';
    assert s[..i] == a;
    assert s[i + 1..] == rest;
    assert SplitLines(s) == [s[..i]] + SplitLines(s[i + 1..]);
  }

  lemma NoBreakFirstBreak(s: string)
    requires NoLineBreak(s)
    ensures FirstBreak(s) == |s|
  {
  }

  lemma {:induction false} NoBreakPrefixFirstBreak(a: string, b: string)
    requires NoLineBreak(a) && b != [] && LineBreak(b[0])
    ensures FirstBreak(a + b) == |a|
    decreases |a|
  {
    if a != [] {
      assert (a + b)[1..] == a[1..] + b;
      NoBreakPrefixFirstBreak(a[1..], b);
    } else {
      assert a + b == b;
    }
  }

  /** The paragraphs of the serialised text are the paragraphs serialised,
      except that an empty last paragraph is lost (the serialised text then
      ends with LF, which `splitlines` drops). */
  lemma ParagraphsOfJoin(ps: seq<string>)
    requires |ps| >= 1
    requires forall k :: 0 <= k < |ps| ==> NoLineBreak(ps[k])
    ensures ParagraphsOf(Join('\n', ps)) == DropTrailingEmpty(ps)
  {
    SplitLinesJoin(ps);
  }

  /** Serialising and rebuilding a laid-out buffer (what `resize` does) keeps
      every paragraph's text, except an empty last paragraph. */
  lemma RebuildKeepsTexts(text: Text, winSizeX: int, newWinSizeX: int)
    requires WellWrapped(text, winSizeX) && newWinSizeX >= 2
    ensures Texts(InitText(Serialize(text), newWinSizeX)) == DropTrailingEmpty(Texts(text))
  {
    var ps := Texts(text);
    forall k | 0 <= k < |ps|
      ensures NoLineBreak(ps[k]) && Clean(ps[k])
    {
      assert WrappedAt(text, k, winSizeX);
    }
    ParagraphsOfJoin(ps);
    var s := Serialize(text);
    var t := InitText(s, newWinSizeX);
    var qs := ParagraphsOf(s);
    forall k | 0 <= k < |qs| ensures Flatten(t[k]) == qs[k] {
      assert qs[k] == ps[k];
    }
  }
}

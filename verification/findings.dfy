/** Two places where the editor, as written, does not keep a promise it
    makes elsewhere, each shown on every paragraph of a given length that
    is clean (no TAB, LF, VT, FF or CR) and has no space and no hyphen. The
    corrected versions are `Editor.DelToEolResync` and
    `Editor.InsertLineOrQuitCapped`. */
module Findings {
  import opened Lines
  import opened Wrapper
  import opened Buffer
  import opened Coordinates
  import opened Edits

  /** Text with no space and no hyphen. On text that is also clean (no
      TAB, LF, VT, FF or CR, the characters textwrap rewrites to spaces),
      textwrap finds no break opportunity and breaks the single word at
      every `width` characters, exactly as the fixed-width stand-in does, so
      the row layouts below, whose lemmas require both, are those of
      textwrap itself. */
  predicate Unbreakable(s: string)
  {
    forall i :: 0 <= i < |s| ==> s[i] != ' ' && s[i] != '-'
  }

  /** A clean paragraph of at most 4 characters is one row at width 5. */
  lemma WrapShort(s: string)
    requires 1 <= |s| <= 4 && Clean(s)
    ensures TextWrap(s, 5) == [s]
  {
    assert Normalized(s) == s;
    assert Chunk(s, 4) == [s];
  }

  /** A clean, unbreakable paragraph of 5 to 8 characters is two rows at
      width 5, the first one full. */
  lemma WrapMedium(s: string)
    requires 5 <= |s| <= 8 && Clean(s) && Unbreakable(s)
    ensures TextWrap(s, 5) == [s[..4], s[4..]]
  {
    assert Normalized(s) == s;
    assert Chunk(s[4..], 4) == [s[4..]];
    assert Chunk(s, 4) == [s[..4]] + Chunk(s[4..], 4);
  }

  /** A clean, unbreakable paragraph of 10 characters is three rows at
      width 5. */
  lemma WrapTen(s: string)
    requires |s| == 10 && Clean(s) && Unbreakable(s)
    ensures |TextWrap(s, 5)| == 3
  {
    var r := s[4..];
    assert Clean(r) && Unbreakable(r) by {
      forall i | 0 <= i < |r| ensures !Rewritten(r[i]) && r[i] != ' ' && r[i] != '-' {
        assert r[i] == s[i + 4];
      }
    }
    WrapMedium(r);
    assert Normalized(s) == s && Normalized(r) == r;
    assert Chunk(s, 4) == [s[..4]] + Chunk(r, 4);
  }

  /** `del_to_eol` as written: take a clean, unbreakable paragraph `s` of 6
      characters
      in a window 5 columns wide, so rows of 4 and 2 characters, with the
      cursor at the start of the second row (offset 4). The clip is that
      row's 2 characters, the paragraph becomes its first 4 characters,
      which take a single row, and the cursor fields, which `del_to_eol`
      leaves alone, point at a row that no longer exists. Any buffer
      `after` that `Editor.DelToEol` may leave satisfies the precondition. */
  lemma DelToEolLeavesCursorOutside(s: string, after: Text)
    requires |s| == 6 && Clean(s) && NoLineBreak(s) && Unbreakable(s)
    requires WellWrapped(after, 5)
    requires Texts(after) == [s][0 := DeleteRange(s, 4, 4 + 2)]
    ensures var before := Layout([s], 5);
      && WellWrapped(before, 5) && Texts(before) == [s]
      && CursorIn(before, 1, 0)
      && BufferToLogical(before, 1, 0).paraIndex == 0
      && BufferToLogical(before, 1, 0).charIndex == 4
      && |Flatten(before)[1]| - 0 == 2
    ensures !CursorIn(after, 1, 0)
  {
    WrapMedium(s);
    var before := Layout([s], 5);
    assert before == [[s[..4], s[4..]]];
    assert Flatten(before[0]) == s[..4] + Flatten(before[0][1..]);
    assert Flatten(before[0][1..]) == s[4..] + Flatten([]);
    assert s == s[..4] + s[4..];
    assert Texts(before) == [s];
    RewrapStable(s, 5);
    assert WrappedAt(before, 0, 5);
    assert Flatten(before) == [s[..4], s[4..]] + Flatten([]);
    assert before[0][..1] == [s[..4]];
    assert LengthBefore(before[0], 1) == 4;
    var d := DeleteRange(s, 4, 6);
    assert d == s[..4];
    assert Clean(d) by {
      forall i | 0 <= i < |d| ensures !Rewritten(d[i]) {
        assert d[i] == s[i];
      }
    }
    WellWrappedIsLayout(after, 5);
    WrapShort(d);
    assert after == [[d]];
    assert Flatten(after) == [d] + Flatten([]);
  }

  /** `insert_line_or_quit` as written compares the number of display rows
      with the cap for equality, while `text_init` caps paragraphs. A clean,
      unbreakable one-line text of 10 characters at width 5 is one paragraph of 3 rows,
      so a cap of 2 truncates nothing and the check `rows == 2` passes;
      after Enter at the start there are 4 rows, the cursor is at the start
      of the second paragraph, and the check passes again; the second split
      makes 3 paragraphs, more than the cap. `t1` and `t2` are
      any buffers the two splits may leave, as `Editor.InsertLineOrQuit`
      describes them. */
  lemma InsertLineOrQuitPassesCap(s: string, t1: Text, t2: Text)
    requires |s| == 10 && Clean(s) && NoLineBreak(s) && Unbreakable(s)
    requires WellWrapped(t1, 5) && Texts(t1) == SplitAt([s], 0, 0)
    requires Texts(t2) == SplitAt(Texts(t1), 1, 0)
    ensures var t0 := InitText(s, 5);
      && Truncate(t0, 2) == t0 && Texts(t0) == [s]
      && |Flattened(t0)| == 3
      && |Flattened(t1)| == 4
      && |t2| == 3 > 2
  {
    WrapTen(s);
    SingleParagraph(s);
    var t0 := InitText(s, 5);
    var w := TextWrap(s, 5);
    assert t0 == [w];
    assert Flatten(t0) == w + Flatten([]);
    assert Texts(t0) == [s];
    assert Flattened(t0) == Flatten(t0);
    assert SplitAt([s], 0, 0) == ["", s] by {
      assert s[..0] == "" && s[0..] == s;
    }
    WellWrappedIsLayout(t1, 5);
    assert t1 == [[""], w];
    assert Flatten(t1) == [""] + Flatten([w]);
    assert Flatten([w]) == w + Flatten([]);
    WellWrappedRows(t1, 5);
  }
}

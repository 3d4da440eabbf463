/** The editing session: the `Editor` object's buffer, cursor and scroll
    state, and the key actions that update them in place. */
module Session {
  import opened Lines
  import opened Wrapper
  import opened Buffer
  import opened Coordinates
  import opened Viewport
  import opened Edits

  class Editor {
    /** The paragraphs, each as its wrapped display rows (`self.text`). */
    var text: Text
    /** The buffer as laid out by the last `text_init`, before truncation
        (`self.text_orig`); cancelling restores it. */
    var textOrig: Text
    /** Cursor position inside the visible window. */
    var curPosY: int
    var curPosX: int
    /** First flattened row shown in the window. */
    var yOffset: int
    /** Cursor position in the flattened rows. */
    var bufferIdxY: int
    var bufferIdxX: int
    /** Rows and columns of the text area. */
    var winSizeY: int
    var winSizeX: int
    /** Paragraph cap of `text_init`; 0 means unlimited. */
    const maxTextRows: nat

    /** The buffer and the saved buffer are laid out at the window width,
        so no paragraph is an empty list of rows, and the window shows at
        least one row. */
    ghost predicate LayoutValid()
      reads this`text, this`textOrig, this`winSizeY, this`winSizeX
    {
      && winSizeY >= 1
      && WellWrapped(text, winSizeX)
      && WellWrapped(textOrig, winSizeX)
      && NonEmptyParagraphs(text)
    }

    /** Besides the layout: the window offset is not negative, the cursor is
        on an existing row, within it, on a row the window shows, and the
        window position of the cursor agrees with its buffer position. */
    ghost predicate Valid()
      reads this
    {
      && LayoutValid()
      && yOffset >= 0
      && CursorIn(text, bufferIdxY, bufferIdxX)
      && Shows(yOffset, winSizeY, bufferIdxY)
      && curPosY == bufferIdxY - yOffset
      && curPosX == bufferIdxX
    }

    /** The logical position of the cursor, as `paragraph` computes it. */
    ghost function CursorLogical(): (q: ParaPos)
      reads this
      requires Valid()
      ensures q.paraIndex < |text| && q.charIndex <= |Texts(text)[q.paraIndex]|
    {
      BufferToLogical(text, bufferIdxY, bufferIdxX)
    }

    /** Construction as far as the buffer goes: `win_init` zeroes the cursor
        and the offset, `text_init` lays out the initial text. */
    constructor (initText: string, winSizeY: int, winSizeX: int, maxTextRows: nat)
      requires winSizeY >= 1 && winSizeX >= 2
      ensures Valid()
      ensures this.winSizeY == winSizeY && this.winSizeX == winSizeX && this.maxTextRows == maxTextRows
      ensures textOrig == InitText(initText, winSizeX)
      ensures text == Truncate(textOrig, maxTextRows)
      ensures bufferIdxY == 0 && bufferIdxX == 0 && yOffset == 0
    {
      this.winSizeY := winSizeY;
      this.winSizeX := winSizeX;
      this.maxTextRows := maxTextRows;
      curPosY, curPosX, yOffset, bufferIdxY, bufferIdxX := 0, 0, 0, 0, 0;
      new;
      TextInit(initText);
      WellWrappedRows(text, winSizeX);
    }

    /** `text_init`: lay out the text, save it as the original, then keep at
        most `maxTextRows` paragraphs when a cap is set. */
    method TextInit(s: string)
      requires winSizeX >= 2
      modifies this`text, this`textOrig
      ensures textOrig == InitText(s, winSizeX)
      ensures text == Truncate(textOrig, maxTextRows)
      ensures WellWrapped(text, winSizeX) && WellWrapped(textOrig, winSizeX)
    {
      text := InitText(s, winSizeX);
      textOrig := text;
      if maxTextRows != 0 && maxTextRows < |text| {
        text := text[..maxTextRows];
      }
      InitTextShape(s, winSizeX, maxTextRows);
    }

    /** `paragraph`: walk the rows of each paragraph, counting rows until the
        cursor row is reached. */
    method Paragraph() returns (pos: ParaPos)
      requires Valid()
      ensures pos == CursorLogical()
    {
      var idxPara, idxBuffer, idxLine := 0, 0, 0;
      var done := false;
      while idxPara < |text| && !done
        invariant 0 <= idxPara <= |text|
        invariant !done ==> idxBuffer == LengthBefore(text, idxPara) <= bufferIdxY
        invariant done ==> idxPara < |text| && idxLine < |text[idxPara]|
        invariant done ==> LengthBefore(text, idxPara) + idxLine == bufferIdxY
        decreases |text| - idxPara, if done then 0 else 1
      {
        var j := 0;
        while j < |text[idxPara]| && !done
          invariant 0 <= j <= |text[idxPara]|
          invariant !done ==> idxBuffer == LengthBefore(text, idxPara) + j <= bufferIdxY
          invariant done ==> idxLine < |text[idxPara]| && LengthBefore(text, idxPara) + idxLine == bufferIdxY
          decreases |text[idxPara]| - j, if done then 0 else 1
        {
          idxLine := j;
          if idxBuffer == bufferIdxY {
            done := true;
          } else {
            idxBuffer := idxBuffer + 1;
            j := j + 1;
          }
        }
        if !done {
          LengthBeforeStep(text, idxPara);
          idxPara := idxPara + 1;
        }
      }
      assert text[..|text|] == text;
      assert done;
      FindRowAt(text, idxPara, idxLine);
      pos := ParaPos(idxPara, idxLine, LengthBefore(text[idxPara], idxLine) + bufferIdxX);
    }

    /** `line`: the text of the cursor's paragraph. The cursor offset lies
        in it, and the cursor row is the slice of it that starts where the
        cursor's column is subtracted from the offset. */
    function Line(): (r: string)
      reads this
      requires Valid()
      ensures CursorLogical().charIndex <= |r|
      ensures bufferIdxX <= CursorLogical().charIndex
      ensures CursorLogical().charIndex - bufferIdxX + |Flatten(text)[bufferIdxY]| <= |r|
      ensures var start := CursorLogical().charIndex - bufferIdxX;
        r[start..start + |Flatten(text)[bufferIdxY]|] == Flatten(text)[bufferIdxY]
    {
      var q := BufferToLogical(text, bufferIdxY, bufferIdxX);
      FlattenSlice(text[q.paraIndex], q.lineIndex);
      Flatten(text[q.paraIndex])
    }

    /** The `line` setter: rewrap the cursor's paragraph from a new text. */
    method SetLine(value: string)
      requires Valid()
      modifies this`text
      ensures text == old(text)[old(CursorLogical()).paraIndex := TextWrap(value, winSizeX)]
    {
      var pos := Paragraph();
      text := text[pos.paraIndex := TextWrap(value, winSizeX)];
    }

    /** `buf_line`: the cursor's display row, never wider than the text
        area less the cursor cell. */
    function BufLine(): (r: string)
      reads this
      requires 0 <= bufferIdxY < |Flattened(text)|
      ensures LayoutValid() ==> Flattened(text) == Flatten(text) && |r| <= winSizeX - 1
    {
      WellWrappedRows(text, winSizeX);
      RowWidth(text, winSizeX, bufferIdxY);
      Flattened(text)[bufferIdxY]
    }

    /** `buffer_rows`: the row count scrolling works with, at least a window
        and at least the text. */
    function BufferRows(): (r: int)
      reads this
      ensures r >= winSizeY && r >= |Flattened(text)|
      ensures r == winSizeY || r == |Flattened(text)|
    {
      Max(winSizeY, |Flattened(text)|)
    }

    /** `_set_buffer_idx_y`: the buffer row from the window row and offset;
        past the last row it gives the row count itself. */
    method SetBufferIdxY()
      modifies this`bufferIdxY
      ensures curPosY + yOffset > |Flattened(text)| - 1 ==> bufferIdxY == |Flattened(text)|
      ensures curPosY + yOffset <= |Flattened(text)| - 1 ==> bufferIdxY == curPosY + yOffset
    {
      if curPosY + yOffset > |Flattened(text)| - 1 {
        bufferIdxY := |Flattened(text)|;
      } else {
        bufferIdxY := curPosY + yOffset;
      }
    }

    /** `_set_buffer_idx_x`: clamp the window column to the row's length and
        copy it to the buffer column. */
    method SetBufferIdxX()
      requires 0 <= bufferIdxY < |Flattened(text)|
      modifies this`curPosX, this`bufferIdxX
      ensures curPosX == Min(old(curPosX), |BufLine()|) && bufferIdxX == curPosX
    {
      if curPosX > |BufLine()| {
        curPosX := |BufLine()|;
      }
      bufferIdxX := curPosX;
    }

    /** `_char_index_to_yx`: walk the paragraph's characters to the offset
        to find row and column, then step the offset until the row is shown.
        The cursor lands on `LogicalToBuffer`, the window scrolls by the
        least amount that shows it, and an offset within the paragraph is
        read back unchanged by `paragraph`. */
    method CharIndexToYX(paraIndex: nat, charIndex: nat)
      requires LayoutValid() && yOffset >= 0 && paraIndex < |text|
      modifies this`curPosY, this`curPosX, this`yOffset, this`bufferIdxY, this`bufferIdxX
      ensures Valid()
      ensures BufferPos(bufferIdxY, bufferIdxX) == LogicalToBuffer(text, paraIndex, charIndex)
      ensures yOffset == ScrollTo(old(yOffset), bufferIdxY, winSizeY)
      ensures charIndex <= |Texts(text)[paraIndex]| ==>
        CursorLogical().paraIndex == paraIndex && CursorLogical().charIndex == charIndex
      ensures charIndex <= |Texts(text)[paraIndex]| ==>
        BufferPos(bufferIdxY, bufferIdxX) == LogicalToBuffer(text, CursorLogical().paraIndex, CursorLogical().charIndex)
    {
      WellWrappedRows(text, winSizeX);
      var lineIdx, xPos := WalkTo(text[paraIndex], charIndex);
      LogicalToBufferIn(text, paraIndex, charIndex);
      bufferIdxX := xPos;
      var prevParasLen := LengthBefore(text, paraIndex);
      bufferIdxY := prevParasLen + lineIdx;
      yOffset := StepOffset(yOffset, bufferIdxY, winSizeY);
      curPosY := bufferIdxY - yOffset;
      curPosX := bufferIdxX;
      if charIndex <= |Texts(text)[paraIndex]| {
        CoordinateInverse(text, paraIndex, charIndex);
      }
    }

    /** `up`: one row up, scrolling when the cursor is on the top window
        row; the column is clamped to the new row. */
    method Up()
      requires Valid()
      modifies this`curPosY, this`curPosX, this`yOffset, this`bufferIdxY, this`bufferIdxX
      ensures Valid()
      ensures bufferIdxY == Max(0, old(bufferIdxY) - 1)
      ensures bufferIdxX == Min(old(bufferIdxX), |Flatten(text)[bufferIdxY]|)
      ensures yOffset == ScrollTo(old(yOffset), bufferIdxY, winSizeY)
    {
      WellWrappedRows(text, winSizeX);
      if curPosY > 0 {
        curPosY := curPosY - 1;
      } else {
        yOffset := Max(0, yOffset - 1);
      }
      SetBufferIdxY();
      SetBufferIdxX();
    }

    /** `down`: one row down unless on the last row, scrolling when the
        cursor is on the bottom window row; the column is clamped. */
    method Down()
      requires Valid()
      modifies this`curPosY, this`curPosX, this`yOffset, this`bufferIdxY, this`bufferIdxX
      ensures Valid()
      ensures old(bufferIdxY) < |Flatten(text)| - 1 ==> bufferIdxY == old(bufferIdxY) + 1
      ensures old(bufferIdxY) == |Flatten(text)| - 1 ==> bufferIdxY == old(bufferIdxY)
      ensures bufferIdxX == Min(old(bufferIdxX), |Flatten(text)[bufferIdxY]|)
      ensures yOffset == ScrollTo(old(yOffset), bufferIdxY, winSizeY)
    {
      WellWrappedRows(text, winSizeX);
      if curPosY < winSizeY - 1 && bufferIdxY < |Flattened(text)| - 1 {
        curPosY := curPosY + 1;
      } else if bufferIdxY == |Flattened(text)| - 1 {
      } else {
        yOffset := Min(BufferRows() - winSizeY, yOffset + 1);
      }
      SetBufferIdxY();
      SetBufferIdxX();
    }

    /** `end`: the column goes to the end of the row. */
    method End()
      requires Valid()
      modifies this`curPosX, this`bufferIdxX
      ensures Valid()
      ensures bufferIdxX == |Flatten(text)[bufferIdxY]|
    {
      WellWrappedRows(text, winSizeX);
      curPosX := |BufLine()|;
      SetBufferIdxX();
    }

    /** `home`: the column goes to the start of the row. */
    method Home()
      requires Valid()
      modifies this`curPosX, this`bufferIdxX
      ensures Valid()
      ensures bufferIdxX == 0
    {
      WellWrappedRows(text, winSizeX);
      curPosX := 0;
      SetBufferIdxX();
    }

    /** `left`: one column left; from the start of a row to the end of the
        row above; nothing at the start of the buffer. */
    method Left()
      requires Valid()
      modifies this`curPosY, this`curPosX, this`yOffset, this`bufferIdxY, this`bufferIdxX
      ensures Valid()
      ensures old(bufferIdxX) > 0 ==> bufferIdxY == old(bufferIdxY) && bufferIdxX == old(bufferIdxX) - 1
      ensures old(bufferIdxX) == 0 && old(bufferIdxY) > 0 ==>
        bufferIdxY == old(bufferIdxY) - 1 && bufferIdxX == |Flatten(text)[bufferIdxY]|
      ensures old(bufferIdxX) == 0 && old(bufferIdxY) == 0 ==> bufferIdxY == 0 && bufferIdxX == 0
      ensures yOffset == ScrollTo(old(yOffset), bufferIdxY, winSizeY)
    {
      WellWrappedRows(text, winSizeX);
      if curPosX > 0 {
        curPosX := curPosX - 1;
      } else if curPosX == 0 && bufferIdxY > 0 {
        Up();
        End();
      }
      SetBufferIdxX();
    }

    /** `right`: one column right; from the end of a row to the start of the
        row below; nothing at the end of the last row. */
    method Right()
      requires Valid()
      modifies this`curPosY, this`curPosX, this`yOffset, this`bufferIdxY, this`bufferIdxX
      ensures Valid()
      ensures old(bufferIdxX) < |Flatten(text)[old(bufferIdxY)]| ==>
        bufferIdxY == old(bufferIdxY) && bufferIdxX == old(bufferIdxX) + 1
      ensures old(bufferIdxX) == |Flatten(text)[old(bufferIdxY)]| && old(bufferIdxY) == |Flatten(text)| - 1 ==>
        bufferIdxY == old(bufferIdxY) && bufferIdxX == old(bufferIdxX)
      ensures old(bufferIdxX) == |Flatten(text)[old(bufferIdxY)]| && old(bufferIdxY) < |Flatten(text)| - 1 ==>
        bufferIdxY == old(bufferIdxY) + 1 && bufferIdxX == 0
      ensures yOffset == ScrollTo(old(yOffset), bufferIdxY, winSizeY)
    {
      WellWrappedRows(text, winSizeX);
      RowWidth(text, winSizeX, bufferIdxY);
      if curPosX < winSizeX && curPosX < |BufLine()| {
        curPosX := curPosX + 1;
      } else if bufferIdxY == |Flattened(text)| - 1 {
      } else {
        Down();
        Home();
      }
      SetBufferIdxX();
    }

    /** `page_up`: the window moves up a page, never above the first row; the
        cursor keeps its window row. */
    method PageUp()
      requires Valid()
      modifies this`curPosY, this`curPosX, this`yOffset, this`bufferIdxY, this`bufferIdxX
      ensures Valid()
      ensures yOffset == Max(0, old(yOffset) - winSizeY)
      ensures curPosY == old(curPosY) && bufferIdxY == yOffset + curPosY
      ensures bufferIdxX == Min(old(bufferIdxX), |Flatten(text)[bufferIdxY]|)
    {
      WellWrappedRows(text, winSizeX);
      yOffset := Max(0, yOffset - winSizeY);
      SetBufferIdxY();
      SetBufferIdxX();
    }

    /** `page_down`: the window moves down a page but its offset stays below
        `buffer_rows - win_size_y` and at least 0; the cursor keeps its
        window row, which stays on an existing row. */
    method PageDown()
      requires Valid()
      modifies this`curPosY, this`curPosX, this`yOffset, this`bufferIdxY, this`bufferIdxX
      ensures Valid()
      ensures yOffset == Max(0, Min(BufferRows() - winSizeY - 1, old(yOffset) + winSizeY))
      ensures curPosY == old(curPosY) && bufferIdxY == yOffset + curPosY
      ensures bufferIdxX == Min(old(bufferIdxX), |Flatten(text)[bufferIdxY]|)
    {
      WellWrappedRows(text, winSizeX);
      yOffset := Min(BufferRows() - winSizeY - 1, yOffset + winSizeY);
      yOffset := Max(0, yOffset);
      SetBufferIdxY();
      SetBufferIdxX();
    }

    /** `insert_char`: a printable character goes into the paragraph at the
        cursor offset and the cursor moves past it; anything else is
        ignored. The paragraph is rewrapped, so a tab, LF, VT, FF or CR is
        stored as textwrap rewrites it. */
    method InsertChar(c: char)
      requires Valid()
      modifies this`text, this`curPosY, this`curPosX, this`yOffset, this`bufferIdxY, this`bufferIdxX
      ensures Valid()
      ensures !Printable(c) ==>
        text == old(text) && bufferIdxY == old(bufferIdxY) && bufferIdxX == old(bufferIdxX) && yOffset == old(yOffset)
      ensures Printable(c) ==>
        var q := old(CursorLogical());
        var ps := old(Texts(text));
        && Texts(text) == ps[q.paraIndex := Normalized(InsertAt(ps[q.paraIndex], q.charIndex, c))]
        && (!Rewritten(c) ==> Texts(text) == ps[q.paraIndex := InsertAt(ps[q.paraIndex], q.charIndex, c)])
        && CursorLogical().paraIndex == q.paraIndex && CursorLogical().charIndex == q.charIndex + 1
      ensures Printable(c) ==>
        && BufferPos(bufferIdxY, bufferIdxX) == LogicalToBuffer(text, CursorLogical().paraIndex, CursorLogical().charIndex)
        && yOffset == ScrollTo(old(yOffset), bufferIdxY, winSizeY)
    {
      if !Printable(c) {
        return;
      }
      var pos := Paragraph();
      var line := Line();
      ghost var before := text;
      WrappedParagraph(text, winSizeX, pos.paraIndex);
      var newLine := InsertAt(line, pos.charIndex, c);
      InsertKeepsSafe(line, pos.charIndex, c);
      SetLine(newLine);
      WellWrappedUpdate(before, winSizeX, pos.paraIndex, newLine);
      CharIndexToYX(pos.paraIndex, pos.charIndex + 1);
    }

    /** `insert_line_or_quit` as written: with a one-row cap it ends the
        session; when the flattened row count equals the cap it does
        nothing; otherwise it splits the paragraph at the cursor and puts the
        cursor at the start of the second half. */
    method InsertLineOrQuit() returns (loop: bool)
      requires Valid()
      modifies this`text, this`curPosY, this`curPosX, this`yOffset, this`bufferIdxY, this`bufferIdxX
      ensures Valid()
      ensures !loop <==> maxTextRows == 1
      ensures maxTextRows == 1 || |Flattened(old(text))| == maxTextRows ==>
        && text == old(text) && bufferIdxY == old(bufferIdxY) && bufferIdxX == old(bufferIdxX)
        && yOffset == old(yOffset)
      ensures maxTextRows != 1 && |Flattened(old(text))| != maxTextRows ==>
        var q := old(CursorLogical());
        && Texts(text) == SplitAt(old(Texts(text)), q.paraIndex, q.charIndex)
        && CursorLogical().paraIndex == q.paraIndex + 1 && CursorLogical().charIndex == 0
      ensures maxTextRows != 1 && |Flattened(old(text))| != maxTextRows ==>
        && BufferPos(bufferIdxY, bufferIdxX) == LogicalToBuffer(text, CursorLogical().paraIndex, CursorLogical().charIndex)
        && yOffset == ScrollTo(old(yOffset), bufferIdxY, winSizeY)
    {
      if maxTextRows == 1 {
        return false;
      }
      if |Flattened(text)| == maxTextRows {
        return true;
      }
      Split();
      return true;
    }

    /** `insert_line_or_quit` with the cap checked as evidently intended:
        the paragraph count, which `text_init` caps, never grows past a
        non-zero `maxTextRows`. */
    method InsertLineOrQuitCapped() returns (loop: bool)
      requires Valid()
      modifies this`text, this`curPosY, this`curPosX, this`yOffset, this`bufferIdxY, this`bufferIdxX
      ensures Valid()
      ensures !loop <==> maxTextRows == 1
      ensures maxTextRows > 0 && |old(text)| <= maxTextRows ==> |text| <= maxTextRows
      ensures maxTextRows == 1 || (maxTextRows > 0 && |Flattened(old(text))| >= maxTextRows) ==>
        && text == old(text) && bufferIdxY == old(bufferIdxY) && bufferIdxX == old(bufferIdxX)
        && yOffset == old(yOffset)
      ensures maxTextRows != 1 && !(maxTextRows > 0 && |Flattened(old(text))| >= maxTextRows) ==>
        var q := old(CursorLogical());
        && Texts(text) == SplitAt(old(Texts(text)), q.paraIndex, q.charIndex)
        && CursorLogical().paraIndex == q.paraIndex + 1 && CursorLogical().charIndex == 0
      ensures maxTextRows != 1 && !(maxTextRows > 0 && |Flattened(old(text))| >= maxTextRows) ==>
        && BufferPos(bufferIdxY, bufferIdxX) == LogicalToBuffer(text, CursorLogical().paraIndex, CursorLogical().charIndex)
        && yOffset == ScrollTo(old(yOffset), bufferIdxY, winSizeY)
    {
      if maxTextRows == 1 {
        return false;
      }
      if maxTextRows > 0 && |Flattened(text)| >= maxTextRows {
        return true;
      }
      if maxTextRows > 0 {
        CapGuardBound(text, winSizeX, maxTextRows);
      }
      Split();
      return true;
    }

    /** The split shared by both versions of `insert_line_or_quit`: the
        paragraph keeps the text before the cursor, the text after it becomes
        a new paragraph right after, and the cursor goes to its start. */
    method Split()
      requires Valid()
      modifies this`text, this`curPosY, this`curPosX, this`yOffset, this`bufferIdxY, this`bufferIdxX
      ensures Valid()
      ensures var q := old(CursorLogical());
        && Texts(text) == SplitAt(old(Texts(text)), q.paraIndex, q.charIndex)
        && CursorLogical().paraIndex == q.paraIndex + 1 && CursorLogical().charIndex == 0
      ensures BufferPos(bufferIdxY, bufferIdxX) == LogicalToBuffer(text, CursorLogical().paraIndex, CursorLogical().charIndex)
      ensures yOffset == ScrollTo(old(yOffset), bufferIdxY, winSizeY)
    {
      var pos := Paragraph();
      SplitParagraph();
      CharIndexToYX(pos.paraIndex + 1, 0);
    }

    /** The text change of the split: the cursor paragraph is rewrapped from
        the text before the cursor and a paragraph wrapped from the text
        after it is inserted right after. */
    method SplitParagraph()
      requires Valid()
      modifies this`text
      ensures LayoutValid() && |text| == old(|text|) + 1
      ensures var q := old(CursorLogical());
        Texts(text) == SplitAt(old(Texts(text)), q.paraIndex, q.charIndex)
    {
      var pos := Paragraph();
      var p, ci := pos.paraIndex, pos.charIndex;
      var newline := Line()[ci..];
      var line := Line()[..ci];
      SplitKeepsLayout(text, winSizeX, p, ci);
      text := text[p := TextWrap(line, winSizeX)];
      text := text[..p + 1] + [TextWrap(newline, winSizeX)] + text[p + 1..];
      WellWrappedRows(text, winSizeX);
    }

    /** `backspace`: inside a paragraph delete the character before the
        cursor; at the start of a paragraph other than the first, merge it
        into the one before with the cursor at the join; at the start of the
        buffer change nothing. */
    method Backspace()
      requires Valid()
      modifies this`text, this`curPosY, this`curPosX, this`yOffset, this`bufferIdxY, this`bufferIdxX
      ensures Valid()
      ensures var q := old(CursorLogical()); var ps := old(Texts(text));
        q.charIndex > 0 ==>
          && Texts(text) == ps[q.paraIndex := DeleteRange(ps[q.paraIndex], q.charIndex - 1, q.charIndex)]
          && CursorLogical().paraIndex == q.paraIndex && CursorLogical().charIndex == q.charIndex - 1
      ensures var q := old(CursorLogical()); var ps := old(Texts(text));
        q.charIndex == 0 && q.paraIndex > 0 ==>
          && Texts(text) == MergeWithNext(ps, q.paraIndex - 1)
          && CursorLogical().paraIndex == q.paraIndex - 1 && CursorLogical().charIndex == |ps[q.paraIndex - 1]|
      ensures var q := old(CursorLogical());
        q.charIndex == 0 && q.paraIndex == 0 ==>
          && text == old(text)
          && CursorLogical().paraIndex == 0 && CursorLogical().charIndex == 0
      ensures BufferPos(bufferIdxY, bufferIdxX) == LogicalToBuffer(text, CursorLogical().paraIndex, CursorLogical().charIndex)
      ensures yOffset == ScrollTo(old(yOffset), bufferIdxY, winSizeY)
    {
      var pos := Paragraph();
      var p, ci := pos.paraIndex, pos.charIndex;
      if ci > 0 {
        RemoveRange(ci - 1, ci);
        CharIndexToYX(p, ci - 1);
      } else if p > 0 && ci == 0 {
        var oldLen := |Flatten(text[p - 1])|;
        JoinPrevious();
        CharIndexToYX(p - 1, oldLen);
      } else {
        CharIndexToYX(p, ci);
      }
    }

    /** The merge branch of `backspace`: the paragraph before the cursor's
        is rewrapped from its text followed by the cursor paragraph's text,
        then the cursor paragraph is deleted. */
    method JoinPrevious()
      requires Valid() && CursorLogical().paraIndex > 0
      modifies this`text
      ensures LayoutValid() && |text| == old(|text|) - 1
      ensures Texts(text) == MergeWithNext(old(Texts(text)), old(CursorLogical()).paraIndex - 1)
    {
      var pos := Paragraph();
      var p := pos.paraIndex;
      var line := Line();
      var oldLine := Flatten(text[p - 1]);
      ghost var ps := Texts(text);
      assert oldLine + line == ps[p - 1] + ps[p];
      MergeKeepsLayout(text, winSizeX, p - 1);
      text := text[p - 1 := TextWrap(oldLine + line, winSizeX)];
      text := text[..p] + text[p + 1..];
      WellWrappedRows(text, winSizeX);
    }

    /** `del_char`: inside a paragraph delete the character under the
        cursor; at the end of a paragraph other than the last, merge the next
        one into it; at the end of the buffer change nothing. The cursor
        keeps its logical position. */
    method DelChar()
      requires Valid()
      modifies this`text, this`curPosY, this`curPosX, this`yOffset, this`bufferIdxY, this`bufferIdxX
      ensures Valid()
      ensures var q := old(CursorLogical()); var ps := old(Texts(text));
        q.charIndex < |ps[q.paraIndex]| ==>
          Texts(text) == ps[q.paraIndex := DeleteRange(ps[q.paraIndex], q.charIndex, q.charIndex + 1)]
      ensures var q := old(CursorLogical()); var ps := old(Texts(text));
        q.charIndex == |ps[q.paraIndex]| && q.paraIndex < |ps| - 1 ==>
          Texts(text) == MergeWithNext(ps, q.paraIndex)
      ensures var q := old(CursorLogical()); var ps := old(Texts(text));
        q.charIndex == |ps[q.paraIndex]| && q.paraIndex == |ps| - 1 ==> text == old(text)
      ensures var q := old(CursorLogical());
        CursorLogical().paraIndex == q.paraIndex && CursorLogical().charIndex == q.charIndex
      ensures BufferPos(bufferIdxY, bufferIdxX) == LogicalToBuffer(text, CursorLogical().paraIndex, CursorLogical().charIndex)
      ensures yOffset == ScrollTo(old(yOffset), bufferIdxY, winSizeY)
    {
      var pos := Paragraph();
      var line := Line();
      var p, ci := pos.paraIndex, pos.charIndex;
      // `line and char_idx < len(line)`: the offset bound implies a non-empty line
      if ci < |line| {
        RemoveRange(ci, ci + 1);
      } else if ci == |line| && p < |text| - 1 {
        JoinNext();
      }
      CharIndexToYX(p, ci);
    }

    /** The `line` setter applied to the cursor paragraph's text with the
        characters from offset `i` to `j` removed. */
    method RemoveRange(i: nat, j: nat)
      requires Valid() && i <= j <= |Texts(text)[CursorLogical().paraIndex]|
      modifies this`text
      ensures LayoutValid() && |text| == old(|text|)
      ensures var p := old(CursorLogical()).paraIndex; var ps := old(Texts(text));
        Texts(text) == ps[p := DeleteRange(ps[p], i, j)]
    {
      var pos := Paragraph();
      var line := Line();
      DeleteKeepsLayout(text, winSizeX, pos.paraIndex, i, j);
      SetLine(line[..i] + line[j..]);
      WellWrappedRows(text, winSizeX);
    }

    /** The merge branch of `del_char`: the next paragraph's text is
        appended to the cursor's through the `line` setter, then the next
        paragraph is deleted. */
    method JoinNext()
      requires Valid() && CursorLogical().paraIndex + 1 < |text|
      modifies this`text
      ensures LayoutValid() && |text| == old(|text|) - 1
      ensures Texts(text) == MergeWithNext(old(Texts(text)), old(CursorLogical()).paraIndex)
    {
      var pos := Paragraph();
      var p := pos.paraIndex;
      var line := Line();
      MergeKeepsLayout(text, winSizeX, p);
      var nextLine := Flatten(text[p + 1]);
      SetLine(line + nextLine);
      text := text[..p + 1] + text[p + 2..];
      WellWrappedRows(text, winSizeX);
    }

    /** `del_to_eol` as written: delete from the cursor to the end of the
        display row. The cursor fields are left as they were, so they need
        not address a row of the rewrapped paragraph any more. */
    method DelToEol()
      requires Valid()
      modifies this`text
      ensures LayoutValid()
      ensures var q := old(CursorLogical()); var ps := old(Texts(text));
        var clip := |old(Flatten(text)[bufferIdxY])| - bufferIdxX;
        && q.charIndex + clip <= |ps[q.paraIndex]|
        && ps[q.paraIndex][q.charIndex..q.charIndex + clip] == old(Flatten(text)[bufferIdxY])[bufferIdxX..]
      ensures var q := old(CursorLogical()); var ps := old(Texts(text));
        var clip := |old(Flatten(text)[bufferIdxY])| - bufferIdxX;
        q.charIndex + clip <= |ps[q.paraIndex]| &&
        Texts(text) == ps[q.paraIndex := DeleteRange(ps[q.paraIndex], q.charIndex, q.charIndex + clip)]
    {
      var pos := Paragraph();
      var clipLen := |BufLine()| - bufferIdxX;
      RowInParagraph(text, bufferIdxY, bufferIdxX);
      RemoveRange(pos.charIndex, pos.charIndex + clipLen);
    }

    /** `del_to_eol` followed by the cursor re-sync every other edit does:
        the cursor stays at the same logical position. */
    method DelToEolResync()
      requires Valid()
      modifies this`text, this`curPosY, this`curPosX, this`yOffset, this`bufferIdxY, this`bufferIdxX
      ensures Valid()
      ensures var q := old(CursorLogical()); var ps := old(Texts(text));
        var clip := |old(Flatten(text)[bufferIdxY])| - old(bufferIdxX);
        && q.charIndex + clip <= |ps[q.paraIndex]|
        && Texts(text) == ps[q.paraIndex := DeleteRange(ps[q.paraIndex], q.charIndex, q.charIndex + clip)]
        && CursorLogical().paraIndex == q.paraIndex && CursorLogical().charIndex == q.charIndex
      ensures BufferPos(bufferIdxY, bufferIdxX) == LogicalToBuffer(text, CursorLogical().paraIndex, CursorLogical().charIndex)
      ensures yOffset == ScrollTo(old(yOffset), bufferIdxY, winSizeY)
    {
      var pos := Paragraph();
      DelToEol();
      CharIndexToYX(pos.paraIndex, pos.charIndex);
    }

    /** `del_to_bol`: delete from the start of the display row to the
        cursor; the cursor goes to where the row started. */
    method DelToBol()
      requires Valid()
      modifies this`text, this`curPosY, this`curPosX, this`yOffset, this`bufferIdxY, this`bufferIdxX
      ensures Valid()
      ensures var q := old(CursorLogical()); var ps := old(Texts(text)); var bx := old(bufferIdxX);
        && bx <= q.charIndex
        && ps[q.paraIndex][q.charIndex - bx..q.charIndex] == old(Flatten(text)[bufferIdxY])[..bx]
        && Texts(text) == ps[q.paraIndex := DeleteRange(ps[q.paraIndex], q.charIndex - bx, q.charIndex)]
        && CursorLogical().paraIndex == q.paraIndex && CursorLogical().charIndex == q.charIndex - bx
      ensures BufferPos(bufferIdxY, bufferIdxX) == LogicalToBuffer(text, CursorLogical().paraIndex, CursorLogical().charIndex)
      ensures yOffset == ScrollTo(old(yOffset), bufferIdxY, winSizeY)
    {
      var pos := Paragraph();
      var ci := pos.charIndex;
      var bx := bufferIdxX;
      RowInParagraph(text, bufferIdxY, bx);
      RemoveRange(ci - bx, ci);
      CharIndexToYX(pos.paraIndex, ci - bx);
    }

    /** `quit`: end the session keeping the edits. */
    method Quit() returns (loop: bool)
      ensures !loop
    {
      return false;
    }

    /** `quit_nosave`: end the session with the saved buffer restored. */
    method QuitNoSave() returns (loop: bool)
      modifies this`text
      ensures !loop && text == textOrig
    {
      text := textOrig;
      return false;
    }

    /** The `KeyboardInterrupt` path of `run`: restore the saved buffer and
        return its serialisation. */
    method Interrupted() returns (result: string)
      modifies this`text
      ensures text == textOrig && result == Serialize(textOrig)
    {
      text := textOrig;
      result := Serialize(text);
    }

    /** `resize` as far as the buffer goes: the window takes its new size,
        the cursor and offset return to the origin, and the buffer is laid
        out afresh from its serialisation, which also replaces the saved
        buffer. Every paragraph keeps its text, except that an empty last
        paragraph is lost. */
    method Resize(newWinSizeY: int, newWinSizeX: int)
      requires LayoutValid() && newWinSizeY >= 1 && newWinSizeX >= 2
      modifies this
      ensures Valid()
      ensures winSizeY == newWinSizeY && winSizeX == newWinSizeX
      ensures textOrig == InitText(old(Serialize(text)), newWinSizeX)
      ensures Texts(textOrig) == DropTrailingEmpty(old(Texts(text)))
      ensures text == Truncate(textOrig, maxTextRows)
      ensures bufferIdxY == 0 && bufferIdxX == 0 && yOffset == 0
    {
      var s := Serialize(text);
      RebuildKeepsTexts(text, winSizeX, newWinSizeX);
      Relayout(s, newWinSizeY, newWinSizeX);
    }

    /** What `resize` does after serialising: `win_init` takes the new size
        and zeroes the cursor and offset, `text_init` lays out the text. */
    method Relayout(s: string, newWinSizeY: int, newWinSizeX: int)
      requires newWinSizeY >= 1 && newWinSizeX >= 2
      modifies this
      ensures Valid()
      ensures winSizeY == newWinSizeY && winSizeX == newWinSizeX
      ensures textOrig == InitText(s, newWinSizeX)
      ensures text == Truncate(textOrig, maxTextRows)
      ensures bufferIdxY == 0 && bufferIdxX == 0 && yOffset == 0
    {
      WinInit(newWinSizeY, newWinSizeX);
      TextInit(s);
      WellWrappedRows(text, winSizeX);
    }

    /** `win_init`: take the window size and put the cursor and the offset
        back at the origin. */
    method WinInit(newWinSizeY: int, newWinSizeX: int)
      modifies this`winSizeY, this`winSizeX, this`curPosY, this`curPosX, this`yOffset, this`bufferIdxY, this`bufferIdxX
      ensures winSizeY == newWinSizeY && winSizeX == newWinSizeX
      ensures curPosY == 0 && curPosX == 0 && yOffset == 0 && bufferIdxY == 0 && bufferIdxX == 0
    {
      curPosY, curPosX, yOffset, bufferIdxY, bufferIdxX := 0, 0, 0, 0, 0;
      winSizeY, winSizeX := newWinSizeY, newWinSizeX;
    }
  }

  /** The row under a buffer position is the stretch of its paragraph's
      text that starts `col` characters before the logical offset: the part
      before the column ends at the offset, the rest starts there. */
  lemma RowInParagraph(text: Text, row: nat, col: nat)
    requires CursorIn(text, row, col)
    ensures var q := BufferToLogical(text, row, col); var r := Flatten(text)[row];
      col <= q.charIndex && q.charIndex + (|r| - col) <= |Texts(text)[q.paraIndex]|
    ensures var q := BufferToLogical(text, row, col); var r := Flatten(text)[row];
      Texts(text)[q.paraIndex][q.charIndex - col..q.charIndex] == r[..col]
    ensures var q := BufferToLogical(text, row, col); var r := Flatten(text)[row];
      Texts(text)[q.paraIndex][q.charIndex..q.charIndex + (|r| - col)] == r[col..]
  {
    var q := BufferToLogical(text, row, col);
    var lines := text[q.paraIndex];
    var r := lines[q.lineIndex];
    var s := Flatten(lines);
    var b := LengthBefore(lines, q.lineIndex);
    assert q.charIndex == b + col && Flatten(text)[row] == r;
    assert Texts(text)[q.paraIndex] == s;
    FlattenSlice(lines, q.lineIndex);
    assert s[b..b + |r|] == r;
    assert s[b..b + col] == r[..col];
    assert s[b + col..b + |r|] == r[col..];
  }

  /** Under the cap as evidently intended, a buffer with fewer rows than a
      non-zero cap has room for one more paragraph, since every paragraph
      takes at least one row. */
  lemma CapGuardBound(text: Text, winSizeX: int, maxTextRows: nat)
    requires WellWrapped(text, winSizeX) && 0 < maxTextRows && |Flattened(text)| < maxTextRows
    ensures |text| + 1 <= maxTextRows
  {
    WellWrappedRows(text, winSizeX);
  }

  /** The character walk of `_char_index_to_yx`: count characters line by
      line until the offset is reached; past the end of the paragraph the
      walk stops at the end of its last line. */
  method WalkTo(lines: seq<string>, charIndex: nat) returns (lineIdx: nat, xPos: nat)
    requires |lines| >= 1
    ensures (lineIdx, xPos) == Locate(lines, charIndex)
  {
    var cIndex := 0;
    lineIdx, xPos := 0, 0;
    var done := false;
    var k := 0;
    while k < |lines| && !done
      invariant 0 <= k <= |lines|
      invariant 0 <= lineIdx < |lines|
      invariant !done ==> cIndex == LengthBefore(lines, k) <= charIndex
      invariant !done && k > 0 ==> lineIdx == k - 1 && xPos == |lines[k - 1]|
      invariant done ==> xPos < |lines[lineIdx]| && cIndex == charIndex
      invariant done ==> cIndex == LengthBefore(lines, lineIdx) + xPos
      decreases |lines| - k, if done then 0 else 1
    {
      lineIdx := k;
      xPos := 0;
      while xPos < |lines[k]| && !done
        invariant 0 <= xPos <= |lines[k]|
        invariant !done ==> cIndex == LengthBefore(lines, k) + xPos <= charIndex
        invariant done ==> xPos < |lines[k]| && cIndex == charIndex
        invariant done ==> cIndex == LengthBefore(lines, k) + xPos
        decreases |lines[k]| - xPos, if done then 0 else 1
      {
        if cIndex == charIndex {
          done := true;
        } else {
          cIndex := cIndex + 1;
          xPos := xPos + 1;
        }
      }
      if !done {
        LengthBeforeStep(lines, k);
        k := k + 1;
      }
    }
    if done {
      LocateAt(lines, lineIdx, charIndex);
    } else {
      assert lines[..|lines|] == lines;
      LocatePastEnd(lines, charIndex);
    }
  }
}

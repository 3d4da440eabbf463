/** The two coordinate maps of the editor. A logical position is a paragraph
    and a character offset in it (`Editor.paragraph`'s `para_index` and
    `char_index`); a buffer position is a row of the flattened display rows
    and a column in it (`buffer_idx_y`, `buffer_idx_x`). `LogicalToBuffer` is
    the walk of `_char_index_to_yx`, `BufferToLogical` the walk of
    `paragraph`. */
module Coordinates {
  import opened Lines
  import opened Buffer

  /** `Editor.paragraph`'s result `(para_index, line_index, char_index)`. */
  datatype ParaPos = ParaPos(paraIndex: nat, lineIndex: nat, charIndex: nat)

  /** `(buffer_idx_y, buffer_idx_x)`. */
  datatype BufferPos = BufferPos(row: nat, col: nat)

  /** A buffer position that addresses an existing row, with the column at
      most at the end of that row. */
  predicate CursorIn(text: Text, row: int, col: int)
  {
    0 <= row < |Flatten(text)| && 0 <= col <= |Flatten(text)[row]|
  }

  /** Where the character walk of `_char_index_to_yx` stops in a paragraph's
      lines for offset `c`: the line holding the `c`-th character and its
      column there; an offset at or past the end of the paragraph gives the
      end of the last line. */
  function Locate(lines: seq<string>, c: nat): (r: (nat, nat))
    requires |lines| >= 1
    ensures r.0 < |lines| && r.1 <= |lines[r.0]|
  {
    if c < |lines[0]| then (0, c)
    else if |lines| == 1 then (0, |lines[0]|)
    else
      var r := Locate(lines[1..], c - |lines[0]|);
      (r.0 + 1, r.1)
  }

  /** Logical to buffer position: the rows of all earlier paragraphs plus the
      line found by `Locate`. */
  function LogicalToBuffer(text: Text, p: nat, c: nat): (r: BufferPos)
    requires p < |text| && text[p] != []
    ensures LengthBefore(text, p) <= r.row < LengthBefore(text, p) + |text[p]|
    ensures r.col <= |text[p][r.row - LengthBefore(text, p)]|
  {
    var r := Locate(text[p], c);
    BufferPos(LengthBefore(text, p) + r.0, r.1)
  }

  /** The paragraph and line that hold flattened row `row`. */
  function FindRow(text: Text, row: nat): (r: (nat, nat))
    requires row < |Flatten(text)|
    ensures r.0 < |text| && r.1 < |text[r.0]|
  {
    assert text != [];
    if row < |text[0]| then (0, row)
    else
      var r := FindRow(text[1..], row - |text[0]|);
      (r.0 + 1, r.1)
  }

  /** Buffer to logical position: the paragraph and line holding the row,
      and the characters of the paragraph's earlier lines plus the column. */
  function BufferToLogical(text: Text, row: nat, col: nat): (r: ParaPos)
    requires row < |Flatten(text)|
    ensures r.paraIndex < |text| && r.lineIndex < |text[r.paraIndex]|
    ensures LengthBefore(text, r.paraIndex) + r.lineIndex == row
    ensures Flatten(text)[row] == text[r.paraIndex][r.lineIndex]
    ensures r.charIndex == LengthBefore(text[r.paraIndex], r.lineIndex) + col
    ensures col <= |Flatten(text)[row]| ==> r.charIndex <= |Flatten(text[r.paraIndex])|
  {
    var pl := FindRow(text, row);
    FindRowSpec(text, row);
    FlattenSlice(text, pl.0);
    FlattenSlice(text[pl.0], pl.1);
    ParaPos(pl.0, pl.1, LengthBefore(text[pl.0], pl.1) + col)
  }

  /** `FindRow` finds the paragraph and line whose row number is `row`. */
  lemma {:induction false} FindRowSpec(text: Text, row: nat)
    requires row < |Flatten(text)|
    ensures LengthBefore(text, FindRow(text, row).0) + FindRow(text, row).1 == row
  {
    assert text != [];
    if row >= |text[0]| {
      var r := FindRow(text[1..], row - |text[0]|);
      FindRowSpec(text[1..], row - |text[0]|);
      LengthBeforeCons(text, r.0);
    }
  }

  /** Conversely, the row of line `l` of paragraph `p` is found as that line. */
  lemma {:induction false} FindRowAt(text: Text, p: nat, l: nat)
    requires p < |text| && l < |text[p]|
    ensures LengthBefore(text, p) + l < |Flatten(text)|
    ensures FindRow(text, LengthBefore(text, p) + l) == (p, l)
  {
    FlattenSlice(text, p);
    if p > 0 {
      LengthBeforeCons(text, p - 1);
      FindRowAt(text[1..], p - 1, l);
    }
  }

  /** An offset inside line `k` is located in line `k`. */
  lemma {:induction false} LocateAt(lines: seq<string>, k: nat, c: nat)
    requires k < |lines|
    requires LengthBefore(lines, k) <= c < LengthBefore(lines, k) + |lines[k]|
    ensures Locate(lines, c) == (k, c - LengthBefore(lines, k))
  {
    if k > 0 {
      LengthBeforeCons(lines, k - 1);
      LocateAt(lines[1..], k - 1, c - |lines[0]|);
    }
  }

  /** An offset at or past the end of the paragraph gives the end of its last
      line. */
  lemma {:induction false} LocatePastEnd(lines: seq<string>, c: nat)
    requires |lines| >= 1 && c >= |Flatten(lines)|
    ensures Locate(lines, c) == (|lines| - 1, |lines[|lines| - 1]|)
  {
    if |lines| > 1 {
      LocatePastEnd(lines[1..], c - |lines[0]|);
    }
  }

  /** The located line and column add back up to the offset. */
  lemma {:induction false} LocateInverse(lines: seq<string>, c: nat)
    requires |lines| >= 1 && c <= |Flatten(lines)|
    ensures LengthBefore(lines, Locate(lines, c).0) + Locate(lines, c).1 == c
  {
    var r := Locate(lines, c);
    if c < |lines[0]| {
      assert lines[..0] == [];
    } else if |lines| == 1 {
      assert lines[..1] == lines;
      assert Flatten(lines) == lines[0] + Flatten(lines[1..]);
    } else {
      LocateInverse(lines[1..], c - |lines[0]|);
      LengthBeforeCons(lines, r.0 - 1);
    }
  }

  /** Every logical position, even an offset past the end of the paragraph,
      lands on an existing row within its length. */
  lemma LogicalToBufferIn(text: Text, p: nat, c: nat)
    requires p < |text| && text[p] != []
    ensures CursorIn(text, LogicalToBuffer(text, p, c).row, LogicalToBuffer(text, p, c).col)
  {
    var lc := Locate(text[p], c);
    FindRowAt(text, p, lc.0);
    FlattenSlice(text, p);
  }

  /** A laid-out buffer has no empty paragraph, at least one row per
      paragraph, and `Flattened` is its plain row list. */
  lemma WellWrappedRows(text: Text, winSizeX: int)
    ensures WellWrapped(text, winSizeX) ==>
      && NonEmptyParagraphs(text)
      && Flattened(text) == Flatten(text)
      && |Flatten(text)| >= |text| >= 1
  {
    if WellWrapped(text, winSizeX) {
      forall p | 0 <= p < |text|
        ensures text[p] != []
      {
        assert WrappedAt(text, p, winSizeX);
      }
    }
  }

  /** No row of a laid-out buffer is wider than `winSizeX - 1`. */
  lemma RowWidth(text: Text, winSizeX: int, row: nat)
    ensures WellWrapped(text, winSizeX) && row < |Flatten(text)| ==> |Flatten(text)[row]| <= winSizeX - 1
  {
    if WellWrapped(text, winSizeX) && row < |Flatten(text)| {
      var q := BufferToLogical(text, row, 0);
      assert WrappedAt(text, q.paraIndex, winSizeX);
    }
  }

  /** Coordinate inverse law: mapping a logical position to the buffer and
      back gives the same paragraph and offset, and the buffer position is on
      an existing row within its length. */
  lemma CoordinateInverse(text: Text, p: nat, c: nat)
    requires NonEmptyParagraphs(text)
    requires p < |text| && c <= |Flatten(text[p])|
    ensures CursorIn(text, LogicalToBuffer(text, p, c).row, LogicalToBuffer(text, p, c).col)
    ensures BufferToLogical(text, LogicalToBuffer(text, p, c).row, LogicalToBuffer(text, p, c).col).paraIndex == p
    ensures BufferToLogical(text, LogicalToBuffer(text, p, c).row, LogicalToBuffer(text, p, c).col).charIndex == c
  {
    var lc := Locate(text[p], c);
    var b := LogicalToBuffer(text, p, c);
    LogicalToBufferIn(text, p, c);
    FindRowAt(text, p, lc.0);
    assert FindRow(text, b.row) == (p, lc.0);
    LocateInverse(text[p], c);
  }

  /** The other direction: a buffer position mapped to its logical position
      and back is the same position, unless it is the end of a row that is
      not the last of its paragraph; that end is the same character as the
      start of the next row, and maps back there. */
  lemma BufferInverse(text: Text, row: nat, col: nat)
    requires NonEmptyParagraphs(text)
    requires CursorIn(text, row, col)
    ensures var q := BufferToLogical(text, row, col);
      col < |Flatten(text)[row]| || q.lineIndex == |text[q.paraIndex]| - 1
      ==> LogicalToBuffer(text, q.paraIndex, q.charIndex) == BufferPos(row, col)
    ensures var q := BufferToLogical(text, row, col);
      col == |Flatten(text)[row]| && q.lineIndex < |text[q.paraIndex]| - 1
      && text[q.paraIndex][q.lineIndex + 1] != []
      ==> LogicalToBuffer(text, q.paraIndex, q.charIndex) == BufferPos(row + 1, 0)
  {
    var q := BufferToLogical(text, row, col);
    var lines := text[q.paraIndex];
    var l := q.lineIndex;
    if col < |lines[l]| {
      LocateAt(lines, l, q.charIndex);
    } else if l == |lines| - 1 {
      LengthBeforeStep(lines, l);
      assert lines[..l + 1] == lines;
      LocatePastEnd(lines, q.charIndex);
    } else if lines[l + 1] != [] {
      LengthBeforeStep(lines, l);
      LocateAt(lines, l + 1, q.charIndex);
    }
  }
}

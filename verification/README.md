# py_curses_editor: the text buffer and cursor engine

This project models the buffer and coordinate engine of `Editor` in
`editor/editor.py`, a small curses text box. The buffer `text` is a list of
paragraphs, and each paragraph is the non-empty list of display rows that
`textwrap` makes of its text at the window width less one column. The
cursor lives in three coordinate systems at once:

- a logical position: paragraph and character offset (`paragraph`);
- a buffer position: row of the flattened rows and column
  (`buffer_idx_y/x`);
- a window position: `cur_pos_y/x`, which is the buffer position less the
  scroll offset `y_offset`.

Every key action edits the buffer and re-derives the other two systems.

The model has these modules:

- `Lines` (lines.dfy) holds flattening, LF joining and prefix sums of
  lengths.
- `Wrapper` (wrapper.dfy) holds `_text_wrap` and a stand-in for
  `textwrap.wrap`.
- `Buffer` (buffer.dfy) holds the layout invariant, `text_init`,
  `flattened_text`, serialisation and the `splitlines` round trips.
- `Coordinates` (coordinates.dfy) holds the two coordinate maps (the
  walks of `_char_index_to_yx` and `paragraph`) and their inverse laws.
- `Viewport` (viewport.dfy) holds the scroll offset.
- `Edits` (edits.dfy) holds the text effect of every edit key and the
  proof that each keeps the buffer laid out.
- `Session` (editor.dfy) holds the class `Editor`. Its fields are the
  source's fields, and its methods update them in place under the class
  invariant `Valid()`. `Valid()` says:
  - the buffer and the saved buffer are laid out;
  - the cursor is on an existing row, within it, on a row the window
    shows;
  - the window position agrees with the buffer position.
- `Findings` (findings.dfy) holds two defects of the code as written. Each
  is shown on every paragraph of a given length that is clean (no TAB,
  LF, VT, FF or CR) and has no space and no hyphen, such as "abcdef" and
  "abcdefghij".

Every editing and cursor-moving `Editor` method that the key table reaches
requires `Valid()` and keeps it. So none of those keys can leave the buffer
empty, leave a paragraph without rows, or put the cursor outside the text or
the window. The exception is `del_to_eol`, which is the first finding.

The exit keys and `resize` are not covered by that statement:

- `quit` and `quit_nosave` end the session. `QuitNoSave` promises only that
  the buffer is the saved buffer, because the cursor fields can then point
  past it. For example, on an empty text press Enter and then Esc: the
  buffer becomes `[[""]]` while the cursor row stays 1.
- `Resize` requires only the layout half of `Valid()`, and it establishes
  all of `Valid()`.

Where the documented behaviour of the editor and its code differ, the model
follows the code:

- `textwrap` breaks a word longer than the width (`break_long_words`
  defaults to true). No row is ever wider than the width.
- `resize` puts the cursor back at the origin. It does not keep the logical
  position.
- `resize` also replaces the saved buffer, so cancelling after a resize
  restores the resized text, not the construction text.
- The paragraph cap is checked against the count of display rows.
- There is no paste command and no read-only mode.

## Model

| member | source | states |
|---|---|---|
| Wrapper.Normalized | editor/editor.py:303-304 | textwrap's character rewrites: the result holds no tab, LF, VT, FF or CR, is never shorter than the input, is empty exactly when the input is, and equals the input when the input has none of those characters |
| Wrapper.Wrap | editor/editor.py:303-304 | `textwrap.wrap(s, width, drop_whitespace=False)`: the lines concatenate to the rewritten text, each is 1 to `width` characters long, and there is no line exactly when `s` is empty |
| Wrapper.TextWrap | editor/editor.py:293-304 | `_text_wrap`: at least one line, none longer than `win_size_x - 1`, concatenation equal to the rewritten text (to the text itself when it is clean), `[""]` for the empty text |
| Wrapper.RewrapStable | editor/editor.py:373-381 | wrapping the concatenation of a wrapped paragraph gives the same lines, so the `line` setter keeps a laid-out paragraph as it is |
| Wrapper.ExpandTabsNoTab | editor/editor.py:303-304 | tab expansion leaves text without a tab unchanged |
| Wrapper.ExpandTabs | editor/editor.py:303-304 | `str.expandtabs(8)`, textwrap's first rewrite: no tab is left, the text is empty exactly when the input is, it never gets shorter, and every character is a space or one of the input's |
| Wrapper.ReplaceWhitespace | editor/editor.py:303-304 | textwrap's `replace_whitespace`: the same length, and no TAB, LF, VT, FF or CR is left |
| Wrapper.Chunk | editor/editor.py:303-304 | the stand-in for textwrap's break placement: the pieces concatenate to the text, each is 1 to `width` characters long, and there is no piece exactly when the text is empty |
| Lines.Join | editor/editor.py:97-100 | `"\n".join(...)` of `__call__`, `resize` and `run`: for at least one piece, the length is the pieces' total plus one separator between each two |
| Lines.JoinSeparators | editor/editor.py:97-100 | joining at least one piece adds the separator exactly once between each two pieces, on top of its occurrences in the pieces |
| Lines.FlattenEmpty | editor/editor.py:383-388 | the rows of `[j for i in text for j in i]` are empty exactly when every paragraph is, which is the case `flattened_text`'s `or [""]` covers |
| Lines.FlattenSlice | editor/editor.py:437-438 | the `sum(map(len, ...))` of the earlier lines is where a line starts in the joined paragraph, and the line is the slice of the join starting there |
| Buffer.Printable | editor/editor.py:496 | `c in string.printable`: only ASCII characters pass, and every line boundary that passes is one that textwrap turns into a space |
| Buffer.Layout | editor/editor.py:205-206 | the comprehension over the paragraph texts: one paragraph per text, each with at least one row and holding its text as textwrap rewrites it |
| Buffer.InitText | editor/editor.py:205-207 | the list `text_init` builds and keeps as `text_orig`: one paragraph per `splitlines` piece (one for the empty text), each holding that piece as textwrap rewrites it |
| Buffer.Truncate | editor/editor.py:208-210 | `text[:max_text_rows]` when the cap is non-zero: a prefix of the buffer, the whole buffer for a zero cap, otherwise at most the cap and shorter than the buffer only when exactly the cap |
| Buffer.Serialize | editor/editor.py:97-100 | `"\n".join(["".join(i) for i in text])`: when no paragraph text holds a line boundary, `splitlines` of the result gives the paragraph texts back, less an empty last one |
| Coordinates.LogicalToBuffer | editor/editor.py:397-409 | the position `_char_index_to_yx` computes: a row among paragraph `p`'s own rows, at a column within that row |
| Buffer.Flattened | editor/editor.py:383-388 | `flattened_text` has at least one row, and when every paragraph has a row it is exactly the rows in order, at least one per paragraph |
| Buffer.SplitLines | editor/editor.py:205-206 | `str.splitlines`: no piece holds a line boundary, and there is no piece exactly when the text is empty |
| Buffer.ParagraphsOf | editor/editor.py:205-206 | `text.splitlines() or [""]`: at least one paragraph, none holding a line boundary, `[""]` for the empty text |
| Buffer.InitTextShape | editor/editor.py:196-210 | after `text_init` the buffer is laid out, has one paragraph per input line and is `[[""]]` for empty input; the truncated buffer is a laid-out prefix of the saved one with at most `max_text_rows` paragraphs when that is non-zero |
| Buffer.InitTextTexts | editor/editor.py:205-206 | for input without tabs, the paragraph texts of the new buffer are exactly the input's lines |
| Buffer.JoinSplitLines | editor/editor.py:97-100 | LF-joining the `splitlines` pieces of a text gives it back when LF is its only boundary and it does not end with LF |
| Buffer.SplitLinesJoin | editor/editor.py:630-634 | `splitlines` of the LF-join of boundary-free paragraphs gives the paragraphs back, less an empty last one |
| Buffer.SerializeInitText | editor/editor.py:97-100 | serialising right after `text_init` returns the initial text when it has no tab, LF is its only boundary, and it does not end with LF |
| Buffer.ParagraphsOfJoin | editor/editor.py:630-634 | the paragraphs of a serialised buffer are its paragraph texts, less an empty last one |
| Buffer.RebuildKeepsTexts | editor/editor.py:630-634 | serialising and rebuilding a laid-out buffer at any width keeps every paragraph text, less an empty last one |
| Buffer.WrappedParagraph | editor/editor.py:197-202 | a paragraph of a laid-out buffer is non-empty, is the wrap of its own text, and its text is clean and boundary-free |
| Buffer.WellWrappedIsLayout | editor/editor.py:197-202 | a laid-out buffer is determined by its paragraph texts |
| Buffer.WellWrappedUpdate | editor/editor.py:373-381 | the `line` setter's rewrap of one paragraph keeps the buffer laid out and changes only that paragraph's text, to the rewritten new text |
| Buffer.WellWrappedInsert | editor/editor.py:519-520 | inserting a wrapped paragraph keeps the buffer laid out and inserts its text at the same index |
| Buffer.WellWrappedDelete | editor/editor.py:536-537 | deleting one of at least two paragraphs keeps the buffer laid out and deletes its text |
| Buffer.NormalizedKeepsNoLineBreak | editor/editor.py:303-304 | the rewrites never produce a line boundary |
| Buffer.SingleParagraph | editor/editor.py:205-206 | a non-empty text without line boundaries is a single paragraph |
| Buffer.SplitLinesCons | editor/editor.py:205-206 | a boundary-free piece followed by LF is split off as the first piece |
| Buffer.SplitLinesChar | editor/editor.py:205-206 | every character of a `splitlines` piece occurs in the text |
| Coordinates.Locate | editor/editor.py:397-408 | the character walk stops on an existing line at a column within it |
| Coordinates.BufferToLogical | editor/editor.py:417-440 | `paragraph`: the paragraph and line holding the row (earlier rows plus the line index give the row back), and an offset equal to the earlier lines' characters plus the column, within the paragraph when the column is within the row |
| Coordinates.FindRowSpec | editor/editor.py:426-436 | the row walk lands on the paragraph and line whose row number is the cursor row |
| Coordinates.FindRowAt | editor/editor.py:426-436 | the row of line `l` of paragraph `p` exists and the walk finds `(p, l)` for it |
| Coordinates.LocateAt | editor/editor.py:397-408 | an offset inside line `k` is found on line `k` at the offset less the earlier lines' length |
| Coordinates.LocatePastEnd | editor/editor.py:397-408 | an offset at or past the paragraph's end is found at the end of its last line |
| Coordinates.LocateInverse | editor/editor.py:397-410 | the found line and column add back up to the offset |
| Coordinates.LogicalToBufferIn | editor/editor.py:407-410 | every logical position, even past the paragraph's end, maps to an existing row at a column within it |
| Coordinates.CoordinateInverse | editor/editor.py:390-440 | for every paragraph `p` and offset `c` up to its length, `_char_index_to_yx(p, c)` followed by `paragraph` gives back `p` and `c` |
| Coordinates.BufferInverse | editor/editor.py:390-440 | `paragraph` followed by `_char_index_to_yx` gives back the buffer position, except at the end of a row that is not its paragraph's last, which maps to the start of the next row |
| Coordinates.WellWrappedRows | editor/editor.py:383-388 | a laid-out buffer has no empty paragraph, `flattened_text` is its row list, and there are at least as many rows as paragraphs |
| Coordinates.RowWidth | editor/editor.py:449-461 | no row of a laid-out buffer is wider than `win_size_x - 1` |
| Viewport.ScrollTo | editor/editor.py:411-414 | the final offset shows the row, is unchanged when the row was shown, is non-negative for non-negative inputs, and is the closest such offset to the old one |
| Viewport.StepOffset | editor/editor.py:411-414 | the two stepping loops end at exactly `ScrollTo` |
| Edits.InsertAt | editor/editor.py:498-500 | the character is at the offset, with the text before and after it unchanged |
| Edits.DeleteRange | editor/editor.py:561-579 | the characters before `i` and from `j` on are kept, in order, and `j - i` characters are gone |
| Edits.SplitAt | editor/editor.py:515-520 | one more paragraph; the two halves concatenate to the old text and the first has `c` characters; the others are unchanged |
| Edits.MergeWithNext | editor/editor.py:532-537 | one paragraph fewer; the merged one is the concatenation; the others are unchanged |
| Edits.DeleteUndoesInsert | editor/editor.py:491-544 | `del_char` at the offset of a character just inserted gives the text back |
| Edits.MergeUndoesSplit | editor/editor.py:505-559 | merging the two halves of a split gives the paragraphs back |
| Edits.SplitUndoesMerge | editor/editor.py:505-559 | splitting a merged paragraph where its first part ended gives the paragraphs back |
| Edits.InsertKeepsSafe | editor/editor.py:491-503 | a printable character inserted into a paragraph text leaves no boundary that survives wrapping, and keeps it clean unless the character is itself rewritten |
| Edits.DeleteKeepsClean | editor/editor.py:523-579 | deleting characters keeps a paragraph text clean and boundary-free |
| Edits.ConcatKeepsClean | editor/editor.py:532-557 | the concatenation of two clean, boundary-free texts is clean and boundary-free |
| Edits.DeleteKeepsLayout | editor/editor.py:523-579 | rewrapping a paragraph from its text less a range keeps the buffer laid out and deletes exactly that range from the paragraph texts |
| Edits.MergeKeepsLayout | editor/editor.py:532-557 | rewrapping a paragraph from its text followed by the next one's, then deleting the next one, keeps the buffer laid out and merges the texts |
| Edits.SplitKeepsLayout | editor/editor.py:515-520 | rewrapping a paragraph from its text before the offset and inserting the wrapped rest after it keeps the buffer laid out and splits the texts |
| Session.Editor.constructor | editor/editor.py:74-96 | a new editor is `Valid`, has the given sizes, the saved buffer is the laid-out text, the buffer its truncation, and cursor and offset are at the origin |
| Session.Editor.TextInit | editor/editor.py:196-210 | the saved buffer is the laid-out text before truncation, the buffer its truncation, and both are laid out |
| Session.Editor.Paragraph | editor/editor.py:417-440 | the counting walk returns exactly `BufferToLogical` of the cursor |
| Session.Editor.Line | editor/editor.py:366-371 | the cursor paragraph's text holds the cursor offset, and the cursor row is the slice of it that starts at the offset less the column |
| Session.Editor.SetLine | editor/editor.py:373-381 | only the cursor paragraph changes, to the wrap of the new value |
| Session.Editor.BufLine | editor/editor.py:449-461 | under the layout invariant `flattened_text` is the row list and the cursor row is at most `win_size_x - 1` wide |
| Session.Editor.BufferRows | editor/editor.py:463-469 | at least the window height and at least the row count, and equal to one of them |
| Session.Editor.SetBufferIdxY | editor/editor.py:471-478 | the buffer row is the window row plus the offset, or the row count when that is past the last row |
| Session.Editor.SetBufferIdxX | editor/editor.py:480-489 | the column is clamped to the row length and copied to the buffer column |
| Session.Editor.CharIndexToYX | editor/editor.py:390-415 | the cursor lands on `LogicalToBuffer(p, c)`, the offset becomes `ScrollTo` of the old one, `Valid` holds, and for `c` within the paragraph `paragraph` reads `(p, c)` back, so the cursor sits at `LogicalToBuffer` of its own logical position |
| Session.Editor.Up | editor/editor.py:325-331 | one row up, not above row 0; column clamped; offset is `ScrollTo`; `Valid` kept |
| Session.Editor.Down | editor/editor.py:333-343 | one row down except on the last row; column clamped; offset is `ScrollTo`; `Valid` kept |
| Session.Editor.End | editor/editor.py:345-347 | the column goes to the row's end; `Valid` kept |
| Session.Editor.Home | editor/editor.py:349-351 | the column goes to 0; `Valid` kept |
| Session.Editor.Left | editor/editor.py:306-312 | one column left, or to the end of the row above from column 0, or nothing at the buffer's start; offset is `ScrollTo`; `Valid` kept |
| Session.Editor.Right | editor/editor.py:314-323 | one column right, or to the start of the next row from a row's end, or nothing at the end of the last row; offset is `ScrollTo`; `Valid` kept |
| Session.Editor.PageUp | editor/editor.py:353-356 | the offset moves up a window height, not below 0; the window row is kept; column clamped; `Valid` kept |
| Session.Editor.PageDown | editor/editor.py:358-364 | the offset becomes `max(0, min(buffer_rows - win_size_y - 1, offset + win_size_y))`; the window row is kept; column clamped; `Valid` kept |
| Session.Editor.InsertChar | editor/editor.py:491-503 | a non-printable character changes nothing; otherwise only the cursor paragraph's text changes, to the rewritten text with the character inserted at the cursor offset (exactly inserted unless it is TAB, LF, VT, FF or CR), and the cursor moves to the next offset; the cursor is then at `LogicalToBuffer` of its logical position (the start of the next row when that position ends a full row) and the offset is `ScrollTo` of the old one |
| Session.Editor.InsertLineOrQuit | editor/editor.py:505-521 | as written: ends the session exactly when the cap is 1; changes nothing, the offset included, when the row count equals the cap; otherwise splits the cursor paragraph at the cursor offset and puts the cursor at `(p + 1, 0)`; the cursor is then at `LogicalToBuffer` of its logical position (the start of the next row when that position ends a full row) and the offset is `ScrollTo` of the old one |
| Session.Editor.InsertLineOrQuitCapped | editor/editor.py:505-521 | as evidently intended: a split only happens below a non-zero cap, so a buffer within the cap stays within it; otherwise as above |
| Session.Editor.Split | editor/editor.py:515-521 | the paragraph texts become `SplitAt` at the cursor and the cursor goes to `(p + 1, 0)`; the cursor is then at `LogicalToBuffer` of its logical position (the start of the next row when that position ends a full row) and the offset is `ScrollTo` of the old one |
| Session.Editor.SplitParagraph | editor/editor.py:516-520 | the text change of the split: the paragraph texts become `SplitAt` at the cursor, one more paragraph, and the buffer stays laid out |
| Session.Editor.Backspace | editor/editor.py:523-542 | inside a paragraph deletes the character before the cursor and moves back one; at a paragraph start merges into the previous paragraph with the cursor at the join; at the buffer start changes no text; the cursor is then at `LogicalToBuffer` of its logical position (the start of the next row when that position ends a full row) and the offset is `ScrollTo` of the old one |
| Session.Editor.JoinPrevious | editor/editor.py:532-537 | the merge branch of `backspace`: the paragraph texts become `MergeWithNext` at the previous paragraph, and the buffer stays laid out |
| Session.Editor.DelChar | editor/editor.py:544-559 | inside a paragraph deletes the character at the cursor; at a paragraph end merges the next paragraph in; at the buffer end changes nothing; the logical cursor stays; the cursor is then at `LogicalToBuffer` of its logical position (the start of the next row when that position ends a full row) and the offset is `ScrollTo` of the old one |
| Session.Editor.RemoveRange | editor/editor.py:373-381 | the `line` setter with characters `i` to `j` of the cursor paragraph removed: only that text changes, by exactly that deletion |
| Session.Editor.JoinNext | editor/editor.py:551-555 | the merge branch of `del_char`: the paragraph texts become `MergeWithNext` at the cursor paragraph, and the buffer stays laid out |
| Session.Editor.DelToEol | editor/editor.py:561-569 | as written: the cursor row's characters from the column on are exactly the deleted stretch of the paragraph; the buffer stays laid out; the cursor fields are not updated |
| Session.Editor.DelToEolResync | editor/editor.py:561-569 | `del_to_eol` followed by a re-sync: the same deletion, `Valid` kept and the logical cursor unchanged; the cursor is then at `LogicalToBuffer` of its logical position (the start of the next row when that position ends a full row) and the offset is `ScrollTo` of the old one |
| Session.Editor.DelToBol | editor/editor.py:571-579 | the cursor row's characters before the column are exactly the deleted stretch; the cursor goes to where the row started; `Valid` kept; the cursor is then at `LogicalToBuffer` of its logical position (the start of the next row when that position ends a full row) and the offset is `ScrollTo` of the old one |
| Session.Editor.Quit | editor/editor.py:581-582 | ends the loop |
| Session.Editor.QuitNoSave | editor/editor.py:584-586 | ends the loop with the buffer equal to the saved buffer |
| Session.Editor.Interrupted | editor/editor.py:647-649 | the buffer is restored from the saved one and its serialisation is returned |
| Session.Editor.Resize | editor/editor.py:630-634 | the buffer is rebuilt from its serialisation at the new width: every paragraph text is kept (less an empty last one), the saved buffer is replaced, the cursor is at the origin, `Valid` holds |
| Session.Editor.Relayout | editor/editor.py:632-634 | after the new size is taken, `text_init` lays out the given text as saved buffer and its truncation as buffer, with the cursor and offset at the origin and `Valid` holding |
| Session.Editor.WinInit | editor/editor.py:110-117 | the part of `win_init` that the buffer depends on: the cursor, the buffer position and the offset are back at the origin, and the window takes the given size |
| Session.RowInParagraph | editor/editor.py:561-579 | the row under a buffer position is the stretch of its paragraph's text that starts the column before the logical offset |
| Session.CapGuardBound | editor/editor.py:505-521 | below a non-zero row cap there is room for one more paragraph |
| Session.WalkTo | editor/editor.py:397-408 | the nested counting loops return exactly `Locate` |
| Findings.WrapShort | editor/editor.py:293-304 | a clean text of 1 to 4 characters is one row at width 5 |
| Findings.WrapMedium | editor/editor.py:293-304 | a clean text of 5 to 8 characters with no space or hyphen is a full row of 4 and the rest at width 5, as textwrap itself cuts it |
| Findings.WrapTen | editor/editor.py:293-304 | a clean text of 10 characters with no space or hyphen is three rows at width 5, as textwrap itself cuts it |
| Findings.DelToEolLeavesCursorOutside | editor/editor.py:561-569 | after `del_to_eol` at the start of the second row of a clean 6-character paragraph with no space or hyphen at width 5, the cursor row no longer exists |
| Findings.InsertLineOrQuitPassesCap | editor/editor.py:505-521 | with a cap of 2 and a clean 10-character line with no space or hyphen at width 5, the as-written cap check passes for Enter at `(0, 0)` and again for Enter at `(1, 0)`, where the first left the cursor, and the buffer ends with 3 paragraphs |

## Left out

- All curses I/O and drawing are left out: the curses part of `win_init` (title, `getmaxyx()`), `_win_scr_init`, `box_init`, `display`, `help` and `close`. They are terminal side effects. The window sizes are parameters of the constructor and of `Resize`, so the `resize_flag` size adjustment and the clamping of sizes and locations against `getmaxyx()` are not modelled.
- `_title_init` and the title and help strings are left out. They are display only.
- The key table `keys_init`, `get_key` and the `run` loop are left out, since they decode input. The model keeps the effects the loop relies on: `quit` and `quit_nosave` end it, and `KeyboardInterrupt` restores the saved buffer (`Interrupted`). `get_key` passes non-character keys to `insert_char`, which raises `TypeError` there. `InsertChar` takes a character only.
- Wrapper.Wrap: the word-boundary placement of breaks by `textwrap` is replaced by a cut at every `width` characters. The model keeps what the editor relies on: the character rewrites (tabs expanded to 8 columns, then TAB, LF, VT, FF and CR become spaces), lines of at most `width` characters that concatenate to the rewritten text, and no line for the empty text. Row counts and row contents that depend on where `textwrap` breaks are therefore those of the fixed-width cut. On clean text (no TAB, LF, VT, FF or CR) with no space and no hyphen, textwrap finds no break opportunity and cuts at every `width` characters too, so there the two agree. Text that holds one of those five characters is not covered by that agreement: it becomes a space, which textwrap may break at.
- Session.Editor.constructor: requires `win_size_y >= 1` and `win_size_x >= 2`. `textwrap` raises `ValueError` for a width below 1, and a zero-height window shows nothing.
- Session.Editor.constructor: `maxTextRows` is a `nat`, so a negative `max_text_rows` is not modelled. The source accepts one: `if self.max_text_rows:` is then true, and `text[:-n]` drops the last `n` paragraphs. That can leave an empty buffer, which every later key would trip over.
- Session.Editor.QuitNoSave: it models the buffer value only. After `quit_nosave` the source's `text` and `text_orig` are the same list object, so later edits would change both. The model has no object identity.
- Python 2 shims, locale handling and `setup.py` are left out, since they are packaging and version glue.
- Session.Editor.InsertLineOrQuit: the source returns `None` when it keeps the session going, and `False` when it ends it. The `run` loop only tests `loop is False`, so the model returns `true` in place of `None`.
- Session.Editor.InsertChar: the source calls `self.line` twice and walks `paragraph` each time. The model reads the paragraph once. Both reads see the same state.

## Findings

| source | as written | input that shows it | evidently intended | confidence | as-written member | corrected member |
|---|---|---|---|---|---|---|
| editor/editor.py:561-569 | `del_to_eol` rewraps the paragraph but never calls `_char_index_to_yx`, unlike every other edit | window 5 columns wide, paragraph "abcdef" (rows "abcd" and "ef"), cursor at row 1 column 0, Ctrl-K: the paragraph becomes "abcd", one row, and `buffer_idx_y` still points at row 1 | re-sync the cursor to its logical position after the deletion | not executed | Findings.DelToEolLeavesCursorOutside (on Session.Editor.DelToEol) | Session.Editor.DelToEolResync |
| editor/editor.py:514 | the cap test is `len(self.flattened_text) == self.max_text_rows`, while `text_init` caps paragraphs, and a buffer can start with more rows than the cap | `max_text_rows=2`, window 5 columns wide, initial text "abcdefghij" (one paragraph, 3 rows): Enter passes the test at 3 rows and again at 4, leaving 3 paragraphs | refuse the split once the cap is reached (`>=`), so the buffer stays within the cap | not executed | Findings.InsertLineOrQuitPassesCap (on Session.Editor.InsertLineOrQuit) | Session.Editor.InsertLineOrQuitCapped |

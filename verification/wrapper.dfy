/** The reflow of one paragraph to the window width.

    The editor calls `textwrap.wrap(text, width, drop_whitespace=False)` with
    textwrap's other defaults: tabs are expanded to tab stops every 8 columns,
    each of the whitespace characters TAB, LF, VT, FF and CR is then replaced
    by a space, and a word longer than the width is broken. This module keeps
    those character rewrites exactly and stands in for the placement of the
    breaks with a fixed-width cut: every line but the last holds exactly
    `width` characters. What the editor relies on is kept: the lines
    concatenate to the rewritten text, none is longer than `width`, and the
    empty text gives no line at all. */
module Wrapper {
  import opened Lines

  /** textwrap's tab size (`str.expandtabs` default). */
  const TabSize: nat := 8

  /** The characters textwrap's `replace_whitespace` turns into a space. */
  predicate Rewritten(c: char)
  {
    c == '\t' || c == '\n' || c == '\U{0B}' || c == '\U{0C}' || c == '\r'
  }

  /** Text that the rewrites leave alone. */
  predicate Clean(s: string)
  {
    forall i :: 0 <= i < |s| ==> !Rewritten(s[i])
  }

  function Spaces(n: nat): (r: string)
    ensures |r| == n && forall i :: 0 <= i < n ==> r[i] == ' '
  {
    if n == 0 then [] else [' '] + Spaces(n - 1)
  }

  /** `str.expandtabs(8)` started at column `col`: a tab becomes the spaces up
      to the next tab stop; LF and CR reset the column. */
  function ExpandTabs(s: string, col: nat): (r: string)
    ensures |r| >= |s|
    ensures (r == []) == (s == [])
    ensures forall i :: 0 <= i < |r| ==> r[i] != '\t'
    ensures forall i :: 0 <= i < |r| ==> r[i] == ' ' || r[i] in s
    decreases |s|
  {
    if s == [] then []
    else if s[0] == '\t' then
      var n := TabSize - col % TabSize;
      Spaces(n) + ExpandTabs(s[1..], col + n)
    else if s[0] == '\n' || s[0] == '\r' then
      [s[0]] + ExpandTabs(s[1..], 0)
    else
      [s[0]] + ExpandTabs(s[1..], col + 1)
  }

  /** Text without a tab is left as it is by the tab expansion. */
  lemma {:induction false} ExpandTabsNoTab(s: string, col: nat)
    requires forall i :: 0 <= i < |s| ==> s[i] != '\t'
    ensures ExpandTabs(s, col) == s
    decreases |s|
  {
    if s != [] {
      if s[0] == '\n' || s[0] == '\r' {
        ExpandTabsNoTab(s[1..], 0);
      } else {
        ExpandTabsNoTab(s[1..], col + 1);
      }
    }
  }

  /** textwrap's `replace_whitespace`: each rewritten character becomes ' '. */
  function ReplaceWhitespace(s: string): (r: string)
    ensures |r| == |s| && Clean(r)
  {
    seq(|s|, i requires 0 <= i < |s| => if Rewritten(s[i]) then ' ' else s[i])
  }

  /** The text as textwrap sees it after its character rewrites. */
  function Normalized(s: string): (r: string)
    ensures Clean(r)
    ensures |r| >= |s|
    ensures (r == []) == (s == [])
    ensures Clean(s) ==> r == s
    ensures forall i :: 0 <= i < |r| ==> r[i] == ' ' || (r[i] in s && !Rewritten(r[i]))
  {
    var e := ExpandTabs(s, 0);
    if Clean(s) then
      ExpandTabsNoTab(s, 0);
      assert ReplaceWhitespace(e) == e;
      ReplaceWhitespace(e)
    else
      ReplaceWhitespace(e)
  }

  /** Cuts `s` into lines of `width` characters; the last may be shorter. */
  function Chunk(s: string, width: nat): (r: seq<string>)
    requires width >= 1
    ensures Flatten(r) == s
    ensures (r == []) == (s == [])
    ensures forall k :: 0 <= k < |r| ==> 1 <= |r[k]| <= width
    decreases |s|
  {
    if s == [] then []
    else if |s| <= width then [s]
    else
      var rest := Chunk(s[width..], width);
      assert s == s[..width] + s[width..];
      [s[..width]] + rest
  }

  /** `textwrap.wrap(s, width, drop_whitespace=False)`: the empty text gives no
      line; otherwise the non-empty lines concatenate to the rewritten text. */
  function Wrap(s: string, width: nat): (r: seq<string>)
    requires width >= 1
    ensures Flatten(r) == Normalized(s)
    ensures (r == []) == (s == [])
    ensures forall k :: 0 <= k < |r| ==> 1 <= |r[k]| <= width
  {
    Chunk(Normalized(s), width)
  }

  /** `Editor._text_wrap`: wrap at `win_size_x - 1` columns, so that one cell
      is left at the end of a row for the cursor, and use `[""]` when textwrap
      returns no line. */
  function TextWrap(s: string, winSizeX: int): (r: seq<string>)
    requires winSizeX >= 2
    ensures r != []
    ensures Flatten(r) == Normalized(s)
    ensures Clean(s) ==> Flatten(r) == s
    ensures forall k :: 0 <= k < |r| ==> |r[k]| <= winSizeX - 1
    ensures s == [] ==> r == [""]
  {
    var lines := Wrap(s, winSizeX - 1);
    if lines == [] then [""] else lines
  }

  /** Rewrapping the concatenation of a wrapped paragraph gives the same lines:
      a paragraph that is laid out stays laid out. */
  lemma RewrapStable(s: string, winSizeX: int)
    requires winSizeX >= 2
    ensures TextWrap(Flatten(TextWrap(s, winSizeX)), winSizeX) == TextWrap(s, winSizeX)
  {
  }
}

/** Vertical scrolling: which flattened rows the window shows. The window
    shows `height` rows starting at row `offset` (`y_offset`). */
module Viewport {

  function Max(a: int, b: int): int
  {
    if a >= b then a else b
  }

  function Min(a: int, b: int): int
  {
    if a <= b then a else b
  }

  function Dist(a: int, b: int): nat
  {
    if a >= b then a - b else b - a
  }

  predicate Shows(offset: int, height: int, row: int)
  {
    offset <= row < offset + height
  }

  /** The offset after the two `while` loops at the end of
      `_char_index_to_yx`: scroll down until `row` is above the bottom edge,
      then up until it is not above the top edge. */
  function ScrollTo(offset: int, row: int, height: int): (r: int)
    requires height >= 1
    ensures Shows(r, height, row)
    ensures Shows(offset, height, row) ==> r == offset
    ensures offset >= 0 && row >= 0 ==> r >= 0
    ensures forall o :: Shows(o, height, row) ==> Dist(r, offset) <= Dist(o, offset)
  {
    if row - offset >= height then row - height + 1
    else if row - offset < 0 then row
    else offset
  }

  /** The two `while` loops at the end of `_char_index_to_yx`, which step
      the offset one row at a time. */
  method StepOffset(offset: int, row: int, height: int) returns (r: int)
    requires height >= 1
    ensures r == ScrollTo(offset, row, height)
  {
    r := offset;
    while row - r >= height
      invariant r == offset || offset < r <= row - height + 1
      decreases row - r
    {
      r := r + 1;
    }
    ghost var scrolled := r;
    while row - r < 0
      invariant r == scrolled || row <= r < scrolled
      decreases r - row
    {
      r := r - 1;
    }
  }
}

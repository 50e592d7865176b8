/**
 * The scroll rule that `File::adjust_viewport` and `OpenFile::adjust_viewport`
 * apply to each axis (src/app/file.rs:134-150, src/app/open_file.rs:123-139):
 * a cursor before the window pulls the offset back to it, a cursor past the
 * window's last cell pushes the offset forward by exactly the overflow, and
 * otherwise the offset stays. The window is `size` cells wide, `size >= 1`
 * because the source computes `size - 1` in unsigned arithmetic.
 */
module Viewport {

  /** The cursor lies in the window of `size` cells that starts at `offset`. */
  predicate Visible(cursor: nat, offset: nat, size: nat) {
    offset <= cursor < offset + size
  }

  function Distance(a: nat, b: nat): nat {
    if a <= b then b - a else a - b
  }

  /**
   * One axis of `adjust_viewport`. The result shows the cursor, leaves a
   * window that already shows it alone, and moves no further than any other
   * window that shows it would.
   */
  function Scroll(cursor: nat, offset: nat, size: nat): (r: nat)
    requires size >= 1
    ensures Visible(cursor, r, size)
    ensures Visible(cursor, offset, size) ==> r == offset
    ensures forall o: nat :: Visible(cursor, o, size) ==> Distance(r, offset) <= Distance(o, offset)
  {
    if cursor < offset then
      var diff := offset - cursor;
      offset - diff
    else if cursor - offset > size - 1 then
      var diff := (cursor - offset) - (size - 1);
      offset + diff
    else
      offset
  }

  /** Scrolling twice is scrolling once. */
  lemma ScrollIdempotent(cursor: nat, offset: nat, size: nat)
    requires size >= 1
    ensures Scroll(cursor, Scroll(cursor, offset, size), size) == Scroll(cursor, offset, size)
  {
  }

  /** Scrolling only ever moves the offset toward the cursor, never past it. */
  lemma ScrollTowardCursor(cursor: nat, offset: nat, size: nat)
    requires size >= 1
    ensures cursor < offset ==> Scroll(cursor, offset, size) == cursor
    ensures offset <= cursor ==> offset <= Scroll(cursor, offset, size) <= cursor
  {
  }
}

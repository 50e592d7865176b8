/**
 * `FilePath` (src/app/file_path.rs): the path being typed in the older save
 * prompt, with a one-dimensional cursor and scroll offset. Its scroll rule
 * differs from the buffer's: it compares the absolute cursor, not the
 * cursor's distance from the offset, with the last cell of the window.
 */
module FilePaths {
  import opened Viewport

  /**
   * `FilePath::adjust_viewport` (file_path.rs:29-37) as written. What it does
   * guarantee: a cursor before the window pulls the offset back to it, the
   * cursor is never beyond the window's right edge afterwards, and a cursor at
   * or past the offset never moves the offset back.
   */
  function ScrollAsWritten(cursor: nat, offset: nat, width: nat): (r: nat)
    requires width >= 1
    ensures cursor < offset ==> r == cursor
    ensures cursor < r + width
    ensures offset <= cursor ==> offset <= r
  {
    if cursor < offset then
      var diff := offset - cursor;
      offset - diff
    else if cursor > width - 1 then
      var diff := cursor - (width - 1);
      offset + diff
    else
      offset
  }

  /** With the offset at zero the rule is the buffer's minimal scroll. */
  lemma AsWrittenAgreesAtZero(cursor: nat, width: nat)
    requires width >= 1
    ensures ScrollAsWritten(cursor, 0, width) == Scroll(cursor, 0, width)
  {
  }

  /**
   * The rule moves a window that already shows the cursor whenever the
   * cursor is past the first `width` cells, and once the offset is at least
   * `width` it scrolls a visible cursor out of the window.
   */
  lemma AsWrittenMovesVisibleWindow(cursor: nat, offset: nat, width: nat)
    requires width >= 1 && Visible(cursor, offset, width) && cursor >= width
    ensures ScrollAsWritten(cursor, offset, width) == offset + (cursor - (width - 1))
    ensures ScrollAsWritten(cursor, offset, width) != Scroll(cursor, offset, width)
    ensures offset >= width ==> !Visible(cursor, ScrollAsWritten(cursor, offset, width), width)
  {
  }

  /**
   * Repeated calls with the same cursor keep moving the offset (so the rule
   * is not idempotent), until the cursor falls out of the window: width 5,
   * cursor 6, offsets 0, 2, 4, 6, 8.
   */
  lemma AsWrittenDrifts()
    ensures ScrollAsWritten(6, 0, 5) == 2
    ensures ScrollAsWritten(6, 2, 5) == 4
    ensures ScrollAsWritten(6, 4, 5) == 6
    ensures ScrollAsWritten(6, 6, 5) == 8
    ensures Visible(6, 6, 5) && !Visible(6, 8, 5)
  {
  }

  /** The prompt's cursor never leaves 0 (FilePath has no editing actions), where both rules agree. */
  lemma AsWrittenAgreesAtCursorZero(offset: nat, width: nat)
    requires width >= 1
    ensures ScrollAsWritten(0, offset, width) == Scroll(0, offset, width) == 0
  {
  }

  class FilePath {
    /** `path`: the typed path, as the code points of its `UnicodeString`. */
    var path: seq<char>
    var cursor: nat
    var offset: nat

    /** `FilePath::new` (file_path.rs:15-21). */
    constructor ()
      ensures path == [] && cursor == 0 && offset == 0
    {
      path, cursor, offset := [], 0, 0;
    }

    /** `adjust_viewport` (file_path.rs:29-37), updating the offset in place. */
    method AdjustViewport(width: nat)
      requires width >= 1
      modifies this`offset
      ensures offset == ScrollAsWritten(cursor, old(offset), width)
    {
      if cursor < offset {
        var diff := offset - cursor;
        offset := offset - diff;
      } else if cursor > width - 1 {
        var diff := cursor - (width - 1);
        offset := offset + diff;
      }
    }

    /**
     * The rule `adjust_viewport` evidently means, the buffer's: compare the
     * cursor's distance from the offset with the window's last cell.
     */
    method AdjustViewportCorrected(width: nat)
      requires width >= 1
      modifies this`offset
      ensures offset == Scroll(cursor, old(offset), width)
      ensures Visible(cursor, offset, width)
    {
      if cursor < offset {
        offset := cursor;
      } else if cursor - offset > width - 1 {
        offset := cursor - (width - 1);
      }
    }

    /** `*self = src.clone()`, field by field (`FilePath` derives `Clone`, file_path.rs:7). */
    method CloneFrom(src: FilePath)
      modifies this
      ensures path == old(src.path) && cursor == old(src.cursor) && offset == old(src.offset)
    {
      path, cursor, offset := src.path, src.cursor, src.offset;
    }
  }
}

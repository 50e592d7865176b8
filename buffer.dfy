/**
 * The line buffer `File` (src/app/file.rs) and its older near-duplicate
 * `OpenFile` (src/app/open_file.rs), whose editing code is the same text.
 *
 * A buffer is a non-empty sequence of lines, a `(column, row)` cursor whose
 * column may lie past the end of its line (moving up and down keeps it), and
 * a `(column, row)` viewport offset. `Doc` is the editing state as a value;
 * the edit functions on it say what each operation does to the text the
 * buffer serialises to (`Join`) and to the cursor's position in that text
 * (`Pos`). The class `File` performs the same edits in place and is proved
 * against those functions.
 */
module Buffer {
  import opened Optional
  import opened Lines
  import opened Viewport

  /** The lines and the stored cursor: `col` is `local_cursor.0`, `row` is `local_cursor.1`. */
  datatype Doc = Doc(lines: seq<seq<char>>, col: nat, row: nat) {
    /** `lines` is never empty and the row indexes a line (the `expect` in `get_line`). */
    predicate Valid() {
      |lines| >= 1 && row < |lines|
    }

    function Line(): seq<char>
      requires Valid()
    {
      lines[row]
    }

    /** `clamped_file_cursor` / `clamped_local_cursor`: the column, capped at the line's length. */
    function Clamped(): (c: nat)
      requires Valid()
      ensures c <= |Line()| && c <= col
      ensures c == col || c == |Line()|
      ensures col <= |Line()| ==> c == col
    {
      if col > |Line()| then |Line()| else col
    }

    /** The index in `Join(lines)` of the character the cursor stands before. */
    function Pos(): (p: nat)
      requires Valid()
      ensures p <= |Join(lines)|
    {
      JoinAt(lines, row);
      |Before(lines[..row])| + Clamped()
    }
  }

  /** Replacing `mid` by `ins` between `b + pre` and `post + a` is a splice at `|b| + |pre|`. */
  lemma Splice(t: seq<char>, t': seq<char>, b: seq<char>, pre: seq<char>, mid: seq<char>,
               post: seq<char>, a: seq<char>, ins: seq<char>)
    requires t == b + (pre + mid + post) + a && t' == b + (pre + ins + post) + a
    ensures |b| + |pre| + |mid| <= |t|
    ensures t' == t[..|b| + |pre|] + ins + t[|b| + |pre| + |mid|..]
  {
    assert t == (b + pre) + mid + (post + a);
    assert t[..|b| + |pre|] == b + pre;
    assert t[|b| + |pre| + |mid|..] == post + a;
  }

  /**
   * Replacing `mid` by `ins` inside line `r` replaces it in the text, at the
   * text index of the line's start plus `|pre|`.
   */
  lemma EditLine(ls: seq<seq<char>>, r: nat, pre: seq<char>, mid: seq<char>, post: seq<char>, ins: seq<char>)
    requires r < |ls| && ls[r] == pre + mid + post
    ensures var p := |Before(ls[..r])| + |pre|;
      p + |mid| <= |Join(ls)| &&
      Join(ls[r := pre + ins + post]) == Join(ls)[..p] + ins + Join(ls)[p + |mid|..]
    ensures ls[r := pre + ins + post][..r] == ls[..r]
  {
    var x := pre + ins + post;
    JoinAt(ls, r);
    JoinAt(ls[r := x], r);
    assert ls[r := x][..r] == ls[..r];
    assert ls[r := x][r + 1..] == ls[r + 1..];
    Splice(Join(ls), Join(ls[r := x]), Before(ls[..r]), pre, mid, post, After(ls[r + 1..]), ins);
  }

  /**
   * Appending line `r + 1` to line `r` removes the line break between them
   * from the text; it sits at the end of line `r`.
   */
  lemma JoinLines(ls: seq<seq<char>>, r: nat)
    requires r + 1 < |ls|
    ensures var p := |Before(ls[..r])| + |ls[r]|;
      p < |Join(ls)| && Join(ls)[p] == '\n' &&
      Join(ls[..r] + [ls[r] + ls[r + 1]] + ls[r + 2..]) == Join(ls)[..p] + Join(ls)[p + 1..] &&
      |Before(ls[..r + 1])| == p + 1
    ensures (ls[..r] + [ls[r] + ls[r + 1]] + ls[r + 2..])[..r] == ls[..r]
  {
    var line, next := ls[r], ls[r + 1];
    var joined := ls[..r] + [line + next] + ls[r + 2..];
    JoinSplice(ls, r, r + 2, [line + next]);
    assert ls[r..r + 2] == [line, next];
    JoinTwo(line, next);
    JoinOne(line + next);
    DropNewline(Join(ls), Join(joined), Before(ls[..r]), line, next, After(ls[r + 2..]));
    assert ls[..r + 1] == ls[..r] + [line];
    BeforeAppend(ls[..r], line);
    assert joined[..r] == ls[..r];
  }

  /** Where `t` has a '\n' between `x` and `y` and `t'` has not, `t'` is `t` without that character. */
  lemma DropNewline(t: seq<char>, t': seq<char>, b: seq<char>, x: seq<char>, y: seq<char>, a: seq<char>)
    requires t == b + (x + ['\n'] + y) + a && t' == b + (x + y) + a
    ensures |b| + |x| < |t| && t[|b| + |x|] == '\n'
    ensures t' == t[..|b| + |x|] + t[|b| + |x| + 1..]
  {
    assert t == (b + x) + ['\n'] + (y + a);
    assert t' == (b + x) + (y + a);
    assert t[..|b| + |x|] == b + x;
    assert t[|b| + |x| + 1..] == y + a;
  }

  /** Cutting line `r` at `c` puts a line break into the text there. */
  lemma BreakAt(ls: seq<seq<char>>, r: nat, c: nat)
    requires r < |ls| && c <= |ls[r]|
    ensures var p := |Before(ls[..r])| + c;
      var broken := ls[..r] + [ls[r][..c], ls[r][c..]] + ls[r + 1..];
      p <= |Join(ls)| &&
      Join(broken) == Join(ls)[..p] + ['\n'] + Join(ls)[p..] &&
      |Before(broken[..r + 1])| == p + 1
  {
    var line := ls[r];
    var broken := ls[..r] + [line[..c], line[c..]] + ls[r + 1..];
    JoinSplice(ls, r, r + 1, [line[..c], line[c..]]);
    assert ls[r..r + 1] == [line];
    JoinTwo(line[..c], line[c..]);
    JoinOne(line);
    assert line == line[..c] + [] + line[c..];
    Splice(Join(ls), Join(broken), Before(ls[..r]), line[..c], [], line[c..], After(ls[r + 1..]), ['\n']);
    assert broken[..r + 1] == ls[..r] + [line[..c]];
    BeforeAppend(ls[..r], line[..c]);
  }

  /** The cursor cannot lie past the end of the text. */
  lemma PosInText(d: Doc)
    requires d.Valid()
    ensures d.Pos() == |Join(d.lines)| <==> d.Clamped() == |d.Line()| && d.row == |d.lines| - 1
  {
    JoinAt(d.lines, d.row);
    if d.row < |d.lines| - 1 {
      AfterIsNewlineJoin(d.lines[d.row + 1..]);
    }
  }

  /** `write_character`: `ch` enters the text at the cursor, which moves past it. */
  function WriteChar(d: Doc, ch: char): (r: Doc)
    requires d.Valid()
    ensures r.Valid() && r.row == d.row && r.col == d.Clamped() + 1
    ensures |r.lines| == |d.lines|
    ensures forall i :: 0 <= i < |d.lines| && i != d.row ==> r.lines[i] == d.lines[i]
    ensures Join(r.lines) == Join(d.lines)[..d.Pos()] + [ch] + Join(d.lines)[d.Pos()..]
    ensures r.Pos() == d.Pos() + 1
  {
    var c, line := d.Clamped(), d.Line();
    assert line == line[..c] + [] + line[c..];
    EditLine(d.lines, d.row, line[..c], [], line[c..], [ch]);
    Doc(d.lines[d.row := line[..c] + [ch] + line[c..]], c + 1, d.row)
  }

  /**
   * `remove_character_before` (Backspace): the character before the cursor
   * leaves the text and the cursor steps back over it; at the start of a line
   * that character is the line break, so the line joins the previous one and
   * the cursor lands where the previous line used to end. At the start of the
   * text nothing changes but the column, which is clamped.
   */
  function Backspace(d: Doc): (r: Doc)
    requires d.Valid()
    ensures r.Valid()
    ensures d.Pos() == 0 ==> r == Doc(d.lines, 0, 0)
    ensures d.Pos() > 0 ==> Join(r.lines) == Join(d.lines)[..d.Pos() - 1] + Join(d.lines)[d.Pos()..]
    ensures d.Pos() > 0 ==> r.Pos() == d.Pos() - 1
    ensures d.Clamped() > 0 ==> |r.lines| == |d.lines| && r.row == d.row && r.col == d.Clamped() - 1
    ensures d.Clamped() > 0 ==> forall i :: 0 <= i < |d.lines| && i != d.row ==> r.lines[i] == d.lines[i]
    ensures d.Clamped() > 0 ==> r.lines[d.row] == d.Line()[..d.Clamped() - 1] + d.Line()[d.Clamped()..]
    ensures d.Clamped() == 0 && d.row > 0 ==>
      d.Pos() > 0 && Join(d.lines)[d.Pos() - 1] == '\n' && |r.lines| == |d.lines| - 1 &&
      r.row == d.row - 1 && r.col == |d.lines[d.row - 1]|
    ensures d.Clamped() == 0 && d.row > 0 ==>
      r.lines == d.lines[..d.row - 1] + [d.lines[d.row - 1] + d.Line()] + d.lines[d.row + 1..]
  {
    var c, line := d.Clamped(), d.Line();
    if c > 0 then
      var r := Doc(d.lines[d.row := line[..c - 1] + line[c..]], c - 1, d.row);
      BackspaceInLine(d, r);
      r
    else if d.row > 0 then
      var prev := d.lines[d.row - 1];
      var r := Doc(d.lines[..d.row - 1] + [prev + line] + d.lines[d.row + 1..], |prev|, d.row - 1);
      BackspaceAtLineStart(d, r);
      r
    else
      Doc(d.lines, 0, 0)
  }

  /** Backspace inside a line: the character before the cursor leaves that line. */
  lemma BackspaceInLine(d: Doc, r: Doc)
    requires d.Valid() && d.Clamped() > 0
    requires r == Doc(d.lines[d.row := d.Line()[..d.Clamped() - 1] + d.Line()[d.Clamped()..]], d.Clamped() - 1, d.row)
    ensures r.Valid() && d.Pos() > 0 && r.Pos() == d.Pos() - 1
    ensures Join(r.lines) == Join(d.lines)[..d.Pos() - 1] + Join(d.lines)[d.Pos()..]
  {
    var c, line := d.Clamped(), d.Line();
    assert line == line[..c - 1] + [line[c - 1]] + line[c..];
    assert line[..c - 1] + line[c..] == line[..c - 1] + [] + line[c..];
    EditLine(d.lines, d.row, line[..c - 1], [line[c - 1]], line[c..], []);
  }

  /** Backspace at the start of a line after the first: the line break before it leaves the text. */
  lemma BackspaceAtLineStart(d: Doc, r: Doc)
    requires d.Valid() && d.Clamped() == 0 && d.row > 0
    requires r == Doc(d.lines[..d.row - 1] + [d.lines[d.row - 1] + d.Line()] + d.lines[d.row + 1..],
                      |d.lines[d.row - 1]|, d.row - 1)
    ensures r.Valid() && |r.lines| == |d.lines| - 1
    ensures d.Pos() > 0 && Join(d.lines)[d.Pos() - 1] == '\n' && r.Pos() == d.Pos() - 1
    ensures Join(r.lines) == Join(d.lines)[..d.Pos() - 1] + Join(d.lines)[d.Pos()..]
  {
    JoinLines(d.lines, d.row - 1);
    assert d.lines[d.row - 1 + 1] == d.Line() && d.lines[d.row - 1 + 2..] == d.lines[d.row + 1..];
  }

  /**
   * `remove_character_after` (Delete): the character after the cursor leaves
   * the text; at the end of a line that is the line break, so the next line
   * joins this one. The cursor is clamped and keeps its place in the text.
   */
  function DeleteForward(d: Doc): (r: Doc)
    requires d.Valid()
    ensures r.Valid() && r.row == d.row && r.col == d.Clamped()
    ensures d.Pos() < |Join(d.lines)| ==> Join(r.lines) == Join(d.lines)[..d.Pos()] + Join(d.lines)[d.Pos() + 1..]
    ensures d.Pos() == |Join(d.lines)| ==> r.lines == d.lines
    ensures r.Pos() == d.Pos()
    ensures d.Clamped() < |d.Line()| ==> |r.lines| == |d.lines|
    ensures d.Clamped() < |d.Line()| ==> forall i :: 0 <= i < |d.lines| && i != d.row ==> r.lines[i] == d.lines[i]
    ensures d.Clamped() < |d.Line()| ==> r.lines[d.row] == d.Line()[..d.Clamped()] + d.Line()[d.Clamped() + 1..]
    ensures d.Clamped() == |d.Line()| && d.row < |d.lines| - 1 ==>
      d.Pos() < |Join(d.lines)| && Join(d.lines)[d.Pos()] == '\n' && |r.lines| == |d.lines| - 1
    ensures d.Clamped() == |d.Line()| && d.row < |d.lines| - 1 ==>
      r.lines == d.lines[..d.row] + [d.Line() + d.lines[d.row + 1]] + d.lines[d.row + 2..]
  {
    PosInText(d);
    var c, line := d.Clamped(), d.Line();
    if c < |line| then
      var r := Doc(d.lines[d.row := line[..c] + line[c + 1..]], c, d.row);
      DeleteInLine(d, r);
      r
    else if d.row < |d.lines| - 1 then
      var r := Doc(d.lines[..d.row] + [line + d.lines[d.row + 1]] + d.lines[d.row + 2..], c, d.row);
      DeleteAtLineEnd(d, r);
      r
    else
      Doc(d.lines, c, d.row)
  }

  /** Delete inside a line: the character after the cursor leaves that line. */
  lemma DeleteInLine(d: Doc, r: Doc)
    requires d.Valid() && d.Clamped() < |d.Line()|
    requires r == Doc(d.lines[d.row := d.Line()[..d.Clamped()] + d.Line()[d.Clamped() + 1..]], d.Clamped(), d.row)
    ensures r.Valid() && d.Pos() < |Join(d.lines)| && r.Pos() == d.Pos()
    ensures Join(r.lines) == Join(d.lines)[..d.Pos()] + Join(d.lines)[d.Pos() + 1..]
  {
    var c, line := d.Clamped(), d.Line();
    assert line == line[..c] + [line[c]] + line[c + 1..];
    assert line[..c] + line[c + 1..] == line[..c] + [] + line[c + 1..];
    EditLine(d.lines, d.row, line[..c], [line[c]], line[c + 1..], []);
  }

  /** Delete at the end of a line before the last: the line break after it leaves the text. */
  lemma DeleteAtLineEnd(d: Doc, r: Doc)
    requires d.Valid() && d.Clamped() == |d.Line()| && d.row < |d.lines| - 1
    requires r == Doc(d.lines[..d.row] + [d.Line() + d.lines[d.row + 1]] + d.lines[d.row + 2..], d.Clamped(), d.row)
    ensures r.Valid() && |r.lines| == |d.lines| - 1 && r.Pos() == d.Pos()
    ensures d.Pos() < |Join(d.lines)| && Join(d.lines)[d.Pos()] == '\n'
    ensures Join(r.lines) == Join(d.lines)[..d.Pos()] + Join(d.lines)[d.Pos() + 1..]
  {
    JoinLines(d.lines, d.row);
  }

  /**
   * `break_line` (Enter): a line break enters the text at the cursor; the
   * line is cut at the clamped column and the cursor moves to the start of
   * the new second half.
   */
  function LineBreak(d: Doc): (r: Doc)
    requires d.Valid()
    ensures r.Valid() && r.row == d.row + 1 && r.col == 0 && |r.lines| == |d.lines| + 1
    ensures r.lines[d.row] + r.lines[d.row + 1] == d.Line()
    ensures forall i :: 0 <= i < d.row ==> r.lines[i] == d.lines[i]
    ensures forall i :: d.row < i < |d.lines| ==> r.lines[i + 1] == d.lines[i]
    ensures Join(r.lines) == Join(d.lines)[..d.Pos()] + ['\n'] + Join(d.lines)[d.Pos()..]
    ensures r.Pos() == d.Pos() + 1
  {
    var c, line := d.Clamped(), d.Line();
    BreakAt(d.lines, d.row, c);
    assert line[..c] + line[c..] == line;
    Doc(d.lines[..d.row] + [line[..c], line[c..]] + d.lines[d.row + 1..], 0, d.row + 1)
  }

  /** `move_cursor_up`: one row up unless on the first; the column is kept as stored. */
  function MoveUp(d: Doc): (r: Doc)
    requires d.Valid()
    ensures r.Valid() && r.lines == d.lines && r.col == d.col
    ensures r.row == if d.row > 0 then d.row - 1 else d.row
  {
    if d.row > 0 then d.(row := d.row - 1) else d
  }

  /** `move_cursor_down`: one row down unless on the last; the column is kept as stored. */
  function MoveDown(d: Doc): (r: Doc)
    requires d.Valid()
    ensures r.Valid() && r.lines == d.lines && r.col == d.col
    ensures r.row == if d.row < |d.lines| - 1 then d.row + 1 else d.row
  {
    if d.row < |d.lines| - 1 then d.(row := d.row + 1) else d
  }

  /** `move_cursor_left`: clamp, then one character back unless at the line's start. */
  function MoveLeft(d: Doc): (r: Doc)
    requires d.Valid()
    ensures r.Valid() && r.lines == d.lines && r.row == d.row && r.col <= |d.Line()|
    ensures r.Pos() == if d.Clamped() > 0 then d.Pos() - 1 else d.Pos()
  {
    var c := d.Clamped();
    if c > 0 then d.(col := c - 1) else d.(col := c)
  }

  /** `move_cursor_right`: clamp, then one character on unless at the line's end. */
  function MoveRight(d: Doc): (r: Doc)
    requires d.Valid()
    ensures r.Valid() && r.lines == d.lines && r.row == d.row && r.col <= |d.Line()|
    ensures r.Pos() == if d.Clamped() < |d.Line()| then d.Pos() + 1 else d.Pos()
  {
    var c := d.Clamped();
    if c < |d.Line()| then d.(col := c + 1) else d.(col := c)
  }

  /** Backspace undoes typing a character, up to clamping the column. */
  lemma BackspaceUndoesWriteChar(d: Doc, ch: char)
    requires d.Valid()
    ensures Backspace(WriteChar(d, ch)) == d.(col := d.Clamped())
  {
    var c, line := d.Clamped(), d.Line();
    var typed := line[..c] + [ch] + line[c..];
    var w := WriteChar(d, ch);
    assert w == Doc(d.lines[d.row := typed], c + 1, d.row);
    assert w.Clamped() == c + 1;
    assert typed[..c] + typed[c + 1..] == line by {
      assert typed[..c] == line[..c] && typed[c + 1..] == line[c..];
    }
    assert Backspace(w) == Doc(w.lines[d.row := line], c, d.row);
    assert d.lines[d.row := typed][d.row := line] == d.lines;
  }

  /** Backspace at the start of the second half rejoins a broken line. */
  lemma BackspaceUndoesLineBreak(d: Doc)
    requires d.Valid()
    ensures Backspace(LineBreak(d)) == d.(col := d.Clamped())
  {
    var c, line := d.Clamped(), d.Line();
    var broken := d.lines[..d.row] + [line[..c], line[c..]] + d.lines[d.row + 1..];
    var b := LineBreak(d);
    assert b == Doc(broken, 0, d.row + 1);
    assert b.Clamped() == 0 && b.row > 0;
    Rejoin(d.lines, d.row, c);
    assert Backspace(b) == Doc(broken[..d.row] + [broken[d.row] + broken[d.row + 1]] + broken[d.row + 2..], c, d.row);
  }

  /** Dropping line `r` and appending it to line `r - 1` is one splice of the lines. */
  lemma MergeUp(ls: seq<seq<char>>, r: nat)
    requires 0 < r < |ls|
    ensures (ls[..r] + ls[r + 1..])[r - 1] == ls[r - 1]
    ensures (ls[..r] + ls[r + 1..])[r - 1 := ls[r - 1] + ls[r]] == ls[..r - 1] + [ls[r - 1] + ls[r]] + ls[r + 1..]
  {
  }

  /** Truncating line `r` at `c` and inserting its tail after it is one splice of the lines. */
  lemma BreakSplice(ls: seq<seq<char>>, r: nat, c: nat)
    requires r < |ls| && c <= |ls[r]|
    ensures var cut := ls[r := ls[r][..c]];
      cut[..r + 1] + [ls[r][c..]] + cut[r + 1..] == ls[..r] + [ls[r][..c], ls[r][c..]] + ls[r + 1..]
  {
    var cut := ls[r := ls[r][..c]];
    assert cut[..r + 1] == ls[..r] + [ls[r][..c]];
    assert cut[r + 1..] == ls[r + 1..];
  }

  /** Joining the two halves of a broken line gives back the lines before the break. */
  lemma Rejoin(ls: seq<seq<char>>, r: nat, c: nat)
    requires r < |ls| && c <= |ls[r]|
    ensures var broken := ls[..r] + [ls[r][..c], ls[r][c..]] + ls[r + 1..];
      |broken| == |ls| + 1 && |broken[r]| == c &&
      broken[..r] + [broken[r] + broken[r + 1]] + broken[r + 2..] == ls
  {
    var line := ls[r];
    var broken := ls[..r] + [line[..c], line[c..]] + ls[r + 1..];
    assert broken[r] == line[..c] && broken[r + 1] == line[c..];
    assert broken[..r] == ls[..r] && broken[r + 2..] == ls[r + 1..];
    assert line[..c] + line[c..] == line;
    assert ls[..r] + [line] + ls[r + 1..] == ls;
  }

  /** Moving down and back up returns to the same row and the same stored column. */
  lemma UpUndoesDown(d: Doc)
    requires d.Valid() && d.row < |d.lines| - 1
    ensures MoveUp(MoveDown(d)) == d
  {
  }

  /** Clamping the stored column does not move the cursor in the text. */
  lemma ClampKeepsPos(d: Doc)
    requires d.Valid()
    ensures d.(col := d.Clamped()).Pos() == d.Pos()
    ensures d.(col := d.Clamped()).Clamped() == d.Clamped()
  {
  }

  class File {
    /** `path`: the code points of the buffer's path. */
    var path: seq<char>
    var lines: seq<seq<char>>
    var col: nat
    var row: nat
    var offCol: nat
    var offRow: nat

    function State(): Doc
      reads this
    {
      Doc(lines, col, row)
    }

    ghost predicate Valid()
      reads this
    {
      State().Valid()
    }

    /** `File::new` (file.rs:13-20), `OpenFile::new` (open_file.rs:15-22). */
    constructor ()
      ensures Valid() && path == [] && lines == [[]]
      ensures col == 0 && row == 0 && offCol == 0 && offRow == 0
    {
      path, lines := [], [[]];
      col, row, offCol, offRow := 0, 0, 0, 0;
    }

    /** `to_string`: each line, with '\n' after all but the last. */
    method ToString() returns (output: seq<char>)
      requires Valid()
      ensures output == Join(lines)
      ensures Split(output) == lines || !NoNewlines(lines)
    {
      output := [];
      var i := 0;
      while i < |lines|
        invariant 0 <= i <= |lines|
        invariant i < |lines| ==> output == Before(lines[..i])
        invariant i == |lines| ==> output == Join(lines)
      {
        BeforeAppend(lines[..i], lines[i]);
        assert lines[..i + 1] == lines[..i] + [lines[i]];
        JoinAt(lines, i);
        output := output + lines[i];
        if i < |lines| - 1 {
          output := output + ['\n'];
        }
        i := i + 1;
      }
      if NoNewlines(lines) {
        SplitJoin(lines);
      }
    }

    method WriteCharacter(ch: char)
      requires Valid()
      modifies this`lines, this`col
      ensures Valid() && State() == WriteChar(old(State()), ch)
    {
      col := State().Clamped();
      var charIdx := col;
      var line := lines[row];
      line := line[..charIdx] + [ch] + line[charIdx..];
      lines := lines[row := line];
      col := col + 1;
    }

    method RemoveCharacterBefore()
      requires Valid()
      modifies this`lines, this`col, this`row
      ensures Valid() && State() == Backspace(old(State()))
    {
      col := State().Clamped();
      if col > 0 {
        var charIdx := col - 1;
        var line := lines[row];
        line := line[..charIdx] + line[charIdx + 1..];
        lines := lines[row := line];
        col := col - 1;
      } else if row > 0 {
        var currLine := lines[row];
        MergeUp(lines, row);
        lines := lines[..row] + lines[row + 1..];
        row := row - 1;
        var prevLine := lines[row] + currLine;
        lines := lines[row := prevLine];
        col := |prevLine| - |currLine|;
      }
    }

    method RemoveCharacterAfter()
      requires Valid()
      modifies this`lines, this`col
      ensures Valid() && State() == DeleteForward(old(State()))
    {
      col := State().Clamped();
      if col < |lines[row]| {
        var charIdx := col;
        var line := lines[row];
        line := line[..charIdx] + line[charIdx + 1..];
        lines := lines[row := line];
      } else if row < |lines| - 1 {
        var nextLine := lines[row + 1];
        lines := lines[..row + 1] + lines[row + 2..];
        lines := lines[row := lines[row] + nextLine];
      }
    }

    method BreakLine()
      requires Valid()
      modifies this`lines, this`col, this`row
      ensures Valid() && State() == LineBreak(old(State()))
    {
      col := State().Clamped();
      var charIdx := col;
      var currLine := lines[row];
      var suffix := currLine[charIdx..];
      BreakSplice(lines, row, charIdx);
      lines := lines[row := currLine[..charIdx]];
      lines := lines[..row + 1] + [suffix] + lines[row + 1..];
      col := 0;
      row := row + 1;
    }

    method MoveCursorUp()
      requires Valid()
      modifies this`row
      ensures Valid() && State() == MoveUp(old(State()))
    {
      if row > 0 {
        row := row - 1;
      }
    }

    method MoveCursorDown()
      requires Valid()
      modifies this`row
      ensures Valid() && State() == MoveDown(old(State()))
    {
      if row < |lines| - 1 {
        row := row + 1;
      }
    }

    method MoveCursorLeft()
      requires Valid()
      modifies this`col
      ensures Valid() && State() == MoveLeft(old(State()))
    {
      col := State().Clamped();
      if col > 0 {
        col := col - 1;
      }
    }

    method MoveCursorRight()
      requires Valid()
      modifies this`col
      ensures Valid() && State() == MoveRight(old(State()))
    {
      col := State().Clamped();
      if col < |lines[row]| {
        col := col + 1;
      }
    }

    /**
     * `adjust_viewport` (file.rs:134-150, open_file.rs:123-139) on a `width`
     * by `height` rectangle: each axis scrolls by the minimal rule, on the
     * stored (unclamped) column.
     */
    method AdjustViewport(width: nat, height: nat)
      requires width >= 1 && height >= 1
      modifies this`offCol, this`offRow
      ensures offCol == Scroll(col, old(offCol), width) && offRow == Scroll(row, old(offRow), height)
      ensures Visible(col, offCol, width) && Visible(row, offRow, height)
    {
      if col < offCol {
        var diff := offCol - col;
        offCol := offCol - diff;
      } else if col - offCol > width - 1 {
        var diff := (col - offCol) - (width - 1);
        offCol := offCol + diff;
      }
      if row < offRow {
        var diff := offRow - row;
        offRow := offRow - diff;
      } else if row - offRow > height - 1 {
        var diff := (row - offRow) - (height - 1);
        offRow := offRow + diff;
      }
    }

    /**
     * `global_cursor` / `global_cursor_pos`: the screen cell of the clamped
     * cursor in a rectangle whose top-left cell is `(x, y)`. The source
     * subtracts the offset in unsigned arithmetic; `None` is the underflow,
     * a panic in a debug build.
     */
    function GlobalCursor(x: nat, y: nat): (r: Option<(nat, nat)>)
      reads this
      requires Valid()
      ensures r.Some? <==> offCol <= State().Clamped() && offRow <= row
      ensures r.Some? ==> r.value.0 + offCol == x + State().Clamped() && r.value.1 + offRow == y + row
    {
      var c := State().Clamped();
      if c < offCol || row < offRow then None
      else Some((x + (c - offCol), y + (row - offRow)))
    }

    /** What `OpenFile::render` does for the cursor (open_file.rs:175-176): scroll, then place it. */
    method RenderCursorAsWritten(x: nat, y: nat, width: nat, height: nat) returns (r: Option<(nat, nat)>)
      requires Valid() && width >= 1 && height >= 1
      modifies this`offCol, this`offRow
      ensures offCol == Scroll(col, old(offCol), width) && offRow == Scroll(row, old(offRow), height)
      ensures r == GlobalCursor(x, y)
    {
      AdjustViewport(width, height);
      r := GlobalCursor(x, y);
    }

    /** The viewport scroll on the column the cursor is drawn at, the clamped one. */
    method AdjustViewportClamped(width: nat, height: nat)
      requires Valid() && width >= 1 && height >= 1
      modifies this`offCol, this`offRow
      ensures offCol == Scroll(State().Clamped(), old(offCol), width)
      ensures offRow == Scroll(row, old(offRow), height)
    {
      var c := State().Clamped();
      if c < offCol {
        offCol := c;
      } else if c - offCol > width - 1 {
        offCol := c - (width - 1);
      }
      if row < offRow {
        offRow := row;
      } else if row - offRow > height - 1 {
        offRow := row - (height - 1);
      }
    }

    /** Scrolling on the clamped column always leaves the cursor on a cell of the rectangle. */
    method RenderCursor(x: nat, y: nat, width: nat, height: nat) returns (p: (nat, nat))
      requires Valid() && width >= 1 && height >= 1
      modifies this`offCol, this`offRow
      ensures offCol == Scroll(State().Clamped(), old(offCol), width)
      ensures offRow == Scroll(row, old(offRow), height)
      ensures GlobalCursor(x, y) == Some(p)
      ensures x <= p.0 < x + width && y <= p.1 < y + height
    {
      AdjustViewportClamped(width, height);
      CursorOnScreen(this, x, y, width, height);
      p := GlobalCursor(x, y).value;
    }
  }

  /** A window that shows the clamped cursor puts it on a cell of the rectangle. */
  lemma CursorOnScreen(f: File, x: nat, y: nat, width: nat, height: nat)
    requires f.Valid()
    requires Visible(f.State().Clamped(), f.offCol, width) && Visible(f.row, f.offRow, height)
    ensures f.GlobalCursor(x, y).Some?
    ensures x <= f.GlobalCursor(x, y).value.0 < x + width
    ensures y <= f.GlobalCursor(x, y).value.1 < y + height
  {
  }

  /**
   * Scrolling on the stored column, as `adjust_viewport` does, loses the
   * cursor whenever that column lies at least a window's width past the end
   * of the line: the offset then exceeds the clamped column.
   */
  lemma UnclampedScrollLosesCursor(f: File, previous: nat, width: nat, x: nat, y: nat)
    requires f.Valid() && width >= 1
    requires f.col >= |f.State().Line()| + width
    requires f.offCol == Scroll(f.col, previous, width)
    ensures f.GlobalCursor(x, y).None?
  {
  }

  /**
   * The loss is reachable by keys alone: Enter, "aa", Up. The cursor is
   * stored at (2, 0) on an empty line; a window 2 wide scrolls to column 1,
   * past the clamped column 0.
   */
  method UnderflowReachable() returns (r: Option<(nat, nat)>)
    ensures r.None?
  {
    var f := new File();
    UnderflowKeys();
    f.BreakLine();
    f.WriteCharacter('a');
    f.WriteCharacter('a');
    f.MoveCursorUp();
    assert f.State() == Doc([[], "aa"], 2, 0);
    r := f.RenderCursorAsWritten(0, 0, 2, 5);
    assert f.offCol == Scroll(2, 0, 2) == 1;
  }

  /** The buffer after the keys Enter, "aa", Up on an empty file. */
  lemma UnderflowKeys()
    ensures MoveUp(WriteChar(WriteChar(LineBreak(Doc([[]], 0, 0)), 'a'), 'a')) == Doc([[], "aa"], 2, 0)
  {
    var empty: seq<char> := [];
    var d0 := Doc([empty], 0, 0);
    assert d0.Clamped() == 0 && d0.Line() == empty;
    var d1 := LineBreak(d0);
    assert d1 == Doc([empty][..0] + [empty[..0], empty[0..]] + [empty][1..], 0, 1);
    assert d1 == Doc([empty, empty], 0, 1);
    assert d1.Clamped() == 0 && d1.Line() == empty;
    var d2 := WriteChar(d1, 'a');
    assert d2 == Doc([empty, empty][1 := empty[..0] + ['a'] + empty[0..]], 1, 1);
    assert empty[..0] + ['a'] + empty[0..] == "a";
    assert [empty, empty][1 := "a"] == [empty, "a"];
    assert d2 == Doc([empty, "a"], 1, 1);
    assert d2.Clamped() == 1 && d2.Line() == "a";
    var d3 := WriteChar(d2, 'a');
    assert d3 == Doc([empty, "a"][1 := "a"[..1] + ['a'] + "a"[1..]], 2, 1);
    assert "a"[..1] + ['a'] + "a"[1..] == "aa";
    assert [empty, "a"][1 := "aa"] == [empty, "aa"];
    assert d3 == Doc([empty, "aa"], 2, 1);
  }
}

/** The text editor: a buffer of up to 200 lines edited at a cursor, with a
    window of 25 visible rows, and the key loop that drives it.

    The buffer is `ed_lines[200][73]` with lengths in `ed_line_len`; a line
    is modelled as its text, the first `ed_line_len[r]` bytes of its row,
    and the buffer as the texts of the first `ed_total_lines` rows. Bytes
    past a line's length are never read back, so they are not modelled.
    Rendering and the status bar are left out. */
module Editor {

  const VISIBLE_ROWS: nat := 25
  const COLS: nat := 72
  const MAX_LINES: nat := 200
  /** Bytes in one row of `ed_lines`: a full line and its NUL. */
  const ROW_BYTES: nat := COLS + 1

  const ESC: char := 27 as char
  const BACKSPACE: char := 8 as char
  /** `'A' - 64 + 1` and `'E' - 64 + 1`: the codes the loop compares with
      for "start of line" and "end of line". */
  const HOME_KEY: char := ('A' as int - 64 + 1) as char
  const END_KEY: char := ('E' as int - 64 + 1) as char

  datatype Editor = Editor(lines: seq<string>, row: nat, col: nat, scroll: nat, modified: bool)

  /** At least one line and at most 200, and the cursor on a line, at most
      one past its last character. */
  predicate Valid(e: Editor)
  {
    1 <= |e.lines| <= MAX_LINES && e.row < |e.lines| && e.col <= |e.lines[e.row]|
  }

  /** Every line fits its row with room for the NUL. */
  predicate Bounded(e: Editor)
  {
    forall r :: 0 <= r < |e.lines| ==> |e.lines[r]| <= COLS
  }

  /** The whole text, lines joined without separators. */
  function Joined(ls: seq<string>): string
  {
    if ls == [] then [] else ls[0] + Joined(ls[1..])
  }

  lemma {:induction false} JoinedAppend(a: seq<string>, b: seq<string>)
    ensures Joined(a + b) == Joined(a) + Joined(b)
  {
    if a != [] {
      assert (a + b)[1..] == a[1..] + b;
      JoinedAppend(a[1..], b);
    } else {
      assert a + b == b;
    }
  }

  lemma JoinedSingle(s: string)
    ensures Joined([s]) == s
  {
    assert [s][1..] == [];
  }

  // ---------------------------------------------------------------------
  // Start-up
  // ---------------------------------------------------------------------

  const WELCOME: string := "Welcome to ArcticOS Editor!"

  /** `app_editor_run`'s buffer: nine lines of help text and an empty tenth
      line, the cursor at the top left, nothing modified. */
  const Init: Editor :=
    Editor([WELCOME, "", "Keyboard shortcuts:", "  Arrow keys - move cursor",
            "  Home/End   - start/end of line", "  PgUp/PgDn  - page up/down",
            "  ESC        - return to desktop", "", "Start typing below...", ""],
           0, 0, 0, false)

  lemma InitValid()
    ensures Valid(Init) && Bounded(Init)
    ensures |Init.lines| == 10 && |Init.lines[0]| == 27 && Init.lines[9] == []
  {
  }

  // ---------------------------------------------------------------------
  // Text operations
  // ---------------------------------------------------------------------

  /** `ed_insert_char` as written: refused only when the cursor is at or
      past column 72; otherwise `c` goes in at the cursor and the line
      grows, whatever its length. */
  function InsertAsWritten(e: Editor, c: char): (r: Editor)
    requires Valid(e)
    ensures Valid(r)
    ensures e.col >= COLS ==> r == e
    ensures e.col < COLS ==>
              && r.lines == e.lines[e.row := e.lines[e.row][..e.col] + [c] + e.lines[e.row][e.col..]]
              && r.row == e.row && r.col == e.col + 1 && r.scroll == e.scroll && r.modified
  {
    if e.col >= COLS then e
    else
      var line := e.lines[e.row];
      e.(lines := e.lines[e.row := line[..e.col] + [c] + line[e.col..]],
         col := e.col + 1, modified := true)
  }

  /** The highest byte of the line's row that `ed_insert_char` writes: the
      shift starts by copying into index `len`. */
  function InsertWriteIndex(e: Editor): nat
    requires Valid(e)
  {
    |e.lines[e.row]|
  }

  /** `ed_insert_char` as evidently intended: also refused when the line
      is already 72 characters long, so that it keeps fitting its row. */
  function Insert(e: Editor, c: char): (r: Editor)
    requires Valid(e)
    ensures Valid(r)
    ensures e.col >= COLS || |e.lines[e.row]| >= COLS ==> r == e
    ensures e.col < COLS && |e.lines[e.row]| < COLS ==>
              && r.lines == e.lines[e.row := e.lines[e.row][..e.col] + [c] + e.lines[e.row][e.col..]]
              && r.row == e.row && r.col == e.col + 1 && r.scroll == e.scroll && r.modified
              && InsertWriteIndex(e) < ROW_BYTES
    ensures Bounded(e) ==> Bounded(r)
  {
    if |e.lines[e.row]| >= COLS then e else InsertAsWritten(e, c)
  }

  /** `ed_delete_char`: at column 0 of the first line nothing happens, not
      even the modified flag; at column 0 of a later line the line is
      appended to the previous one when both fit in 72 columns, and
      otherwise only the modified flag is set; elsewhere the character
      before the cursor is removed. */
  function Delete(e: Editor): (r: Editor)
    requires Valid(e)
    ensures Valid(r)
    ensures e.row == 0 && e.col == 0 ==> r == e
    ensures e.row > 0 && e.col == 0 && |e.lines[e.row - 1]| + |e.lines[e.row]| > COLS
            ==> r == e.(modified := true)
    ensures e.col > 0 ==>
              && r.lines == e.lines[e.row := e.lines[e.row][..e.col - 1] + e.lines[e.row][e.col..]]
              && r.row == e.row && r.col == e.col - 1 && r.modified
    ensures e.row > 0 && e.col == 0 && |e.lines[e.row - 1]| + |e.lines[e.row]| <= COLS ==>
              && |r.lines| == |e.lines| - 1
              && r.lines[e.row - 1] == e.lines[e.row - 1] + e.lines[e.row]
              && (forall k :: 0 <= k < e.row - 1 ==> r.lines[k] == e.lines[k])
              && (forall k :: e.row <= k < |r.lines| ==> r.lines[k] == e.lines[k + 1])
              && r.row == e.row - 1 && r.col == |e.lines[e.row - 1]| && r.modified
    ensures r.scroll == e.scroll
    ensures Bounded(e) ==> Bounded(r)
  {
    var line := e.lines[e.row];
    if e.col == 0 then
      if e.row == 0 then e
      else
        var prev := e.lines[e.row - 1];
        if |prev| + |line| <= COLS then
          e.(lines := e.lines[..e.row - 1] + [prev + line] + e.lines[e.row + 1..],
             row := e.row - 1, col := |prev|, modified := true)
        else e.(modified := true)
    else
      e.(lines := e.lines[e.row := line[..e.col - 1] + line[e.col..]], col := e.col - 1, modified := true)
  }

  /** `ed_newline`: with 200 lines nothing happens; otherwise the line is
      split at the cursor, the part after it becomes a new next line, and
      the cursor moves to that line's start. */
  function Newline(e: Editor): (r: Editor)
    requires Valid(e)
    ensures Valid(r)
    ensures |e.lines| >= MAX_LINES ==> r == e
    ensures |e.lines| < MAX_LINES ==>
              && |r.lines| == |e.lines| + 1
              && r.lines[e.row] == e.lines[e.row][..e.col]
              && r.lines[e.row + 1] == e.lines[e.row][e.col..]
              && (forall k :: 0 <= k < e.row ==> r.lines[k] == e.lines[k])
              && (forall k :: e.row < k < |e.lines| ==> r.lines[k + 1] == e.lines[k])
              && r.row == e.row + 1 && r.col == 0 && r.modified
    ensures r.scroll == e.scroll
    ensures Bounded(e) ==> Bounded(r)
  {
    if |e.lines| >= MAX_LINES then e
    else
      var line := e.lines[e.row];
      e.(lines := e.lines[..e.row] + [line[..e.col], line[e.col..]] + e.lines[e.row + 1..],
         row := e.row + 1, col := 0, modified := true)
  }

  /** `ed_ensure_visible`: scroll the least amount that brings the cursor's
      row into the 25 visible rows. */
  function EnsureVisible(e: Editor): (r: Editor)
    ensures r.scroll <= r.row < r.scroll + VISIBLE_ROWS
    ensures r == e.(scroll := r.scroll)
    ensures e.scroll <= e.row < e.scroll + VISIBLE_ROWS ==> r == e
    ensures e.row < e.scroll ==> r.scroll == e.row
    ensures e.row >= e.scroll + VISIBLE_ROWS ==> r.scroll + VISIBLE_ROWS == e.row + 1
  {
    if e.row < e.scroll then e.(scroll := e.row)
    else if e.row >= e.scroll + VISIBLE_ROWS then e.(scroll := e.row - VISIBLE_ROWS + 1)
    else e
  }

  // ---------------------------------------------------------------------
  // What the operations do to the text
  // ---------------------------------------------------------------------

  /** Splitting a line keeps the text: the joined lines are unchanged. */
  lemma NewlineKeepsText(e: Editor)
    requires Valid(e)
    ensures Joined(Newline(e).lines) == Joined(e.lines)
  {
    if |e.lines| < MAX_LINES {
      var line := e.lines[e.row];
      var a, b := e.lines[..e.row], e.lines[e.row + 1..];
      assert e.lines == a + [line] + b;
      JoinedAppend(a + [line], b);
      JoinedAppend(a, [line]);
      JoinedSingle(line);
      JoinedAppend(a + [line[..e.col], line[e.col..]], b);
      JoinedAppend(a, [line[..e.col], line[e.col..]]);
      assert [line[..e.col], line[e.col..]] == [line[..e.col]] + [line[e.col..]];
      JoinedAppend([line[..e.col]], [line[e.col..]]);
      JoinedSingle(line[..e.col]);
      JoinedSingle(line[e.col..]);
      assert line[..e.col] + line[e.col..] == line;
    }
  }

  /** Merging two lines keeps the text too. */
  lemma MergeKeepsText(e: Editor)
    requires Valid(e) && e.row > 0 && e.col == 0
    ensures Joined(Delete(e).lines) == Joined(e.lines)
  {
    var prev, line := e.lines[e.row - 1], e.lines[e.row];
    if |prev| + |line| <= COLS {
      var a, b := e.lines[..e.row - 1], e.lines[e.row + 1..];
      assert e.lines == a + [prev, line] + b;
      JoinedAppend(a + [prev, line], b);
      JoinedAppend(a, [prev, line]);
      assert [prev, line] == [prev] + [line];
      JoinedAppend([prev], [line]);
      JoinedSingle(prev);
      JoinedSingle(line);
      JoinedAppend(a + [prev + line], b);
      JoinedAppend(a, [prev + line]);
      JoinedSingle(prev + line);
    }
  }

  /** Backspace after a split at the cursor undoes it: lines, cursor and
      scroll are back as they were, and the buffer is marked modified. */
  lemma NewlineThenDelete(e: Editor)
    requires Valid(e) && |e.lines| < MAX_LINES && |e.lines[e.row]| <= COLS
    ensures Delete(Newline(e)) == e.(modified := true)
  {
    var n := Newline(e);
    var line := e.lines[e.row];
    assert n.lines[n.row - 1] + n.lines[n.row] == line;
    var d := Delete(n);
    assert |d.lines| == |e.lines|;
    forall k | 0 <= k < |e.lines|
      ensures d.lines[k] == e.lines[k]
    {
      if k > e.row {
        assert d.lines[k] == n.lines[k + 1];
      }
    }
    assert d.lines == e.lines;
  }

  /** Backspace after an insert takes the character out again. */
  lemma InsertThenDelete(e: Editor, c: char)
    requires Valid(e) && e.col < COLS && |e.lines[e.row]| < COLS
    ensures Delete(Insert(e, c)) == e.(modified := true)
  {
    var line := e.lines[e.row];
    var i := Insert(e, c);
    var grown := line[..e.col] + [c] + line[e.col..];
    assert i.lines[i.row] == grown;
    assert grown[..e.col] + grown[e.col + 1..] == line;
  }

  // ---------------------------------------------------------------------
  // The key loop
  // ---------------------------------------------------------------------

  predicate Printable(c: char) { 0x20 <= c as int < 0x7F }

  /** After a printable key: wrap to a new line once the cursor passes
      column 71, then scroll the cursor into view. */
  function AfterInsert(e: Editor): (r: Editor)
    requires Valid(e)
    ensures Valid(r) && r.scroll <= r.row < r.scroll + VISIBLE_ROWS
    ensures e.col > COLS - 1 && |e.lines| < MAX_LINES ==>
              r.lines == Newline(e).lines && r.row == e.row + 1 && r.col == 0
    ensures e.col <= COLS - 1 || |e.lines| >= MAX_LINES ==>
              r.lines == e.lines && r.row == e.row && r.col == e.col
    ensures Bounded(e) ==> Bounded(r)
  {
    EnsureVisible(if e.col > COLS - 1 then Newline(e) else e)
  }

  /** One pass of the main loop for the key `c`: the editor afterwards and
      whether the loop ends. ESC ends it; code 0 and codes without a
      binding do nothing; the two control codes move the cursor to the
      start or end of the line; Enter and Return split the line, backspace
      deletes, and printable characters are inserted. */
  function Key(e: Editor, c: char): (r: (Editor, bool))
    requires Valid(e)
    ensures Valid(r.0)
    ensures r.1 <==> c == ESC
    ensures Bounded(e) ==> Bounded(r.0)
    ensures r.0.lines != e.lines ==> c == '\n' || c == '\r' || c == BACKSPACE || Printable(c)
    ensures c == '\n' || c == '\r' || c == BACKSPACE || Printable(c) ==>
              r.0.scroll <= r.0.row < r.0.scroll + VISIBLE_ROWS
  {
    if c == ESC then (e, true)
    else if c == 0 as char then (e, false)
    else if c == HOME_KEY then (e.(col := 0), false)
    else if c == END_KEY then (e.(col := |e.lines[e.row]|), false)
    else if c == '\n' || c == '\r' then (EnsureVisible(Newline(e)), false)
    else if c == BACKSPACE then (EnsureVisible(Delete(e)), false)
    else if Printable(c) then (AfterInsert(Insert(e, c)), false)
    else (e, false)
  }

  /** The loop with `ed_insert_char` as written. */
  function KeyAsWritten(e: Editor, c: char): (r: (Editor, bool))
    requires Valid(e)
    ensures Valid(r.0)
    ensures !Printable(c) ==> r == Key(e, c)
  {
    if Printable(c) then (AfterInsert(InsertAsWritten(e, c)), false) else Key(e, c)
  }

  /** Keys in order, until ESC. */
  function Keys(e: Editor, cs: seq<char>): (r: Editor)
    requires Valid(e)
    ensures Valid(r)
    ensures Bounded(e) ==> Bounded(r)
    decreases |cs|
  {
    if cs == [] then e
    else
      var (next, exit) := Key(e, cs[0]);
      if exit then next else Keys(next, cs[1..])
  }

  /** However the keys go, every line keeps fitting its row. */
  lemma KeysFromInitBounded(cs: seq<char>)
    ensures Valid(Keys(Init, cs)) && Bounded(Keys(Init, cs))
  {
    InitValid();
  }

  /** The same character typed `n` times into the loop as written. */
  function TypeAsWritten(e: Editor, c: char, n: nat): (r: Editor)
    requires Valid(e)
    ensures Valid(r)
  {
    if n == 0 then e else KeyAsWritten(TypeAsWritten(e, c, n - 1), c).0
  }

  /** Typing into the start of the welcome line: the cursor only reaches
      column n while the line grows to 27 + n characters. */
  lemma {:induction false} TypingGrowsLine(n: nat)
    requires n <= 46
    ensures var e := TypeAsWritten(Init, 'x', n);
            e.row == 0 && e.col == n && e.scroll == 0 && |e.lines| == 10
            && |e.lines[0]| == 27 + n
  {
    InitValid();
    if n > 0 {
      TypingGrowsLine(n - 1);
    }
  }

  /** After 46 characters the welcome line is 73 long with the cursor at
      column 46, so the 47th keystroke's shift writes byte 73 of a 73-byte
      row: the first byte of the next line. The intended insert refuses
      instead. */
  lemma InsertOverflow()
    ensures var e := TypeAsWritten(Init, 'x', 46);
            && e.col < COLS && InsertWriteIndex(e) == ROW_BYTES
            && InsertAsWritten(e, 'x').col == 47
            && Insert(e, 'x') == e
  {
    TypingGrowsLine(46);
  }
}

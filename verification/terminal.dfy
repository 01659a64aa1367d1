/** The shell's text terminal: an 80 x 28 grid of coloured character cells
    with a cursor, the character output rules (wrap, tab, newline,
    scrolling), the line reader and the uptime arithmetic.

    Drawing cells on the framebuffer is left out: the model keeps the grid
    the drawing reads from. */
module Terminal {
  import opened Hw
  import Libc

  const COLS: nat := 80
  const ROWS: nat := 28
  const INPUT_MAX: nat := 128
  const TEXT_BRIGHT: uint32 := 0x00E0_F0FF
  const BACKGROUND: uint32 := 0x0005_0F18
  const BACKSPACE: char := 8 as char
  const CTRL_C: char := 3 as char

  /** `term_cell_t`. */
  datatype Cell = Cell(ch: char, fg: uint32, bg: uint32)

  const BLANK: Cell := Cell(' ', TEXT_BRIGHT, BACKGROUND)
  /** `n` blank cells. */
  function Blanks(n: nat): (row: seq<Cell>)
    ensures |row| == n && forall c :: 0 <= c < n ==> row[c] == BLANK
  {
    if n == 0 then [] else Blanks(n - 1) + [BLANK]
  }

  const BLANK_ROW: seq<Cell> := Blanks(COLS)

  /** `term_buf` and the cursor `cur_row`, `cur_col`. */
  datatype Term = Term(grid: seq<seq<Cell>>, row: nat, col: nat)

  predicate Shaped(g: seq<seq<Cell>>)
  {
    |g| == ROWS && forall r :: 0 <= r < |g| ==> |g[r]| == COLS
  }

  /** The grid is 28 rows of 80 cells, the cursor on a row and at most one
      past its last column (a full row leaves it at column 80 until the
      next character wraps). */
  predicate Valid(t: Term)
  {
    Shaped(t.grid) && t.row < ROWS && t.col <= COLS
  }

  /** Only the cell at (row, col) may differ between the two grids. */
  predicate OnlyCellChanged(g: seq<seq<Cell>>, h: seq<seq<Cell>>, row: nat, col: nat)
    requires Shaped(g) && Shaped(h)
  {
    forall r, c :: 0 <= r < ROWS && 0 <= c < COLS && (r, c) != (row, col) ==> h[r][c] == g[r][c]
  }

  // ---------------------------------------------------------------------
  // Grid operations
  // ---------------------------------------------------------------------

  function Rows(n: nat): (g: seq<seq<Cell>>)
    ensures |g| == n && forall r :: 0 <= r < n ==> g[r] == BLANK_ROW
  {
    if n == 0 then [] else Rows(n - 1) + [BLANK_ROW]
  }

  /** `term_clear`: every cell blank in the default colours, the cursor
      home. */
  function Clear(): (t: Term)
    ensures Valid(t) && t.row == 0 && t.col == 0
    ensures forall r, c :: 0 <= r < ROWS && 0 <= c < COLS ==> t.grid[r][c] == BLANK
  {
    Term(Rows(ROWS), 0, 0)
  }

  /** `term_scroll`: every row moves up one, the top row is lost, the
      bottom row is blank and the cursor goes to its start. */
  function Scroll(t: Term): (r: Term)
    requires Valid(t)
    ensures Valid(r) && r.row == ROWS - 1 && r.col == 0
    ensures forall k :: 0 <= k < ROWS - 1 ==> r.grid[k] == t.grid[k + 1]
    ensures r.grid[ROWS - 1] == BLANK_ROW
  {
    Term(t.grid[1..] + [BLANK_ROW], ROWS - 1, 0)
  }

  /** `term_newline`: column 0 of the next row, scrolling when the cursor
      was on the last row. */
  function NewLine(t: Term): (r: Term)
    requires Valid(t)
    ensures Valid(r) && r.col == 0
    ensures t.row + 1 < ROWS ==> r == t.(row := t.row + 1, col := 0)
    ensures t.row + 1 == ROWS ==> r == Scroll(t)
  {
    if t.row + 1 >= ROWS then Scroll(t) else t.(row := t.row + 1, col := 0)
  }

  /** `term_putchar` for a character with no special meaning: wrap first
      when the row is full, then store the character with colour `fg` in
      the cursor's cell, keeping that cell's background, and advance. */
  function Put(t: Term, c: char, fg: uint32): (r: Term)
    requires Valid(t)
    ensures Valid(r) && r.col >= 1
    ensures t.col < COLS ==>
              && r.row == t.row && r.col == t.col + 1
              && r.grid[t.row][t.col] == Cell(c, fg, t.grid[t.row][t.col].bg)
              && OnlyCellChanged(t.grid, r.grid, t.row, t.col)
    ensures t.col >= COLS ==>
              && r.row == NewLine(t).row && r.col == 1
              && r.grid[r.row][0] == Cell(c, fg, NewLine(t).grid[r.row][0].bg)
              && OnlyCellChanged(NewLine(t).grid, r.grid, r.row, 0)
  {
    var u := if t.col >= COLS then NewLine(t) else t;
    var cell := u.grid[u.row][u.col];
    u.(grid := u.grid[u.row := u.grid[u.row][u.col := Cell(c, fg, cell.bg)]], col := u.col + 1)
  }

  /** `(col + 4) & ~3`: the next multiple of 4 strictly after `col`. */
  function TabStop(col: nat): (stop: nat)
    ensures col < stop <= col + 4 && stop % 4 == 0
  {
    (col + 4) / 4 * 4
  }

  /** `n` spaces. */
  function Spaces(t: Term, fg: uint32, n: nat): (r: Term)
    requires Valid(t)
    ensures Valid(r)
  {
    if n == 0 then t else Put(Spaces(t, fg, n - 1), ' ', fg)
  }

  /** Spaces that fit in the row fill the cells from the cursor on and
      nothing else. */
  lemma {:induction false} SpacesInRow(t: Term, fg: uint32, n: nat)
    requires Valid(t) && t.col + n <= COLS
    ensures var r := Spaces(t, fg, n);
            && r.row == t.row && r.col == t.col + n
            && (forall c :: t.col <= c < t.col + n ==> r.grid[t.row][c] == Cell(' ', fg, t.grid[t.row][c].bg))
            && (forall q, c :: 0 <= q < ROWS && 0 <= c < COLS && !(q == t.row && t.col <= c < t.col + n)
                  ==> r.grid[q][c] == t.grid[q][c])
  {
    if n > 0 {
      SpacesInRow(t, fg, n - 1);
    }
  }

  /** A tab from a column before 80: spaces up to the next tab stop, which
      is one to four cells on and never past the row's end. */
  function Tab(t: Term, fg: uint32): (r: Term)
    requires Valid(t) && t.col < COLS
    ensures Valid(r) && r.row == t.row && r.col == TabStop(t.col) <= COLS
    ensures 1 <= r.col - t.col <= 4 && r.col % 4 == 0
    ensures forall c :: t.col <= c < r.col ==> r.grid[t.row][c] == Cell(' ', fg, t.grid[t.row][c].bg)
    ensures forall q, c :: 0 <= q < ROWS && 0 <= c < COLS && !(q == t.row && t.col <= c < r.col)
              ==> r.grid[q][c] == t.grid[q][c]
  {
    SpacesInRow(t, fg, TabStop(t.col) - t.col);
    Spaces(t, fg, TabStop(t.col) - t.col)
  }

  /** Why a tab needs a column before 80: from column 80 the stop is 84,
      but every space leaves the cursor at column 80 or less, so the loop
      writing spaces never reaches it. */
  lemma TabFromFullRowNeverEnds(t: Term, fg: uint32, n: nat)
    requires Valid(t) && t.col == COLS
    ensures Spaces(t, fg, n).col < TabStop(t.col)
  {
  }

  /** `term_putchar`: newline, carriage return (column 0, same row), tab,
      or an ordinary character. */
  function Putchar(t: Term, c: char, fg: uint32): (r: Term)
    requires Valid(t) && (c == '\t' ==> t.col < COLS)
    ensures Valid(r)
    ensures c == '\r' ==> r == t.(col := 0)
  {
    if c == '\n' then NewLine(t)
    else if c == '\r' then t.(col := 0)
    else if c == '\t' then Tab(t, fg)
    else Put(t, c, fg)
  }

  /** `term_puts` for text without tabs (nothing the shell prints has one). */
  function Puts(t: Term, s: string, fg: uint32): (r: Term)
    requires Valid(t) && '\t' !in s
    ensures Valid(r)
    decreases |s|
  {
    if s == [] then t else Puts(Putchar(t, s[0], fg), s[1..], fg)
  }

  /** Ordinary text that fits the rest of the row is written into it, one
      character per cell. */
  lemma {:induction false} PutsInRow(t: Term, s: string, fg: uint32)
    requires Valid(t) && t.col + |s| <= COLS
    requires forall i :: 0 <= i < |s| ==> 0x20 <= s[i] as int < 0x7F
    ensures '\t' !in s
    ensures var r := Puts(t, s, fg);
            && r.row == t.row && r.col == t.col + |s|
            && (forall i :: 0 <= i < |s| ==> r.grid[t.row][t.col + i] == Cell(s[i], fg, t.grid[t.row][t.col + i].bg))
            && (forall q, c :: 0 <= q < ROWS && 0 <= c < COLS && !(q == t.row && t.col <= c < t.col + |s|)
                  ==> r.grid[q][c] == t.grid[q][c])
    decreases |s|
  {
    assert forall i :: 0 <= i < |s| ==> s[i] != '\t';
    if s != [] {
      var u := Putchar(t, s[0], fg);
      PutsInRow(u, s[1..], fg);
      var r := Puts(u, s[1..], fg);
      forall i | 0 <= i < |s|
        ensures r.grid[t.row][t.col + i] == Cell(s[i], fg, t.grid[t.row][t.col + i].bg)
      {
        if i > 0 {
          assert s[1..][i - 1] == s[i];
        }
      }
    }
  }

  /** `term_puts_ln`. */
  function PutsLn(t: Term, s: string, fg: uint32): (r: Term)
    requires Valid(t) && '\t' !in s
    ensures Valid(r) && r.col == 0
  {
    NewLine(Puts(t, s, fg))
  }

  // ---------------------------------------------------------------------
  // Reading a line
  // ---------------------------------------------------------------------

  /** The reader's state between keys: the terminal and the characters
      accepted so far. */
  datatype Line = Line(term: Term, buf: seq<char>)

  /** Still reading, or finished with the text left in the caller's
      buffer and the return value. */
  datatype Outcome = Reading(line: Line) | Entered(term: Term, text: seq<char>, ret: int)

  predicate Printable(c: char) { 0x20 <= c as int < 0x7F }

  /** What `term_readline` keeps true: a valid terminal and at most
      `max - 1` printable characters, leaving room for the NUL. */
  predicate Good(l: Line, max: int)
  {
    Valid(l.term) && |l.buf| <= max - 1 && forall i :: 0 <= i < |l.buf| ==> Printable(l.buf[i])
  }

  /** One key of `term_readline`. Enter or Return ends the line and returns
      its length; backspace takes back the last character, blanking the
      cell before the cursor (never moving left of column 0), and does
      nothing on an empty line; Ctrl+C ends with an empty buffer and -1; a
      printable character is accepted while there is room; anything else
      is ignored. */
  function ReadKey(l: Line, c: char, max: int): (o: Outcome)
    requires max >= 1 && Good(l, max)
    ensures o.Reading? ==> Good(o.line, max)
    ensures o.Entered? ==> Valid(o.term) && o.term.col == 0
    ensures (c == '\n' || c == '\r') ==> o == Entered(NewLine(l.term), l.buf, |l.buf|)
    ensures c == CTRL_C ==> o == Entered(NewLine(l.term), [], -1)
    ensures c == BACKSPACE ==> o.Reading? && (l.buf == [] ==> o.line == l)
                               && (l.buf != [] ==> o.line.buf == l.buf[..|l.buf| - 1]
                                                   && o.line.term.row == l.term.row
                                                   && o.line.term.col == if l.term.col == 0 then 0 else l.term.col - 1)
    ensures o.Reading? && o.line.buf != l.buf ==>
              (c == BACKSPACE && l.buf != []) || (Printable(c) && o.line.buf == l.buf + [c])
  {
    if c == '\n' || c == '\r' then Entered(NewLine(l.term), l.buf, |l.buf|)
    else if c == BACKSPACE then
      if |l.buf| > 0 then
        var t := l.term;
        var col := if t.col == 0 then 0 else t.col - 1;
        var cell := t.grid[t.row][col];
        Reading(Line(t.(grid := t.grid[t.row := t.grid[t.row][col := cell.(ch := ' ')]], col := col), l.buf[..|l.buf| - 1]))
      else Reading(l)
    else if c == CTRL_C then Entered(NewLine(l.term), [], -1)
    else if |l.buf| < max - 1 && Printable(c) then
      Reading(Line(Put(l.term, c, TEXT_BRIGHT), l.buf + [c]))
    else Reading(l)
  }

  /** Keys in order until the line is entered. */
  function ReadLine(l: Line, keys: seq<char>, max: int): (o: Outcome)
    requires max >= 1 && Good(l, max)
    ensures o.Reading? ==> Good(o.line, max)
    ensures o.Entered? ==> Valid(o.term) && o.term.col == 0 && (o.ret == -1 || o.ret == |o.text|)
    decreases |keys|
  {
    if keys == [] then Reading(l)
    else
      var o := ReadKey(l, keys[0], max);
      if o.Entered? then o else ReadLine(o.line, keys[1..], max)
  }

  /** Whatever is typed, an entered line is either cancelled (-1, empty
      buffer) or at most `max - 1` printable characters whose count is
      returned; with its NUL the caller's buffer reads back as that text. */
  lemma {:induction false} ReadLineResult(l: Line, keys: seq<char>, max: int)
    requires max >= 1 && Good(l, max)
    ensures var o := ReadLine(l, keys, max);
            && (o.Reading? ==> Good(o.line, max))
            && (o.Entered? ==>
                  && Valid(o.term)
                  && (o.ret == -1 ==> o.text == [])
                  && (o.ret != -1 ==> o.ret == |o.text| <= max - 1)
                  && (forall i :: 0 <= i < |o.text| ==> Printable(o.text[i]))
                  && Libc.NUL !in o.text && Libc.Text(o.text + [Libc.NUL]) == o.text)
    decreases |keys|
  {
    if keys == [] {
    } else {
      var o := ReadKey(l, keys[0], max);
      if o.Entered? {
        assert forall i :: 0 <= i < |o.text| ==> Printable(o.text[i]);
        assert Libc.NUL !in o.text by {
          assert forall i :: 0 <= i < |o.text| ==> o.text[i] != Libc.NUL;
        }
        Libc.TextOfLiteral(o.text);
      } else {
        ReadLineResult(o.line, keys[1..], max);
      }
    }
  }

  /** Backspace right after a character typed mid-row takes it back: the
      buffer and the cursor are as before. */
  lemma TypeThenErase(l: Line, c: char, max: int)
    requires max >= 1 && Good(l, max) && Printable(c) && |l.buf| < max - 1 && l.term.col < COLS
    ensures var o := ReadKey(l, c, max);
            && o.Reading? && o.line.buf == l.buf + [c]
            && var back := ReadKey(o.line, BACKSPACE, max);
               back.Reading? && back.line.buf == l.buf
               && back.line.term.row == l.term.row && back.line.term.col == l.term.col
  {
    var o := ReadKey(l, c, max);
    assert (l.buf + [c])[..|l.buf|] == l.buf;
  }

  // ---------------------------------------------------------------------
  // Uptime
  // ---------------------------------------------------------------------

  datatype Uptime = Uptime(hours: nat, minutes: nat, seconds: nat)

  /** `cmd_uptime`: ticks at 100 per second, split into hours, minutes and
      seconds. */
  function UptimeOf(ticks: uint32): (u: Uptime)
    ensures u.minutes < 60 && u.seconds < 60
  {
    var secs := ticks / 100;
    var mins := secs / 60;
    Uptime(mins / 60, mins % 60, secs % 60)
  }

  /** The three fields add back up to the whole seconds elapsed. */
  lemma UptimeAddsUp(ticks: uint32)
    ensures var u := UptimeOf(ticks);
            u.hours * 3600 + u.minutes * 60 + u.seconds == ticks / 100
  {
    var secs := ticks / 100;
    var mins := secs / 60;
    assert secs == mins * 60 + secs % 60;
    assert mins == (mins / 60) * 60 + mins % 60;
  }
}

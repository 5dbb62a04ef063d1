/** The text terminal: 25 rows of 80 cells that show the end of an unbounded log. */
module Terminal {

  const WIDTH := 80
  const HEIGHT := 25
  const WHITE := 15
  const BLACK := 0
  const BACKSPACE := '\U{0008}'

  datatype Cell = Cell(c: char, fg: nat, bg: nat)

  const BLANK := Cell(' ', WHITE, BLACK)

  // ---- copying forward ----

  // The loop of memcpy: elements are read as earlier rounds have left them.
  function CopyForward<T>(s: seq<T>, des: nat, src: nat, n: nat): (r: seq<T>)
    requires des + n <= |s| && src + n <= |s|
    ensures |r| == |s|
  {
    if n == 0 then s
    else
      var t := CopyForward(s, des, src, n - 1);
      t[des + n - 1 := t[src + n - 1]]
  }

  // What a copy is meant to do.
  function Copied<T>(s: seq<T>, des: nat, src: nat, n: nat): seq<T>
    requires des + n <= |s| && src + n <= |s|
  {
    s[..des] + s[src..src + n] + s[des + n..]
  }

  lemma {:induction false} CopyDown<T>(s: seq<T>, des: nat, src: nat, n: nat)
    requires des + n <= |s| && src + n <= |s| && (des <= src || src + n <= des)
    ensures CopyForward(s, des, src, n) == Copied(s, des, src, n)
  {
    if n > 0 {
      CopyDown(s, des, src, n - 1);
      CopiedStep(s, des, src, n);
    } else {
      assert s[..des] + s[src..src] + s[des..] == s;
    }
  }

  lemma CopiedStep<T>(s: seq<T>, des: nat, src: nat, n: nat)
    requires 0 < n && des + n <= |s| && src + n <= |s| && (des <= src || src + n <= des)
    ensures var t := Copied(s, des, src, n - 1);
      Copied(s, des, src, n) == t[des + n - 1 := t[src + n - 1]]
  {
    var t, u := Copied(s, des, src, n - 1), Copied(s, des, src, n);
    assert t[src + n - 1] == s[src + n - 1];
    forall i: nat | i < |s| ensures u[i] == t[des + n - 1 := t[src + n - 1]][i] {
      if i < des {
      } else if i < des + n - 1 {
        assert t[i] == s[src + (i - des)] == u[i];
      }
    }
  }

  lemma {:induction false} CopyUp(s: seq<nat>, des: nat, src: nat, n: nat, i: nat)
    requires des + n <= |s| && src + n <= |s| && src < des < src + n
    requires i < n
    ensures var k := if i < des - src then i else i - (des - src);
      i < 2 * (des - src) ==> CopyForward(s, des, src, i + 1)[des + i] == s[src + k]
    ensures forall j: nat :: j < |s| && (j < des || j >= des + i + 1) ==> CopyForward(s, des, src, i + 1)[j] == s[j]
    decreases i
  {
    if i > 0 {
      CopyUp(s, des, src, n, i - 1);
      var d := des - src;
      if d <= i < 2 * d {
        CopyStays(s, des, src, i - d + 1, i);
        CopyUp(s, des, src, n, i - d);
      }
    }
  }

  // Later rounds do not touch what an earlier round wrote.
  lemma {:induction false} CopyStays(s: seq<nat>, des: nat, src: nat, m: nat, n: nat)
    requires 0 < m <= n && des + n <= |s| && src + n <= |s|
    ensures CopyForward(s, des, src, n)[des + m - 1] == CopyForward(s, des, src, m)[des + m - 1]
    decreases n
  {
    if m < n {
      CopyStays(s, des, src, m, n - 1);
    }
  }

  /** memcpy copies ascending; on overlapping ranges that is right exactly when the destination
      does not lie inside the source ahead of it. */
  lemma CopyForwardIsCopy(size: nat, des: nat, src: nat, n: nat)
    requires des + n <= size && src + n <= size
    ensures (des <= src || src + n <= des) <==>
      forall s: seq<nat> :: |s| == size ==> CopyForward(s, des, src, n) == Copied(s, des, src, n)
  {
    if des <= src || src + n <= des {
      forall s: seq<nat> | |s| == size ensures CopyForward(s, des, src, n) == Copied(s, des, src, n) {
        CopyDown(s, des, src, n);
      }
    } else {
      var s: seq<nat> := seq(size, i requires 0 <= i < size => i);
      var d := des - src;
      CopyUp(s, des, src, n, d);
      CopyStays(s, des, src, d + 1, n);
      assert CopyForward(s, des, src, n)[des + d] == s[src];
      assert Copied(s, des, src, n)[des + d] == s[src + d];
    }
  }

  method Memcpy<T>(a: array<T>, des: nat, src: nat, n: nat)
    requires des + n <= a.Length && src + n <= a.Length
    modifies a
    ensures a[..] == CopyForward(old(a[..]), des, src, n)
  {
    for i := 0 to n
      invariant a[..] == CopyForward(old(a[..]), des, src, i)
    {
      a[des + i] := a[src + i];
    }
  }

  // ---- the log ----

  /** Every row ever written, the cursor in the last one. */
  datatype Log = Log(rows: seq<seq<Cell>>, col: nat)

  function BlankRow(): (r: seq<Cell>)
    ensures |r| == WIDTH
  {
    seq(WIDTH, i => BLANK)
  }

  const EMPTY := Log([BlankRow()], 0)

  ghost predicate WellFormed(l: Log) {
    && l.rows != [] && l.col <= WIDTH
    && forall r: nat :: r < |l.rows| ==> |l.rows[r]| == WIDTH
  }

  function Last(l: Log): (n: nat)
    requires l.rows != []
  {
    |l.rows| - 1
  }

  function SetCell(l: Log, c: Cell): Log
    requires l.rows != [] && l.col < |l.rows[Last(l)]|
  {
    l.(rows := l.rows[Last(l) := l.rows[Last(l)][l.col := c]])
  }

  function NewRow(l: Log): Log {
    Log(l.rows + [BlankRow()], 0)
  }

  // One character on the log: no scrolling, just another row when one is needed.
  function Put(l: Log, c: char): Log
    requires WellFormed(l)
  {
    if c == '\r' then l.(col := 0)
    else if c == BACKSPACE then
      if l.col > 0 then
        var m := l.(col := l.col - 1);
        SetCell(m, m.rows[Last(m)][m.col].(c := ' '))
      else l
    else if c == '\n' then NewRow(l)
    else
      var m := if l.col == WIDTH then NewRow(l) else l;
      SetCell(m, Cell(c, WHITE, BLACK)).(col := m.col + 1)
  }

  lemma PutWellFormed(l: Log, c: char)
    requires WellFormed(l)
    ensures WellFormed(Put(l, c))
  {
  }

  function PutAll(l: Log, text: seq<char>): (r: Log)
    requires WellFormed(l)
    ensures WellFormed(r)
    decreases text
  {
    if text == [] then l
    else
      PutWellFormed(l, text[0]);
      PutAll(Put(l, text[0]), text[1..])
  }

  // The first row of the log that the screen shows.
  function TopRow(l: Log): nat {
    if |l.rows| <= HEIGHT then 0 else |l.rows| - HEIGHT
  }

  // What the screen shows at row r: the last rows of the log, blank below them.
  function Shown(l: Log, r: nat): seq<Cell> {
    if TopRow(l) + r < |l.rows| then l.rows[TopRow(l) + r] else BlankRow()
  }

  class Screen {
    const term: array<Cell>
    var row: nat
    var col: nat
    ghost var log: Log

    // The cells show the end of the log and the cursor is where the log has it.
    ghost predicate Valid()
      reads this, term
    {
      && ShowsLog(log, term[..])
      && row == Last(log) - TopRow(log) && col == log.col
    }

    // term_init, after the pointer to the text buffer is set up.
    constructor (term: array<Cell>)
      requires term.Length == WIDTH * HEIGHT
      modifies term
      ensures Valid() && this.term == term && log == EMPTY
    {
      this.term := term;
      row, col := 0, 0;
      log := EMPTY;
      new;
      TermClear();
    }

    method TermClear()
      requires term.Length == WIDTH * HEIGHT
      modifies this, term
      ensures Valid() && log == EMPTY
    {
      for i := 0 to WIDTH * HEIGHT
        invariant forall j: nat :: j < i ==> term[j] == BLANK
      {
        term[i] := BLANK;
      }
      col, row := 0, 0;
      log := EMPTY;
      assert ShowsLog(EMPTY, term[..]) by {
        forall r: nat, j: nat | r < HEIGHT && j < WIDTH ensures CellShown(EMPTY, term[..], r, j) {
          assert r * WIDTH + j < WIDTH * HEIGHT;
        }
      }
    }

    /** The screen follows the log, one character at a time. */
    method TermPutchar(c: char)
      requires Valid()
      modifies this, term
      ensures Valid() && log == Put(old(log), c) && row < HEIGHT && col <= WIDTH
    {
      hide CellShown, Shown;
      ghost var l := log;
      ghost var cells := term[..];
      PutWellFormed(l, c);
      if c == '\r' {
        col := 0;
        ColumnMoved(l, 0, cells);
        log := Put(l, c);
        return;
      } else if c == BACKSPACE {
        if col > 0 {
          col := col - 1;
          term[row * WIDTH + col] := term[row * WIDTH + col].(c := ' ');
          ColumnMoved(l, col, cells);
          BackspaceCell(l, cells, row);
          CellWritten(l.(col := col), cells, term[..], row, term[row * WIDTH + col]);
          log := Put(l, c);
        }
        return;
      }
      ghost var m := l;
      if c == '\n' {
        col := 0;
        row := row + 1;
        m := NewRow(l);
        ScrollIfNeeded(l);
      } else if col == WIDTH {
        col := 0;
        row := row + 1;
        m := NewRow(l);
        ScrollIfNeeded(l);
      }
      if c != '\n' {
        ghost var now := term[..];
        term[col + row * WIDTH] := Cell(c, WHITE, BLACK);
        CellWritten(m, now, term[..], row, Cell(c, WHITE, BLACK));
        col := col + 1;
        ColumnMoved(SetCell(m, Cell(c, WHITE, BLACK)), col, term[..]);
      }
      log := Put(l, c);
    }

    // The cursor has moved down a row: scroll if it has left the screen.
    method ScrollIfNeeded(ghost l: Log)
      requires ShowsLog(l, term[..]) && row == Last(l) - TopRow(l) + 1
      modifies this`row, term
      ensures ShowsLog(NewRow(l), term[..]) && row == Last(NewRow(l)) - TopRow(NewRow(l))
    {
      hide CellShown, Shown;
      if row == HEIGHT {
        ghost var cells := term[..];
        Memcpy(term, 0, WIDTH, WIDTH * (HEIGHT - 1));
        CopyDown(cells, 0, WIDTH, WIDTH * (HEIGHT - 1));
        ghost var shifted := term[..];
        row := row - 1;
        for i := 0 to WIDTH
          invariant row == HEIGHT - 1
          invariant forall j: nat :: j < WIDTH * HEIGHT ==>
            term[j] == if row * WIDTH <= j < row * WIDTH + i then BLANK else shifted[j]
        {
          term[i + row * WIDTH] := BLANK;
        }
        Scrolled(l, cells, term[..]);
      } else {
        RowAdded(l, term[..]);
      }
    }

    method TermWrite(text: seq<char>)
      requires Valid()
      modifies this, term
      ensures Valid() && log == PutAll(old(log), text)
    {
      for i := 0 to |text|
        invariant Valid() && PutAll(log, text[i..]) == PutAll(old(log), text)
      {
        assert text[i..][1..] == text[i + 1..];
        TermPutchar(text[i]);
      }
    }
  }

  // ---- the screen as a value ----

  ghost predicate ShowsLog(l: Log, cells: seq<Cell>) {
    && |cells| == WIDTH * HEIGHT && WellFormed(l)
    && forall r: nat, j: nat :: r < HEIGHT && j < WIDTH ==> CellShown(l, cells, r, j)
  }

  predicate CellShown(l: Log, cells: seq<Cell>, r: nat, j: nat)
    requires |cells| == WIDTH * HEIGHT && r < HEIGHT && j < WIDTH
  {
    |Shown(l, r)| == WIDTH && cells[r * WIDTH + j] == Shown(l, r)[j]
  }

  lemma CellWritten(l: Log, before: seq<Cell>, after: seq<Cell>, row: nat, c: Cell)
    requires ShowsLog(l, before) && l.col < WIDTH && row == Last(l) - TopRow(l)
    requires after == before[row * WIDTH + l.col := c]
    ensures ShowsLog(SetCell(l, c), after)
  {
    var m := SetCell(l, c);
    forall r: nat, j: nat | r < HEIGHT && j < WIDTH ensures CellShown(m, after, r, j) {
      assert CellShown(l, before, r, j);
    }
  }

  lemma BackspaceCell(l: Log, cells: seq<Cell>, row: nat)
    requires ShowsLog(l, cells) && 0 < l.col && row == Last(l) - TopRow(l)
    ensures cells[row * WIDTH + (l.col - 1)] == l.rows[Last(l)][l.col - 1]
  {
    assert CellShown(l, cells, row, l.col - 1);
  }

  // Moving the cursor within its row shows the same.
  lemma ColumnMoved(l: Log, col: nat, cells: seq<Cell>)
    requires ShowsLog(l, cells) && col <= WIDTH
    ensures ShowsLog(l.(col := col), cells)
  {
    forall r: nat, j: nat | r < HEIGHT && j < WIDTH ensures CellShown(l.(col := col), cells, r, j) {
      assert CellShown(l, cells, r, j);
    }
  }

  lemma RowAdded(l: Log, cells: seq<Cell>)
    requires ShowsLog(l, cells) && Last(l) - TopRow(l) + 1 < HEIGHT
    ensures ShowsLog(NewRow(l), cells)
  {
    forall r: nat, j: nat | r < HEIGHT && j < WIDTH ensures CellShown(NewRow(l), cells, r, j) {
      assert CellShown(l, cells, r, j);
    }
  }

  lemma Scrolled(l: Log, before: seq<Cell>, after: seq<Cell>)
    requires ShowsLog(l, before) && Last(l) - TopRow(l) + 1 == HEIGHT && |after| == WIDTH * HEIGHT
    requires forall j: nat :: j < WIDTH * (HEIGHT - 1) ==> after[j] == before[j + WIDTH]
    requires forall j: nat :: WIDTH * (HEIGHT - 1) <= j < WIDTH * HEIGHT ==> after[j] == BLANK
    ensures ShowsLog(NewRow(l), after)
  {
    var m := NewRow(l);
    forall r: nat, j: nat | r < HEIGHT && j < WIDTH ensures CellShown(m, after, r, j) {
      if r + 1 < HEIGHT {
        assert CellShown(l, before, r + 1, j);
        assert after[r * WIDTH + j] == before[(r + 1) * WIDTH + j];
      }
    }
  }

  // ---- what the log is ----

  predicate Printable(text: seq<char>) {
    forall i: nat :: i < |text| ==> text[i] != '\r' && text[i] != BACKSPACE && text[i] != '\n'
  }

  // The characters before the cursor, row after row.
  function Text(l: Log): seq<char>
    requires WellFormed(l)
  {
    Chars(Flat(l.rows, Last(l)) + l.rows[Last(l)][..l.col])
  }

  function Flat(rows: seq<seq<Cell>>, n: nat): seq<Cell>
    requires n <= |rows|
  {
    if n == 0 then [] else Flat(rows, n - 1) + rows[n - 1]
  }

  function Chars(cells: seq<Cell>): seq<char> {
    seq(|cells|, i requires 0 <= i < |cells| => cells[i].c)
  }

  /** Plain text is kept whole: whatever is written from an empty screen can be read back
      from the log, wrapped at column 80. */
  lemma {:induction false} PlainTextKept(l: Log, text: seq<char>)
    requires WellFormed(l) && Printable(text)
    ensures Text(PutAll(l, text)) == Text(l) + text
    decreases text
  {
    if text != [] {
      var m := Put(l, text[0]);
      PutWellFormed(l, text[0]);
      PlainChar(l, text[0]);
      PlainTextKept(m, text[1..]);
      assert Text(l) + [text[0]] + text[1..] == Text(l) + text;
    } else {
      assert Text(l) + text == Text(l);
    }
  }

  lemma {:induction false} FlatSame(a: seq<seq<Cell>>, b: seq<seq<Cell>>, n: nat)
    requires n <= |a| && n <= |b| && a[..n] == b[..n]
    ensures Flat(a, n) == Flat(b, n)
  {
    if n > 0 {
      assert a[..n][n - 1] == b[..n][n - 1];
      assert a[..n][..n - 1] == a[..n - 1] && b[..n][..n - 1] == b[..n - 1];
      FlatSame(a, b, n - 1);
    }
  }

  lemma PlainChar(l: Log, c: char)
    requires WellFormed(l) && c != '\r' && c != BACKSPACE && c != '\n'
    ensures WellFormed(Put(l, c)) && Text(Put(l, c)) == Text(l) + [c]
  {
    PutWellFormed(l, c);
    var m := if l.col == WIDTH then NewRow(l) else l;
    if l.col == WIDTH {
      FlatSame(l.rows, m.rows, Last(l));
      assert l.rows[Last(l)][..WIDTH] == l.rows[Last(l)];
      assert m.rows[Last(l)] == l.rows[Last(l)];
      assert Flat(m.rows, Last(m)) == Flat(l.rows, Last(l)) + l.rows[Last(l)];
    }
    var p := Put(l, c);
    FlatSame(m.rows, p.rows, Last(m));
    assert p.rows[Last(m)][..p.col] == m.rows[Last(m)][..m.col] + [Cell(c, WHITE, BLACK)];
    assert Chars(Flat(m.rows, Last(m)) + m.rows[Last(m)][..m.col]) == Text(l);
  }

  // ---- what the screen shows ----

  /** Row r of the screen is row r of the log while that has at most 25 rows, and later the
      r-th of its last 25; the rest is white blanks on black. */
  lemma ScreenIsTail(l: Log, cells: seq<Cell>, r: nat, j: nat)
    requires ShowsLog(l, cells) && r < 25 && j < 80
    ensures |l.rows| <= r ==> cells[80 * r + j] == Cell(' ', 15, 0)
    ensures r < |l.rows| <= 25 ==> cells[80 * r + j] == l.rows[r][j]
    ensures |l.rows| > 25 ==> cells[80 * r + j] == l.rows[|l.rows| - 25 + r][j]
  {
    assert CellShown(l, cells, r, j);
  }

  // The rows that a line takes: its character 80 r + j in column j of row r, blanks after it.
  function RowsOf(line: seq<char>): (n: nat)
    ensures n >= 1 && 80 * (n - 1) <= |line| <= 80 * n
    ensures line != [] ==> 80 * (n - 1) < |line|
  {
    if line == [] then 1 else (|line| + 79) / 80
  }

  function Place(line: seq<char>, i: nat): Cell {
    if i < |line| then Cell(line[i], 15, 0) else Cell(' ', 15, 0)
  }

  function Wrapped(line: seq<char>): (rows: seq<seq<Cell>>)
    ensures |rows| == RowsOf(line)
  {
    seq(RowsOf(line), r requires 0 <= r < RowsOf(line) => seq(80, j requires 0 <= j < 80 => Place(line, 80 * r + j)))
  }

  // The log once the line is written at the start of the last row of l.
  function After(l: Log, line: seq<char>): Log
    requires l.rows != []
  {
    Log(l.rows[..Last(l)] + Wrapped(line), |line| - 80 * (RowsOf(line) - 1))
  }

  lemma AfterChar(l: Log, line: seq<char>, c: char)
    requires l.rows != [] && WellFormed(After(l, line)) && Printable([c])
    ensures Put(After(l, line), c) == After(l, line + [c])
  {
    var a, b := After(l, line), After(l, line + [c]);
    var p := Put(a, c);
    assert [c][0] == c;
    assert |p.rows| == |b.rows| && p.col == b.col;
    forall r: nat | r < |b.rows| ensures p.rows[r] == b.rows[r] {
      if Last(l) <= r {
        AfterCell(l, line, c, r);
      }
    }
  }

  lemma AfterCell(l: Log, line: seq<char>, c: char, r: nat)
    requires l.rows != [] && WellFormed(After(l, line)) && Printable([c])
    requires Last(l) <= r < |After(l, line + [c]).rows|
    ensures r < |Put(After(l, line), c).rows| && Put(After(l, line), c).rows[r] == After(l, line + [c]).rows[r]
  {
    var a, b := After(l, line), After(l, line + [c]);
    var p := Put(a, c);
    assert [c][0] == c;
    forall j: nat | j < 80 ensures p.rows[r][j] == b.rows[r][j] {
      var i := 80 * (r - Last(l)) + j;
      assert b.rows[r][j] == Place(line + [c], i);
      if r < |a.rows| {
        assert a.rows[r][j] == Place(line, i);
      }
    }
  }

  /** A line of plain text, from the start of a blank row, fills row after row of 80 columns
      in white on black and leaves the cursor behind its last character. */
  lemma {:induction false} LineWritten(l: Log, line: seq<char>)
    requires WellFormed(l) && l.col == 0 && l.rows[Last(l)] == BlankRow() && Printable(line)
    ensures PutAll(l, line) == After(l, line)
    decreases |line|
  {
    if line == [] {
      NoLine();
      assert l.rows[..Last(l)] + [BlankRow()] == l.rows;
    } else {
      var front, c := line[..|line| - 1], line[|line| - 1];
      assert front + [c] == line;
      LineWritten(l, front);
      PutAllAppend(l, front, [c]);
      AfterChar(l, front, c);
    }
  }

  lemma NoLine()
    ensures Wrapped([]) == [BlankRow()]
  {
    var none: seq<char> := [];
    var row := Wrapped(none)[0];
    assert |row| == 80;
    forall j: nat | j < 80 ensures row[j] == BlankRow()[j] {
      assert row[j] == Place(none, 80 * 0 + j);
    }
    assert row == BlankRow();
    assert Wrapped(none) == [row];
  }

  lemma {:induction false} PutAllAppend(l: Log, a: seq<char>, b: seq<char>)
    requires WellFormed(l)
    ensures PutAll(l, a + b) == PutAll(PutAll(l, a), b)
    decreases |a|
  {
    if a == [] {
      assert a + b == b;
    } else {
      PutWellFormed(l, a[0]);
      assert (a + b)[1..] == a[1..] + b;
      PutAllAppend(Put(l, a[0]), a[1..], b);
    }
  }

  function Joined(lines: seq<seq<char>>): seq<char>
    requires lines != []
  {
    if |lines| == 1 then lines[0] else Joined(lines[..|lines| - 1]) + "\n" + lines[|lines| - 1]
  }

  function AllRows(lines: seq<seq<char>>): seq<seq<Cell>> {
    if lines == [] then [] else AllRows(lines[..|lines| - 1]) + Wrapped(lines[|lines| - 1])
  }

  ghost predicate AllPrintable(lines: seq<seq<char>>) {
    forall i: nat :: i < |lines| ==> Printable(lines[i])
  }

  /** Text on a cleared terminal: every line starts a row of its own and is wrapped at column
      80, and the cursor is behind the last character. */
  lemma {:induction false} LinesWritten(lines: seq<seq<char>>)
    requires lines != [] && AllPrintable(lines)
    ensures var l := PutAll(EMPTY, Joined(lines));
      var last := lines[|lines| - 1];
      l.rows == AllRows(lines) && l.col == |last| - 80 * (RowsOf(last) - 1)
    decreases |lines|
  {
    var front, last := lines[..|lines| - 1], lines[|lines| - 1];
    if |lines| == 1 {
      LineWritten(EMPTY, last);
      assert AllRows(front) == [] && EMPTY.rows[..0] == [];
    } else {
      LinesWritten(front);
      PutAllAppend(EMPTY, Joined(front) + "\n", last);
      PutAllAppend(EMPTY, Joined(front), "\n");
      var before := PutAll(EMPTY, Joined(front));
      Newline(before);
      var m := NewRow(before);
      LineWritten(m, last);
      assert m.rows[..Last(m)] == before.rows;
    }
  }

  lemma Newline(l: Log)
    requires WellFormed(l)
    ensures PutAll(l, "\n") == NewRow(l) && WellFormed(NewRow(l))
  {
    PutWellFormed(l, '\n');
    assert "\n"[1..] == [];
  }

  /** The two lines a and b of at most 80 characters are rows 0 and 1, padded with blanks. */
  lemma TwoLines(a: seq<char>, b: seq<char>, j: nat)
    requires Printable(a) && Printable(b) && |a| <= 80 && |b| <= 80 && j < 80
    ensures var l := PutAll(EMPTY, a + "\n" + b);
      && |l.rows| == 2 && l.col == |b|
      && l.rows[0][j] == Cell(if j < |a| then a[j] else ' ', 15, 0)
      && l.rows[1][j] == Cell(if j < |b| then b[j] else ' ', 15, 0)
  {
    var lines := [a, b];
    assert lines[..1] == [a] && [a][..0] == [];
    assert Joined(lines) == a + "\n" + b;
    assert AllRows([a]) == Wrapped(a);
    assert AllRows(lines) == Wrapped(a) + Wrapped(b);
    LinesWritten(lines);
    assert Wrapped(a)[0][j] == Place(a, j) && Wrapped(b)[0][j] == Place(b, j);
  }

  // ---- taking characters back and writing over them ----

  function Backspaces(k: nat): (s: seq<char>)
    ensures |s| == k
  {
    seq(k, i => BACKSPACE)
  }

  /** Backspace takes back the characters of the row one by one and leaves blanks; at the
      start of the row nothing changes, however often it is pressed. */
  lemma {:induction false} BackspaceErases(l: Log, line: seq<char>, k: nat)
    requires WellFormed(l) && l.col == 0 && l.rows[Last(l)] == BlankRow()
    requires Printable(line) && |line| <= 80
    ensures PutAll(l, line + Backspaces(k)) == PutAll(l, if k <= |line| then line[..|line| - k] else [])
    decreases k
  {
    if k == 0 {
      assert line + Backspaces(0) == line && line[..|line|] == line;
    } else {
      var left := if k - 1 <= |line| then line[..|line| - (k - 1)] else [];
      assert line + Backspaces(k) == (line + Backspaces(k - 1)) + [BACKSPACE];
      PutAllAppend(l, line + Backspaces(k - 1), [BACKSPACE]);
      BackspaceErases(l, line, k - 1);
      LineWritten(l, left);
      if left == [] {
        assert PutAll(l, []) == l;
      } else {
        var less := left[..|left| - 1];
        assert less == line[..|line| - k];
        LineWritten(l, less);
        OneErased(l, left);
      }
    }
  }

  lemma OneErased(l: Log, line: seq<char>)
    requires WellFormed(l) && WellFormed(After(l, line)) && 0 < |line| <= 80
    ensures Put(After(l, line), BACKSPACE) == After(l, line[..|line| - 1])
  {
    var a, less := After(l, line), line[..|line| - 1];
    var p, b := Put(a, BACKSPACE), After(l, less);
    assert RowsOf(line) == 1 == RowsOf(less);
    forall j: nat | j < 80 ensures p.rows[Last(l)][j] == b.rows[Last(l)][j] {
      assert a.rows[Last(l)][j] == Place(line, j) && b.rows[Last(l)][j] == Place(less, j);
    }
    assert p.rows[Last(l)] == b.rows[Last(l)];
    assert p.rows == b.rows;
  }

  /** A character typed and taken back, anywhere: the text before the cursor is as it was, and
      the cursor stands on a blank in white on black. */
  lemma TypedAndErased(l: Log, c: char)
    requires WellFormed(l) && Printable([c])
    ensures var p := Put(l, c);
      WellFormed(p) && var e := Put(p, BACKSPACE);
      && WellFormed(e) && Text(e) == Text(l) && e.col < 80
      && e.rows[Last(e)][e.col] == Cell(' ', 15, 0)
  {
    assert [c][0] == c;
    PutWellFormed(l, c);
    var p := Put(l, c);
    PutWellFormed(p, BACKSPACE);
    var e := Put(p, BACKSPACE);
    PlainChar(l, c);
    FlatSame(p.rows, e.rows, Last(p));
    var before := Flat(p.rows, Last(p));
    assert p.rows[Last(p)][..p.col] == e.rows[Last(e)][..e.col] + [p.rows[Last(p)][e.col]];
    assert Text(p) == Text(e) + [c];
    assert Text(e) == Text(p)[..|Text(p)| - 1] == Text(l);
  }

  /** A carriage return moves to the start of the row and changes no cell, so that the next
      characters are written over the first ones and the rest of the row stays. */
  lemma {:induction false} CarriageReturnOverwrites(l: Log, over: seq<char>)
    requires WellFormed(l) && Printable(over) && |over| <= 80
    ensures var m := PutAll(l, "\r" + over);
      && m.col == |over| && |m.rows| == |l.rows|
      && (forall r: nat :: r < Last(l) ==> m.rows[r] == l.rows[r])
      && (forall j: nat :: j < 80 ==>
            m.rows[Last(l)][j] == if j < |over| then Cell(over[j], 15, 0) else l.rows[Last(l)][j])
    decreases |over|
  {
    if over == [] {
      assert "\r" + over == "\r" && "\r"[1..] == [];
      PutWellFormed(l, '\r');
    } else {
      var front, c := over[..|over| - 1], over[|over| - 1];
      CarriageReturnOverwrites(l, front);
      assert "\r" + over == ("\r" + front) + [c];
      PutAllAppend(l, "\r" + front, [c]);
      assert [c][1..] == [];
    }
  }
}

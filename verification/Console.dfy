/** The text console: cells, scrollback ring and video memory (kernel64/console.c). */
module Console {
  import opened Bytes
  import opened Terminal

  /** Row `r` of a grid is `row`. */
  ghost predicate RowIs(m: array2<Cell>, r: nat, row: Row)
    reads m
  {
    r < m.Length0 && |row| <= m.Length1 && forall co :: 0 <= co < |row| ==> m[r, co] == row[co]
  }

  /** The first rows of a grid are `rows`. */
  ghost predicate GridIs(m: array2<Cell>, rows: seq<Row>)
    reads m
  {
    forall r :: 0 <= r < |rows| ==> RowIs(m, r, rows[r])
  }

  /** The ring slot of the `k`-th oldest of `count` history rows. */
  function Slot(head: nat, count: nat, k: nat): nat
    requires count <= HISTORY
  {
    (head + HISTORY - count + k) % HISTORY
  }

  /** The ring, from its oldest row to its newest, is `hist`. */
  ghost predicate RingIs(m: array2<Cell>, head: nat, hist: seq<Row>)
    reads m
  {
    |hist| <= HISTORY && forall k :: 0 <= k < |hist| ==> RowIs(m, Slot(head, |hist|, k), hist[k])
  }

  /** Rows keep their slots when one is pushed, and no other row had the slot of the new one. */
  lemma SlotAfterPush(head: nat, count: nat, k: nat)
    requires head < HISTORY && count <= HISTORY
    ensures var head', count' := (head + 1) % HISTORY, Min(count + 1, HISTORY);
            && Slot(head', count', count' - 1) == head
            && (k < count' - 1 ==>
                  Slot(head', count', k) == Slot(head, count, if count < HISTORY then k else k + 1) != head)
  {
  }

  lemma SlotAfter(head: nat, count: nat, k: nat)
    requires count <= HISTORY
    ensures Slot(head, count, k + 1) == (Slot(head, count, k) + 1) % HISTORY
  {
    ModNext(head + HISTORY - count + k);
  }

  lemma ModNext(x: nat)
    ensures (x + 1) % HISTORY == (x % HISTORY + 1) % HISTORY
  {
    var q, r := x / HISTORY, x % HISTORY;
    assert x + 1 == HISTORY * q + (r + 1);
  }

  /** The colour byte: the background, shifted left in 8 bits, and the low four bits of the foreground. */
  function PackColor(fg: nat, bg: nat): (c: nat)
    ensures c < 256 && c / 16 == bg % 16 && c % 16 == fg % 16
  {
    assert bg * 16 % 256 == bg % 16 * 16;
    bg * 16 % 256 + fg % 16
  }

  /** Copy row `r` of one grid to row `q` of another, or of the same. */
  method CopyRow(src: array2<Cell>, r: nat, dst: array2<Cell>, q: nat, cols: nat, ghost row: Row)
    requires r < src.Length0 && q < dst.Length0 && cols <= src.Length1 && cols <= dst.Length1
    requires |row| == cols && RowIs(src, r, row) && (src != dst || r != q)
    modifies dst
    ensures RowIs(dst, q, row)
    ensures forall i, j :: 0 <= i < dst.Length0 && 0 <= j < dst.Length1 && i != q ==> dst[i, j] == old(dst[i, j])
  {
    for co := 0 to cols
      invariant forall j :: 0 <= j < co ==> dst[q, j] == row[j]
      invariant forall i, j :: 0 <= i < dst.Length0 && 0 <= j < dst.Length1 && i != q ==> dst[i, j] == old(dst[i, j])
    {
      assert src[r, co] == row[co];
      dst[q, co] := src[r, co];
    }
  }

  method BlankRow(dst: array2<Cell>, q: nat, cols: nat, color: nat)
    requires q < dst.Length0 && cols <= dst.Length1
    modifies dst
    ensures RowIs(dst, q, Blank(cols, color))
    ensures forall i, j :: 0 <= i < dst.Length0 && 0 <= j < dst.Length1 && i != q ==> dst[i, j] == old(dst[i, j])
  {
    for co := 0 to cols
      invariant forall j :: 0 <= j < co ==> dst[q, j] == Cell(' ', color)
      invariant forall i, j :: 0 <= i < dst.Length0 && 0 <= j < dst.Length1 && i != q ==> dst[i, j] == old(dst[i, j])
    {
      dst[q, co] := Cell(' ', color);
    }
  }

  /** Shift the rows of a grid up by one and blank the last. */
  method ShiftUp(m: array2<Cell>, rows: nat, cols: nat, color: nat, ghost grid: seq<Row>)
    requires 0 < rows <= m.Length0 && cols <= m.Length1 && |grid| == rows && GridIs(m, grid)
    requires forall r :: 0 <= r < rows ==> |grid[r]| == cols
    modifies m
    ensures GridIs(m, grid[1..] + [Blank(cols, color)])
  {
    ghost var want := grid[1..] + [Blank(cols, color)];
    for r := 1 to rows
      invariant forall q :: 0 <= q < r - 1 ==> RowIs(m, q, want[q])
      invariant forall q :: r - 1 < q < rows ==> RowIs(m, q, grid[q])
    {
      assert RowIs(m, r, grid[r]) && want[r - 1] == grid[r];
      CopyRow(m, r, m, r - 1, cols, grid[r]);
    }
    BlankRow(m, rows - 1, cols, color);
  }

  /** A grid shows one view only. */
  lemma SameGrid(m: array2<Cell>, a: seq<Row>, b: seq<Row>, rows: nat, cols: nat, s: Screen, t: Screen)
    requires ScreenOk(s, rows, cols) && ScreenOk(t, rows, cols) && a == Window(s) && b == Window(t)
    requires GridIs(m, a) && GridIs(m, b)
    ensures a == b
  {
    forall r | 0 <= r < rows
      ensures a[r] == b[r]
    {
      WindowAt(s, r);
      WindowAt(t, r);
      assert RowIs(m, r, a[r]) && RowIs(m, r, b[r]);
    }
  }

  lemma LookFor(s: Screen, v: View, rows: nat, cols: nat)
    ensures forall t :: Agrees(s, t, rows, cols) ==> LooksAt(s, v, Look(s, v), t, rows)
  {
    forall t | Agrees(s, t, rows, cols)
      ensures LooksAt(s, v, Look(s, v), t, rows)
    {
      LookDenotes(s, t, v, rows, cols);
    }
  }

  class Console {
    const rows: nat
    const cols: nat
    var row: nat
    var col: nat
    var color: nat
    const cells: array2<Cell>
    const sbuf: array2<Cell>
    var head: nat
    var count: nat
    var off: nat
    const vram: array2<Cell>
    /** Whether this is the console on display. */
    var active: bool
    /** What the fields mean. */
    ghost var screen: Screen

    ghost predicate Shape()
      reads this
    {
      && 0 < rows <= 25 && 0 < cols <= 80 && cells != sbuf && cells != vram && sbuf != vram
      && cells.Length0 == vram.Length0 == rows && sbuf.Length0 == HISTORY
      && cells.Length1 == sbuf.Length1 == vram.Length1 == cols
    }

    ghost predicate Valid()
      reads this, cells, sbuf
    {
      && Shape() && ScreenOk(screen, rows, cols)
      && row == screen.row && col == screen.col && color == screen.color
      && count == |screen.hist| && off == screen.off && head < HISTORY
      && GridIs(cells, screen.cells) && RingIs(sbuf, head, screen.hist)
    }

    /** Video memory shows the view. */
    ghost predicate Drawn()
      requires |Window(screen)| == |screen.cells|
      reads this, vram
    {
      GridIs(vram, Window(screen))
    }

    constructor (rows: nat, cols: nat, vram: array2<Cell>)
      requires 0 < rows <= 25 && 0 < cols <= 80 && vram.Length0 == rows && vram.Length1 == cols
      ensures Shape() && this.rows == rows && this.cols == cols && this.vram == vram && !active
      ensures fresh(cells) && fresh(sbuf)
    {
      this.rows, this.cols, this.vram := rows, cols, vram;
      row, col, color, head, count, off, active := 0, 0, 0x0f, 0, 0, 0, false;
      cells := new Cell[rows, cols]((_, _) => Cell(' ', 0));
      sbuf := new Cell[HISTORY, cols]((_, _) => Cell(' ', 0));
    }

    /** `vga_clear`. */
    method Clear()
      requires Shape()
      modifies this`row, this`col, this`head, this`count, this`off, this`screen, cells, vram
      ensures Valid() && screen == Cleared(rows, cols, color) && (active ==> Drawn())
    {
      ghost var blank := Cleared(rows, cols, color).cells;
      for r := 0 to rows
        invariant forall q :: 0 <= q < r ==> RowIs(cells, q, blank[q])
      {
        BlankRow(cells, r, cols, color);
      }
      row, col := 0, 0;
      head, count, off := 0, 0, 0;
      screen := Cleared(rows, cols, color);
      if active { Flush(); }
    }

    /** `render_view`. */
    method RenderView()
      requires Valid()
      modifies vram
      ensures Valid() && (active ==> Drawn())
      ensures !active ==> forall i, j :: 0 <= i < rows && 0 <= j < cols ==> vram[i, j] == old(vram[i, j])
    {
      if !active { return; }
      var o := off;
      if o > count { o := count; }
      var shown := if o > rows then rows else o;
      DrawHistory(shown);
      ghost var want := Window(screen);
      for r := shown to rows
        invariant Valid() && forall q :: 0 <= q < r ==> RowIs(vram, q, want[q])
      {
        WindowAt(screen, r);
        assert RowIs(cells, r - shown, screen.cells[r - shown]);
        CopyRow(cells, r - shown, vram, r, cols, want[r]);
      }
    }

    /** Draw the newest `shown` history rows at the top. */
    method DrawHistory(shown: nat)
      requires Valid() && shown == Above(screen)
      modifies vram
      ensures Valid() && forall q :: 0 <= q < shown ==> RowIs(vram, q, Window(screen)[q])
    {
      var idx := FirstShown(shown);
      ghost var want := Window(screen);
      for k := 0 to shown
        invariant Valid() && idx == Slot(head, count, count - shown + k)
        invariant forall q :: 0 <= q < k ==> RowIs(vram, q, want[q])
      {
        WindowAt(screen, k);
        ghost var i := count - shown + k;
        assert RowIs(sbuf, Slot(head, count, i), screen.hist[i]);
        CopyRow(sbuf, idx, vram, k, cols, want[k]);
        SlotAfter(head, count, i);
        idx := (idx + 1) % HISTORY;
      }
    }

    /** The ring slot of the first row to draw: counted back from the newest, and normalised. */
    method FirstShown(shown: nat) returns (idx: int)
      requires Valid() && shown <= count
      ensures idx == Slot(head, count, count - shown)
    {
      idx := head - 1;
      idx := idx - (shown - 1);
      while idx < 0
        invariant head - shown <= idx < HISTORY && (idx == head - shown || idx == head - shown + HISTORY)
      {
        idx := idx + HISTORY;
      }
    }

    /** `vga_flush`. */
    method Flush()
      requires Valid()
      modifies vram
      ensures Valid() && (active ==> Drawn())
      ensures !active ==> forall i, j :: 0 <= i < rows && 0 <= j < cols ==> vram[i, j] == old(vram[i, j])
    {
      if !active { return; }
      if off != 0 { RenderView(); return; }
      ghost var want := Window(screen);
      for r := 0 to rows
        invariant Valid() && forall q :: 0 <= q < r ==> RowIs(vram, q, want[q])
      {
        WindowAt(screen, r);
        assert RowIs(cells, r, screen.cells[r]);
        CopyRow(cells, r, vram, r, cols, want[r]);
      }
    }

    /** `vga_scroll_up`. */
    method ScrollUp()
      requires Valid()
      modifies this`head, this`count, this`off, this`screen, cells, sbuf
      ensures Valid() && screen == Scroll(old(screen), cols)
    {
      ScrollKeepsOk(screen, rows, cols);
      PushTop();
      if off > 0 && off < count {
        off := off + 1;
        if off > count { assert false; }
      }
      ShiftUp(cells, rows, cols, color, screen.cells);
      screen := Scroll(screen, cols);
    }

    /** Append the top row to the ring. */
    method PushTop()
      requires Valid()
      modifies this`head, this`count, sbuf
      ensures head < HISTORY && RingIs(sbuf, head, Push(screen.hist, screen.cells[0]))
              && count == |Push(screen.hist, screen.cells[0])|
    {
      ghost var hist, hist' := screen.hist, Push(screen.hist, screen.cells[0]);
      assert RowIs(cells, 0, screen.cells[0]);
      CopyRow(cells, 0, sbuf, head % HISTORY, cols, screen.cells[0]);
      ghost var was := head;
      head := (head + 1) % HISTORY;
      if count < HISTORY { count := count + 1; }
      forall k | 0 <= k < |hist'|
        ensures RowIs(sbuf, Slot(head, |hist'|, k), hist'[k])
      {
        SlotAfterPush(was, |hist|, k);
        if k < |hist'| - 1 {
          ghost var n := if |hist| < HISTORY then k else k + 1;
          assert old(RowIs(sbuf, Slot(head, |screen.hist|, n), hist'[k]));
        }
      }
    }

    /** Advance to the next row: whether that scrolled. */
    method NextRow() returns (scrolled: bool)
      requires Valid()
      modifies this`row, this`head, this`count, this`off, this`screen, cells, sbuf
      ensures Valid() && screen == LineFeed(old(screen), cols) && scrolled == (old(row) + 1 >= rows)
      ensures !scrolled ==> screen == old(screen).(row := row)
      ensures !scrolled ==> forall i, j :: 0 <= i < rows && 0 <= j < cols ==> cells[i, j] == old(cells[i, j])
    {
      scrolled := row + 1 >= rows;
      if scrolled {
        ScrollUp();
        row := rows - 1;
      } else {
        row := row + 1;
      }
      screen := screen.(row := row);
    }

    /** `vga_putc`. A drawn view stays drawn, except that a line feed does not redraw: then video memory is
        right exactly when the line feed keeps the view. */
    method Putc(ch: char)
      requires Valid()
      modifies this`row, this`col, this`head, this`count, this`off, this`screen, cells, sbuf, vram
      ensures Valid() && screen == Put(old(screen), ch, cols)
      ensures active && old(Drawn()) ==> (Drawn() <==> ch != '\n' || FeedKeepsView(old(screen), rows, cols))
    {
      if ch == '\n' {
        NewLine();
      } else if ch == '\r' {
        col := 0;
        screen := screen.(col := 0);
      } else if ch == BS {
        if col > 0 { col := col - 1; }
        screen := screen.(col := col);
      } else {
        PutGlyph(ch);
      }
    }

    /** A line feed, which does not redraw. */
    method NewLine()
      requires Valid()
      modifies this`row, this`col, this`head, this`count, this`off, this`screen, cells, sbuf
      ensures Valid() && screen == Put(old(screen), '\n', cols)
      ensures old(Drawn()) ==> (Drawn() <==> FeedKeepsView(old(screen), rows, cols))
    {
      ghost var s := screen;
      FeedKeepsViewIff(s, rows, cols);
      col := 0;
      screen := screen.(col := 0);
      var _ := NextRow();
      if old(Drawn()) && Drawn() { SameGrid(vram, Window(s), Window(screen), rows, cols, s, screen); }
    }

    /** Write a character at the cursor and advance. */
    method PutGlyph(ch: char)
      requires Valid() && ch != '\n' && ch != '\r' && ch != BS
      modifies this`row, this`col, this`head, this`count, this`off, this`screen, cells, sbuf, vram
      ensures Valid() && screen == Put(old(screen), ch, cols)
      ensures active && old(Drawn()) ==> Drawn()
    {
      var prow, pcol := row, col;
      MarkCell(ch);
      var scrolled := Advance();
      if !active { return; }
      if scrolled || off != 0 {
        Flush();
      } else {
        DrawCell(prow, pcol, old(screen));
      }
    }

    /** Draw one cell of the live view. */
    method DrawCell(r: nat, co: nat, ghost was: Screen)
      requires Valid() && r < rows && co < cols && off == 0 && ScreenOk(was, rows, cols) && was.off == 0
      requires screen.cells == was.cells[r := was.cells[r][co := screen.cells[r][co]]]
      modifies vram
      ensures Valid() && (old(GridIs(vram, Window(was))) ==> Drawn())
    {
      LiveWindow(was);
      LiveWindow(screen);
      assert RowIs(cells, r, screen.cells[r]);
      vram[r, co] := cells[r, co];
      if old(GridIs(vram, Window(was))) {
        forall q | 0 <= q < rows
          ensures RowIs(vram, q, screen.cells[q])
        {
          assert old(RowIs(vram, q, was.cells[q]));
        }
      }
    }

    method MarkCell(ch: char)
      requires Valid()
      modifies cells, this`screen
      ensures Valid() && screen == Mark(old(screen), ch) && cells[row, col] == Cell(ch, color)
    {
      MarkKeepsOk(screen, ch, rows, cols);
      cells[row, col] := Cell(ch, color);
      screen := Mark(screen, ch);
    }

    /** Move the cursor past a character: whether that scrolled. */
    method Advance() returns (scrolled: bool)
      requires Valid()
      modifies this`row, this`col, this`head, this`count, this`off, this`screen, cells, sbuf
      ensures Valid() && screen == if old(col) + 1 >= cols then LineFeed(old(screen).(col := 0), cols)
              else old(screen).(col := old(col) + 1)
      ensures !scrolled ==> screen.cells == old(screen).cells && screen.hist == old(screen).hist && off == old(off)
      ensures !scrolled ==> forall i, j :: 0 <= i < rows && 0 <= j < cols ==> cells[i, j] == old(cells[i, j])
    {
      if col + 1 >= cols {
        col := 0;
        screen := screen.(col := 0);
        scrolled := NextRow();
      } else {
        col := col + 1;
        screen := screen.(col := col);
        scrolled := false;
      }
    }

    /** `console_write` on the active console. */
    method Write(text: string)
      requires Valid()
      modifies this`row, this`col, this`head, this`count, this`off, this`screen, cells, sbuf, vram
      ensures Valid() && screen == PutAll(old(screen), text, rows, cols)
    {
      for i := 0 to |text|
        invariant Valid() && PutAll(screen, text[i..], rows, cols) == PutAll(old(screen), text, rows, cols)
      {
        assert text[i..][0] == text[i] && text[i..][1..] == text[i + 1..];
        Putc(text[i]);
      }
      assert text[|text|..] == [];
    }

    /** `console_set_color`: the low four bits of the background and of the foreground colour, in that order. */
    method SetColor(fg: nat, bg: nat)
      requires Valid() && fg < 256 && bg < 256
      modifies this`color, this`screen
      ensures Valid() && screen == old(screen).(color := color)
      ensures color < 256 && color / 16 == bg % 16 && color % 16 == fg % 16
    {
      color := PackColor(fg, bg);
      screen := screen.(color := color);
    }

    /** The view controls `console_page_up`, `_down`, `_home` and `_end`. */
    method Turn(v: View)
      requires Valid()
      modifies this`off, this`screen, vram
      ensures Valid() && screen == Look(old(screen), v) && (active ==> Drawn())
      ensures forall t :: Agrees(old(screen), t, rows, cols) ==> LooksAt(old(screen), v, screen, t, rows)
    {
      Offset(v);
      LookFor(old(screen), v, rows, cols);
      RenderView();
    }

    /** The new view offset. */
    method Offset(v: View)
      requires Valid()
      modifies this`off, this`screen
      ensures Valid() && screen == Look(old(screen), v)
    {
      var page := if rows > 1 then rows - 1 else 1;
      match v {
        case PageUp => if off + page > count { off := count; } else { off := off + page; }
        case PageDown => if off <= page { off := 0; } else { off := off - page; }
        case Home => off := count;
        case End => off := 0;
      }
      screen := screen.(off := off);
    }
  }
}

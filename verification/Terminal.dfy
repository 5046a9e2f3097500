/** What the text console keeps: a window of rows, a bounded history and a view offset, against a terminal
    that never forgets a line (kernel64/console.c). */
module Terminal {
  import opened Bytes

  /** Rows that the history holds at most. */
  const HISTORY: nat := 512

  /** The backspace character. */
  const BS: char := 8 as char

  /** A character and its colour: the two bytes of a text-mode cell. */
  datatype Cell = Cell(ch: char, color: nat)

  type Row = seq<Cell>

  function Blank(cols: nat, color: nat): (r: Row)
    ensures |r| == cols
  {
    seq(cols, _ => Cell(' ', color))
  }

  /** The visible cells, the cursor, the colour, the history from oldest to newest, and how many rows above
      the live window the view starts. */
  datatype Screen = Screen(cells: seq<Row>, row: nat, col: nat, color: nat, hist: seq<Row>, off: nat)

  ghost predicate ScreenOk(s: Screen, rows: nat, cols: nat) {
    && 0 < rows && 0 < cols && |s.cells| == rows && s.row < rows && s.col < cols
    && (forall r :: 0 <= r < rows ==> |s.cells[r]| == cols)
    && |s.hist| <= HISTORY && (forall k :: 0 <= k < |s.hist| ==> |s.hist[k]| == cols)
    && s.off <= |s.hist|
  }

  function Cleared(rows: nat, cols: nat, color: nat): Screen {
    Screen(seq(rows, _ => Blank(cols, color)), 0, 0, color, [], 0)
  }

  /** History with one more row; the oldest goes when it is full. */
  function Push(hist: seq<Row>, row: Row): seq<Row> {
    if |hist| < HISTORY then hist + [row] else hist[1..] + [row]
  }

  /** The view offset after a scroll that leaves `count` history rows. */
  function Follow(off: nat, count: nat): nat {
    if 0 < off < count then off + 1 else off
  }

  /** The top row moves into the history. */
  function Scroll(s: Screen, cols: nat): Screen
    requires |s.cells| > 0
  {
    var hist := Push(s.hist, s.cells[0]);
    s.(hist := hist, off := Follow(s.off, |hist|), cells := s.cells[1..] + [Blank(cols, s.color)])
  }

  function LineFeed(s: Screen, cols: nat): Screen
    requires |s.cells| > 0
  {
    if s.row + 1 >= |s.cells| then Scroll(s, cols).(row := |s.cells| - 1) else s.(row := s.row + 1)
  }

  /** Write a character at the cursor, without moving it. */
  function Mark(s: Screen, ch: char): Screen
    requires s.row < |s.cells| && s.col < |s.cells[s.row]|
  {
    s.(cells := s.cells[s.row := s.cells[s.row][s.col := Cell(ch, s.color)]])
  }

  /** One character of output. */
  function Put(s: Screen, ch: char, cols: nat): Screen
    requires s.row < |s.cells| && s.col < |s.cells[s.row]|
  {
    if ch == '\n' then LineFeed(s.(col := 0), cols)
    else if ch == '\r' then s.(col := 0)
    else if ch == BS then s.(col := if s.col > 0 then s.col - 1 else 0)
    else if s.col + 1 >= cols then LineFeed(Mark(s, ch).(col := 0), cols)
    else Mark(s, ch).(col := s.col + 1)
  }

  lemma MarkKeepsOk(s: Screen, ch: char, rows: nat, cols: nat)
    requires ScreenOk(s, rows, cols)
    ensures ScreenOk(Mark(s, ch), rows, cols)
  {
  }

  lemma ScrollKeepsOk(s: Screen, rows: nat, cols: nat)
    requires ScreenOk(s, rows, cols)
    ensures ScreenOk(Scroll(s, cols), rows, cols)
  {
  }

  lemma PutKeepsOk(s: Screen, ch: char, rows: nat, cols: nat)
    requires ScreenOk(s, rows, cols)
    ensures ScreenOk(Put(s, ch, cols), rows, cols)
  {
  }

  /** A string of output. */
  ghost function PutAll(s: Screen, text: string, rows: nat, cols: nat): (r: Screen)
    requires ScreenOk(s, rows, cols)
    ensures ScreenOk(r, rows, cols)
    decreases |text|
  {
    if text == [] then s
    else
      PutKeepsOk(s, text[0], rows, cols);
      PutAll(Put(s, text[0], cols), text[1..], rows, cols)
  }

  // --- The view ---

  /** How many history rows the view shows: no more than fit on the screen. */
  function Above(s: Screen): nat {
    Min(Min(s.off, |s.hist|), |s.cells|)
  }

  /** The rows on display: the history followed by the cells, from `Above(s)` rows above the live window on. */
  function Window(s: Screen): seq<Row> {
    var all := s.hist + s.cells;
    all[|s.hist| - Above(s)..][..|s.cells|]
  }

  /** Row by row: the newest `Above(s)` history rows, then the top of the cells. */
  lemma WindowAt(s: Screen, r: nat)
    requires r < |s.cells|
    ensures |Window(s)| == |s.cells|
    ensures Window(s)[r] == if r < Above(s) then s.hist[|s.hist| - Above(s) + r] else s.cells[r - Above(s)]
  {
  }

  /** The live view shows the cells. */
  lemma LiveWindow(s: Screen)
    requires s.off == 0
    ensures Window(s) == s.cells
  {
  }

  function PageRows(rows: nat): nat { if rows > 1 then rows - 1 else 1 }

  datatype View = PageUp | PageDown | Home | End

  /** The view controls. */
  function Look(s: Screen, v: View): Screen {
    var page := PageRows(|s.cells|);
    match v
    case PageUp => s.(off := Min(s.off + page, |s.hist|))
    case PageDown => s.(off := if s.off <= page then 0 else s.off - page)
    case Home => s.(off := |s.hist|)
    case End => s.(off := 0)
  }

  /** The controls change nothing but the offset, and never beyond the history. */
  lemma LookKeeps(s: Screen, v: View, rows: nat, cols: nat)
    requires ScreenOk(s, rows, cols)
    ensures ScreenOk(Look(s, v), rows, cols) && Look(s, v) == s.(off := Look(s, v).off)
  {
  }

  /** A page up and a page down undo each other unless the one hit the oldest row or the other the live view. */
  lemma PageDownUndoesUp(s: Screen)
    requires s.off <= |s.hist|
    ensures Look(Look(s, PageUp), PageDown) == s <==> s.off + PageRows(|s.cells|) <= |s.hist| || s.off == 0
  {
  }

  /** While the view is less than a screen above the live window, a scroll leaves the display as it is. */
  lemma ScrollPinsView(s: Screen, rows: nat, cols: nat)
    requires ScreenOk(s, rows, cols) && rows < HISTORY && 0 < s.off < rows
    ensures Window(Scroll(s, cols)) == Window(s)
  {
    var s' := Scroll(s, cols);
    var all, all' := s.hist + s.cells, s'.hist + s'.cells;
    AllAfterScroll(s, rows, cols);
    var d := if |s.hist| < HISTORY then 0 else 1;
    forall r | 0 <= r < rows
      ensures Window(s')[r] == Window(s)[r]
    {
      assert all'[|s'.hist| - Above(s') + r] == all[|s'.hist| - Above(s') + r + d];
    }
  }

  /** History and cells after a scroll: a blank row more at the end, the oldest gone if the history was full. */
  lemma AllAfterScroll(s: Screen, rows: nat, cols: nat)
    requires ScreenOk(s, rows, cols)
    ensures var all, s' := s.hist + s.cells, Scroll(s, cols);
            s'.hist + s'.cells == (if |s.hist| < HISTORY then all else all[1..]) + [Blank(cols, s.color)]
  {
  }

  /** From one screen above the live window on, and in the live view, each scroll moves the display by one row. */
  lemma ScrollMovesView(s: Screen, rows: nat, cols: nat)
    requires ScreenOk(s, rows, cols) && rows < HISTORY && (s.off == 0 || rows <= s.off)
    ensures Window(Scroll(s, cols)) == Window(s)[1..] + [if s.off == 0 then Blank(cols, s.color) else s.cells[0]]
  {
    if s.off == 0 {
      assert Window(s) == s.cells && Window(Scroll(s, cols)) == Scroll(s, cols).cells;
    } else {
      HistoryMoves(s, rows, cols);
    }
  }

  /** One row, viewed one row up: the offset follows a scroll, and the display moves all the same. */
  lemma FollowedViewMoves()
    ensures var a, b := [Cell('a', 7)], [Cell('b', 7)];
            var s := Screen([b], 0, 0, 7, [a], 1);
            && ScreenOk(s, 1, 1) && Window(s) == [a]
            && Scroll(s, 1).off == 2 && Window(Scroll(s, 1)) == [b] && a != b
  {
    var a, b := [Cell('a', 7)], [Cell('b', 7)];
    var s := Screen([b], 0, 0, 7, [a], 1);
    NewestRows(s, 1);
    ScrollMovesView(s, 1, 1);
    assert a[0] != b[0];
  }

  /** A line feed leaves the display as it is: it does not scroll, or the view is less than a screen up, or the
      rows that move in are the rows that were there. */
  ghost predicate FeedKeepsView(s: Screen, rows: nat, cols: nat)
    requires ScreenOk(s, rows, cols)
  {
    || s.row + 1 < rows || 0 < s.off < rows
    || Window(s)[1..] + [if s.off == 0 then Blank(cols, s.color) else s.cells[0]] == Window(s)
  }

  lemma FeedKeepsViewIff(s: Screen, rows: nat, cols: nat)
    requires ScreenOk(s, rows, cols) && rows < HISTORY
    ensures Window(Put(s, '\n', cols)) == Window(s) <==> FeedKeepsView(s, rows, cols)
  {
    var t := s.(col := 0);
    assert Window(t) == Window(s);
    if s.row + 1 >= rows {
      var moved := Scroll(t, cols);
      assert Window(moved.(row := rows - 1)) == Window(moved);
      if 0 < s.off < rows { ScrollPinsView(t, rows, cols); } else { ScrollMovesView(t, rows, cols); }
    }
  }

  /** A screen that a line feed leaves stale: `a` above `b`, the cursor on `b`, live view. */
  lemma FeedMovesView()
    ensures var a, b := [Cell('a', 7)], [Cell('b', 7)];
            var s := Screen([a, b], 1, 0, 7, [], 0);
            && ScreenOk(s, 2, 1) && !FeedKeepsView(s, 2, 1)
            && Window(s) == [a, b] && Window(Put(s, '\n', 1)) == [b, Blank(1, 7)]
  {
    var a, b := [Cell('a', 7)], [Cell('b', 7)];
    var s := Screen([a, b], 1, 0, 7, [], 0);
    LiveWindow(s);
    LiveWindow(Put(s, '\n', 1));
    assert Window(s)[1..] + [Blank(1, 7)] == [b, Blank(1, 7)];
    assert [b, Blank(1, 7)][0] != [a, b][0];
  }

  lemma HistoryMoves(s: Screen, rows: nat, cols: nat)
    requires ScreenOk(s, rows, cols) && rows < HISTORY && rows <= s.off
    ensures Window(Scroll(s, cols)) == Window(s)[1..] + [s.cells[0]]
  {
    var s' := Scroll(s, cols);
    NewestRows(s, rows);
    NewestRows(s', rows);
    PushNewest(s.hist, s.cells[0], rows);
  }

  lemma PushNewest(hist: seq<Row>, row: Row, rows: nat)
    requires 0 < rows <= |hist| && rows < HISTORY
    ensures var more := Push(hist, row);
            rows <= |more| && more[|more| - rows..] == hist[|hist| - rows..][1..] + [row]
  {
  }

  /** A whole screen up or more, the display is the newest history rows. */
  lemma NewestRows(s: Screen, rows: nat)
    requires |s.cells| == rows <= s.off <= |s.hist|
    ensures Window(s) == s.hist[|s.hist| - rows..]
  {
    var k := |s.hist| - rows;
    assert (s.hist + s.cells)[k..] == s.hist[k..] + s.cells;
  }

  // --- The unbounded terminal ---

  /** Every line since the clear, with the cursor's row counted from the first. */
  datatype Term = Term(lines: seq<Row>, row: nat, col: nat, color: nat)

  function Feed(t: Term, cols: nat): Term {
    t.(row := t.row + 1, lines := if t.row + 1 >= |t.lines| then t.lines + [Blank(cols, t.color)] else t.lines)
  }

  function Type(t: Term, ch: char, cols: nat): Term
    requires t.row < |t.lines| && t.col < |t.lines[t.row]|
  {
    if ch == '\n' then Feed(t.(col := 0), cols)
    else if ch == '\r' then t.(col := 0)
    else if ch == BS then t.(col := if t.col > 0 then t.col - 1 else 0)
    else
      var t' := Write(t, ch);
      if t.col + 1 >= cols then Feed(t'.(col := 0), cols) else t'.(col := t.col + 1)
  }

  /** How many lines have left the window. */
  function Scrolled(t: Term, rows: nat): int { |t.lines| - rows }

  /** History and cells are the last of `lines`: the newest are the cells, up to 512 before them the history. */
  ghost predicate Tail(hist: seq<Row>, cells: seq<Row>, lines: seq<Row>) {
    && |cells| <= |lines| && |hist| == Min(|lines| - |cells|, HISTORY)
    && hist + cells == lines[|lines| - |cells| - |hist|..]
  }

  /** The screen shows the end of `t`, with the cursor where it is in `t`. */
  ghost predicate Agrees(s: Screen, t: Term, rows: nat, cols: nat) {
    && ScreenOk(s, rows, cols) && Tail(s.hist, s.cells, t.lines)
    && t.row == Scrolled(t, rows) + s.row && t.col == s.col && t.color == s.color
  }

  lemma ScrollKeepsTail(s: Screen, lines: seq<Row>, rows: nat, cols: nat)
    requires ScreenOk(s, rows, cols) && Tail(s.hist, s.cells, lines)
    ensures Tail(Scroll(s, cols).hist, Scroll(s, cols).cells, lines + [Blank(cols, s.color)])
  {
    AllAfterScroll(s, rows, cols);
    var all, k, more := s.hist + s.cells, |lines| - |s.cells| - |s.hist|, lines + [Blank(cols, s.color)];
    assert more[k..] == all + [Blank(cols, s.color)];
    if |s.hist| == HISTORY { assert more[k + 1..] == more[k..][1..]; }
  }

  lemma FeedAgrees(s: Screen, t: Term, rows: nat, cols: nat)
    requires Agrees(s, t, rows, cols)
    ensures Agrees(LineFeed(s, cols), Feed(t, cols), rows, cols)
  {
    if s.row + 1 >= rows { ScrollKeepsTail(s, t.lines, rows, cols); }
  }

  /** The terminal with a character at its cursor. */
  function Write(t: Term, ch: char): Term
    requires t.row < |t.lines| && t.col < |t.lines[t.row]|
  {
    t.(lines := t.lines[t.row := t.lines[t.row][t.col := Cell(ch, t.color)]])
  }

  lemma SetKeepsTail(hist: seq<Row>, cells: seq<Row>, lines: seq<Row>, r: nat, at: nat, row: Row)
    requires Tail(hist, cells, lines) && r < |cells| && at == |lines| - |cells| + r
    ensures lines[at] == cells[r] && Tail(hist, cells[r := row], lines[at := row])
  {
    var h, k := |hist|, |lines| - |cells| - |hist|;
    var all := hist + cells;
    assert all[h + r] == cells[r] && lines[k..][h + r] == lines[at];
    assert hist + cells[r := row] == all[h + r := row];
    assert lines[at := row][k..] == lines[k..][h + r := row];
  }

  lemma MarkAgrees(s: Screen, t: Term, ch: char, rows: nat, cols: nat)
    requires Agrees(s, t, rows, cols)
    ensures t.row < |t.lines| && t.lines[t.row] == s.cells[s.row] && Agrees(Mark(s, ch), Write(t, ch), rows, cols)
  {
    var line := s.cells[s.row][s.col := Cell(ch, s.color)];
    SetKeepsTail(s.hist, s.cells, t.lines, s.row, t.row, line);
    assert Tail(s.hist, Mark(s, ch).cells, Write(t, ch).lines);
    MarkKeepsOk(s, ch, rows, cols);
  }

  lemma PutAgrees(s: Screen, t: Term, ch: char, rows: nat, cols: nat)
    requires Agrees(s, t, rows, cols)
    ensures t.row < |t.lines| && t.col < |t.lines[t.row]| && Agrees(Put(s, ch, cols), Type(t, ch, cols), rows, cols)
  {
    MarkAgrees(s, t, ch, rows, cols);
    if ch == '\n' {
      FeedAgrees(s.(col := 0), t.(col := 0), rows, cols);
    } else if ch != '\r' && ch != BS && s.col + 1 >= cols {
      FeedAgrees(Mark(s, ch).(col := 0), Write(t, ch).(col := 0), rows, cols);
    }
  }

  // --- Runs ---

  datatype Event = Out(ch: char) | Color(color: nat) | Turn(view: View)

  function Handle(s: Screen, e: Event, cols: nat): Screen
    requires s.row < |s.cells| && s.col < |s.cells[s.row]|
  {
    match e
    case Out(ch) => Put(s, ch, cols)
    case Color(c) => s.(color := c)
    case Turn(v) => Look(s, v)
  }

  /** The view controls are nothing to the unbounded terminal. */
  function Receive(t: Term, e: Event, cols: nat): Term
    requires t.row < |t.lines| && t.col < |t.lines[t.row]|
  {
    match e
    case Out(ch) => Type(t, ch, cols)
    case Color(c) => t.(color := c)
    case Turn(_) => t
  }

  /** `ss` and `ts` are the states that the events `es` lead through. */
  ghost predicate Runs(ss: seq<Screen>, ts: seq<Term>, es: seq<Event>, rows: nat, cols: nat) {
    && |ss| == |ts| == |es| + 1
    && forall i :: 0 <= i < |es| ==>
         && ss[i].row < |ss[i].cells| && ss[i].col < |ss[i].cells[ss[i].row]| && ss[i + 1] == Handle(ss[i], es[i], cols)
         && ts[i].row < |ts[i].lines| && ts[i].col < |ts[i].lines[ts[i].row]|
            && ts[i + 1] == Receive(ts[i], es[i], cols)
  }

  /** For every stream of output, colour changes and view changes, history and cells are the last lines of
      the unbounded terminal, with min(scrolled, 512) rows of history; the offset never exceeds them. */
  lemma {:induction false} RunAgrees(ss: seq<Screen>, ts: seq<Term>, es: seq<Event>, rows: nat, cols: nat)
    requires Runs(ss, ts, es, rows, cols) && Agrees(ss[0], ts[0], rows, cols)
    ensures Agrees(ss[|es|], ts[|es|], rows, cols)
  {
    if es != [] {
      var n := |es| - 1;
      RunAgrees(ss[..n + 1], ts[..n + 1], es[..n], rows, cols);
      HandleAgrees(ss[n], ts[n], es[n], rows, cols);
    }
  }

  lemma HandleAgrees(s: Screen, t: Term, e: Event, rows: nat, cols: nat)
    requires Agrees(s, t, rows, cols)
    ensures t.row < |t.lines| && t.col < |t.lines[t.row]| && Agrees(Handle(s, e, cols), Receive(t, e, cols), rows, cols)
  {
    match e
    case Out(ch) =>
      PutAgrees(s, t, ch, rows, cols);
    case Color(_) =>
      MarkAgrees(s, t, ' ', rows, cols);
    case Turn(v) =>
      MarkAgrees(s, t, ' ', rows, cols);
      LookKeeps(s, v, rows, cols);
  }

  lemma ClearAgrees(rows: nat, cols: nat, color: nat)
    requires 0 < rows && 0 < cols
    ensures Agrees(Cleared(rows, cols, color), Term(Cleared(rows, cols, color).cells, 0, 0, color), rows, cols)
  {
    var cells := Cleared(rows, cols, color).cells;
    assert [] + cells == cells == cells[0..];
  }

  /** The line number that the view offset denotes. */
  function Denoted(s: Screen, t: Term): int { Scrolled(t, |s.cells|) - s.off }

  /** A line feed that scrolls keeps the denoted line exactly when the view is off the live window and is not
      already at the oldest row of a full history. */
  lemma ScrollKeepsLine(s: Screen, t: Term, rows: nat, cols: nat)
    requires Agrees(s, t, rows, cols) && s.row == rows - 1
    ensures Denoted(LineFeed(s, cols), Feed(t, cols)) == Denoted(s, t) <==> 0 < s.off < HISTORY
  {
  }

  /** What the view controls do to the denoted line: home is the oldest line kept, end the top of the window; a
      page is one row less than the screen, or one row on a screen of one, and stops at either. */
  ghost predicate LooksAt(s: Screen, v: View, s': Screen, t: Term, rows: nat) {
    var top, old_ := Scrolled(t, rows), Scrolled(t, rows) - |s.hist|;
    var page := if rows == 1 then 1 else rows - 1;
    match v
    case Home => Denoted(s', t) == old_
    case End => Denoted(s', t) == top && Window(s') == s.cells
    case PageUp => Denoted(s', t) == if Denoted(s, t) - page < old_ then old_ else Denoted(s, t) - page
    case PageDown => Denoted(s', t) == if Denoted(s, t) + page > top then top else Denoted(s, t) + page
  }

  lemma LookDenotes(s: Screen, t: Term, v: View, rows: nat, cols: nat)
    requires Agrees(s, t, rows, cols)
    ensures LooksAt(s, v, Look(s, v), t, rows) && Agrees(Look(s, v), t, rows, cols)
  {
    if v == End { LiveWindow(Look(s, End)); }
  }

  /** The display is the lines from the denoted one on, but never starts more than a screen above the window. */
  lemma DisplayIs(s: Screen, t: Term, rows: nat, cols: nat)
    requires Agrees(s, t, rows, cols)
    ensures 0 <= Denoted(s, t) <= |t.lines| - rows && (rows <= s.off ==> 0 <= Scrolled(t, rows) - rows)
    ensures Window(s) == t.lines[if s.off <= rows then Denoted(s, t) else Scrolled(t, rows) - rows..][..rows]
  {
    var k := |t.lines| - rows - |s.hist|;
    assert s.hist + s.cells == t.lines[k..];
    assert t.lines[k..][|s.hist| - Above(s)..] == t.lines[Scrolled(t, rows) - Above(s)..];
  }

  /** One row above which `a` and `b` have scrolled: home denotes `a`, and `b` is on display. */
  lemma HomeShowsLater()
    ensures var a, b, c := [Cell('a', 7)], [Cell('b', 7)], [Cell('c', 7)];
            var s, t := Screen([c], 0, 0, 7, [a, b], 0), Term([a, b, c], 2, 0, 7);
            && Agrees(s, t, 1, 1) && Denoted(Look(s, Home), t) == 0 && t.lines[0] == a
            && Window(Look(s, Home)) == [b] && a != b
  {
    var a, b, c := [Cell('a', 7)], [Cell('b', 7)], [Cell('c', 7)];
    var s, t := Screen([c], 0, 0, 7, [a, b], 0), Term([a, b, c], 2, 0, 7);
    assert s.hist + s.cells == t.lines == t.lines[0..];
    NewestRows(Look(s, Home), 1);
    assert s.hist[1..] == [b];
    assert a[0] != b[0];
  }

  /** One character: where the cursor goes, and that only the cell under it is written. */
  lemma TypeEffect(t: Term, ch: char, cols: nat)
    requires t.row < |t.lines| && t.col < |t.lines[t.row]| && t.col < cols
    ensures var t' := Type(t, ch, cols);
            && t'.color == t.color
            && (t'.row, t'.col) == (if ch == '\n' then (t.row + 1, 0)
                                    else if ch == '\r' then (t.row, 0)
                                    else if ch == BS then (t.row, if t.col == 0 then 0 else t.col - 1)
                                    else if t.col == cols - 1 then (t.row + 1, 0)
                                    else (t.row, t.col + 1))
            && |t'.lines| == (if t'.row < |t.lines| then |t.lines| else |t.lines| + 1)
            && (t'.row == |t.lines| ==> t'.lines[t'.row] == seq(cols, _ => Cell(' ', t.color)))
            && forall r, c :: 0 <= r < |t.lines| && 0 <= c < |t.lines[r]| ==>
                 && |t'.lines[r]| == |t.lines[r]|
                 && t'.lines[r][c] == if (r, c) == (t.row, t.col) && ch != '\n' && ch != '\r' && ch != BS
                                      then Cell(ch, t.color) else t.lines[r][c]
  {
  }
}

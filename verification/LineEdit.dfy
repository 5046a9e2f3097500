/** The line editor: what it types, and what its echo leaves on the screen (kernel64/input.c). */
module LineEdit {
  import opened Terminal

  datatype Key = Enter | PgUp | PgDn | Left | Right | Home(ctrl: bool) | End(ctrl: bool)
               | Backspace | Delete | Char(ch: char) | Ignored

  /** A line with a cursor: the text before it and the text after it. */
  datatype Line = Line(before: string, after: string)

  function Text(l: Line): string { l.before + l.after }

  function Front(t: string): string
    requires t != []
  {
    t[..|t| - 1]
  }

  /** What a key does to a line of fewer than `max` characters. */
  function Edit(l: Line, k: Key, max: nat): Line {
    match k
    case Left => if l.before == [] then l else Line(Front(l.before), [l.before[|l.before| - 1]] + l.after)
    case Right => if l.after == [] then l else Line(l.before + [l.after[0]], l.after[1..])
    case Home(false) => Line([], l.before + l.after)
    case End(false) => Line(l.before + l.after, [])
    case Backspace => if l.before == [] then l else Line(Front(l.before), l.after)
    case Delete => if l.after == [] then l else Line(l.before, l.after[1..])
    case Char(ch) => if |l.before| + |l.after| + 1 < max then Line(l.before + [ch], l.after) else l
    case _ => l
  }

  /** What the console is sent. */
  function Echo(l: Line, k: Key, max: nat): string {
    match k
    case Enter => ['\n']
    case Left => if l.before == [] then [] else [BS]
    case Right => if l.after == [] then [] else [l.after[0]]
    case Home(false) => Backs(|l.before|)
    case End(false) => l.after
    case Backspace => if l.before == [] then [] else [BS] + (l.after + ([' '] + Backs(|l.after| + 1)))
    case Delete => if l.after == [] then [] else l.after[1..] + ([' '] + Backs(|l.after|))
    case Char(ch) => if |l.before| + |l.after| + 1 < max then [ch] + (l.after + Backs(|l.after|)) else []
    case _ => []
  }

  function Backs(n: nat): (r: string)
    ensures |r| == n
  {
    if n == 0 then [] else [BS] + Backs(n - 1)
  }

  /** The view control that a key turns. */
  function ViewOf(k: Key): seq<View> {
    match k
    case PgUp => [PageUp]
    case PgDn => [PageDown]
    case Home(true) => [View.Home]
    case End(true) => [View.End]
    case _ => []
  }

  /** The screen after one key. */
  ghost function Typed(s: Screen, l: Line, k: Key, max: nat, rows: nat, cols: nat): (r: Screen)
    requires ScreenOk(s, rows, cols)
    ensures ScreenOk(r, rows, cols)
  {
    var v := ViewOf(k);
    if v != [] then Look(s, v[0]) else PutAll(s, Echo(l, k, max), rows, cols)
  }

  /** The editor's line never reaches `max` characters. */
  lemma EditKeepsShort(l: Line, k: Key, max: nat)
    requires |Text(l)| < max
    ensures |Text(Edit(l, k, max))| < max
  {
  }

  // --- The echo on one row ---

  predicate Printable(ch: char) { ch != '\n' && ch != '\r' && ch != BS }

  ghost predicate AllPrintable(t: string) {
    forall i :: 0 <= i < |t| ==> Printable(t[i])
  }

  function Cells(t: string, color: nat): (r: Row)
    ensures |r| == |t|
  {
    seq(|t|, i requires 0 <= i < |t| => Cell(t[i], color))
  }

  /** Row `s.row` of the screen replaced, and the cursor moved in it. */
  function Rewrite(s: Screen, row: Row, col: nat): Screen
    requires s.row < |s.cells|
  {
    s.(cells := s.cells[s.row := row], col := col)
  }

  /** `text` over the cells from `col` on. */
  function Over(row: Row, col: nat, text: Row): Row
    requires col + |text| <= |row|
  {
    row[..col] + text + row[col + |text|..]
  }

  lemma {:induction false} PutAllSplit(s: Screen, a: string, b: string, rows: nat, cols: nat)
    requires ScreenOk(s, rows, cols)
    ensures PutAll(s, a + b, rows, cols) == PutAll(PutAll(s, a, rows, cols), b, rows, cols)
    decreases |a|
  {
    if a == [] {
      assert a + b == b;
    } else {
      assert (a + b)[1..] == a[1..] + b && (a + b)[0] == a[0];
      PutKeepsOk(s, a[0], rows, cols);
      PutAllSplit(Put(s, a[0], cols), a[1..], b, rows, cols);
    }
  }

  lemma PutThen(s: Screen, ch: char, t: string, rows: nat, cols: nat)
    requires ScreenOk(s, rows, cols)
    ensures ScreenOk(Put(s, ch, cols), rows, cols)
    ensures PutAll(s, [ch] + t, rows, cols) == PutAll(Put(s, ch, cols), t, rows, cols)
  {
    PutKeepsOk(s, ch, rows, cols);
    assert ([ch] + t)[1..] == t;
  }

  /** Text that ends before the last column overwrites cells of its row and moves the cursor. */
  lemma {:induction false} PutText(s: Screen, t: string, rows: nat, cols: nat)
    requires ScreenOk(s, rows, cols) && AllPrintable(t) && s.col + |t| < cols
    ensures PutAll(s, t, rows, cols) == Rewrite(s, Over(s.cells[s.row], s.col, Cells(t, s.color)), s.col + |t|)
    decreases |t|
  {
    var row := s.cells[s.row];
    if t == [] {
      assert Over(row, s.col, Cells(t, s.color)) == row;
      assert s.cells[s.row := row] == s.cells;
    } else {
      var s' := Put(s, t[0], cols);
      PutKeepsOk(s, t[0], rows, cols);
      assert s' == Rewrite(s, row[s.col := Cell(t[0], s.color)], s.col + 1);
      PutText(s', t[1..], rows, cols);
      OverOne(row, s.col, t, s.color);
      assert s'.cells[s.row := Over(row, s.col, Cells(t, s.color))] ==
        s.cells[s.row := Over(row, s.col, Cells(t, s.color))];
    }
  }

  lemma OverOne(row: Row, col: nat, t: string, color: nat)
    requires t != [] && col + |t| <= |row|
    ensures Over(row[col := Cell(t[0], color)], col + 1, Cells(t[1..], color)) == Over(row, col, Cells(t, color))
  {
  }

  lemma {:induction false} PutBacks(s: Screen, n: nat, rows: nat, cols: nat)
    requires ScreenOk(s, rows, cols) && n <= s.col
    ensures PutAll(s, Backs(n), rows, cols) == s.(col := s.col - n)
    decreases n
  {
    if n > 0 {
      assert Backs(n)[1..] == Backs(n - 1);
      PutBacks(s.(col := s.col - 1), n - 1, rows, cols);
    }
  }

  /** Text and then as many backspaces as to come back to column `back`. */
  lemma PutTextBack(s: Screen, t: string, n: nat, rows: nat, cols: nat)
    requires ScreenOk(s, rows, cols) && AllPrintable(t) && s.col + |t| < cols && n <= s.col + |t|
    ensures PutAll(s, t + Backs(n), rows, cols) ==
            Rewrite(s, Over(s.cells[s.row], s.col, Cells(t, s.color)), s.col + |t| - n)
  {
    PutAllSplit(s, t, Backs(n), rows, cols);
    PutText(s, t, rows, cols);
    PutBacks(PutAll(s, t, rows, cols), n, rows, cols);
  }

  /** The prompt, the line, then blanks. */
  function LineRow(prompt: Row, l: Line, cols: nat, color: nat): Row
    requires |prompt| + |Text(l)| < cols
  {
    prompt + Cells(Text(l), color) + Blank(cols - |prompt| - |Text(l)|, color)
  }

  ghost predicate Fits(prompt: Row, l: Line, cols: nat) {
    |prompt| + |Text(l)| < cols && AllPrintable(Text(l))
  }

  /** The cursor's row shows prompt, line and blanks, and the cursor is at its place in the line. */
  ghost predicate Shows(s: Screen, prompt: Row, l: Line, rows: nat, cols: nat) {
    && ScreenOk(s, rows, cols) && Fits(prompt, l, cols)
    && s.cells[s.row] == LineRow(prompt, l, cols, s.color) && s.col == |prompt| + |l.before|
  }

  /** Nothing but the cursor's row and its column has changed. */
  ghost predicate SameElsewhere(s: Screen, s': Screen) {
    && |s'.cells| == |s.cells| && s'.row == s.row && s'.color == s.color && s'.hist == s.hist && s'.off == s.off
    && forall r :: 0 <= r < |s.cells| && r != s.row ==> s'.cells[r] == s.cells[r]
  }

  /** Overwriting the tail of the line with another tail. */
  lemma OverTail(prompt: Row, l: Line, a: string, t: string, l': Line, cols: nat, color: nat)
    requires |prompt| + |Text(l)| < cols && |prompt| + |Text(l')| < cols
    requires |a| <= |Text(l)| && Text(l)[..|a|] == a && |prompt| + |a| + |t| <= cols
    requires |Text(l)| <= |a| + |t| && |Text(l')| <= |a| + |t|
    requires a + t == Text(l') + seq(|a| + |t| - |Text(l')|, _ => ' ')
    ensures Over(LineRow(prompt, l, cols, color), |prompt| + |a|, Cells(t, color)) == LineRow(prompt, l', cols, color)
  {
    var row, row' := LineRow(prompt, l, cols, color), LineRow(prompt, l', cols, color);
    var at, p := |prompt| + |a|, |prompt|;
    var over := Over(row, at, Cells(t, color));
    forall i | 0 <= i < cols
      ensures over[i] == row'[i]
    {
      if p <= i < at {
        assert a[i - p] == (a + t)[i - p] == Text(l)[i - p];
      } else if at <= i < at + |t| {
        assert t[i - at] == (a + t)[i - p];
      }
    }
  }

  /** From the cursor position behind `a`, retype the rest of the line and come back. */
  lemma Retype(s: Screen, prompt: Row, l: Line, a: string, t: string, n: nat, l': Line, rows: nat, cols: nat)
    requires Shows(s, prompt, l, rows, cols) && Fits(prompt, l', cols) && AllPrintable(t) && |prompt| + |a| + |t| < cols
    requires |a| <= |Text(l)| && Text(l)[..|a|] == a && |Text(l)| <= |a| + |t| && |Text(l')| <= |a| + |t|
    requires a + t == Text(l') + seq(|a| + |t| - |Text(l')|, _ => ' ') && n + |l'.before| == |a| + |t|
    ensures var s' := PutAll(s.(col := |prompt| + |a|), t + Backs(n), rows, cols);
            Shows(s', prompt, l', rows, cols) && SameElsewhere(s, s')
  {
    var s1 := s.(col := |prompt| + |a|);
    PutTextBack(s1, t, n, rows, cols);
    OverTail(prompt, l, a, t, l', cols, s.color);
    RewriteShows(s, s1, prompt, l', LineRow(prompt, l', cols, s.color), rows, cols);
  }

  lemma RewriteShows(s: Screen, s1: Screen, prompt: Row, l': Line, row: Row, rows: nat, cols: nat)
    requires ScreenOk(s, rows, cols) && s1 == s.(col := s1.col) && Fits(prompt, l', cols)
    requires row == LineRow(prompt, l', cols, s.color)
    ensures var s' := Rewrite(s1, row, |prompt| + |l'.before|);
            Shows(s', prompt, l', rows, cols) && SameElsewhere(s, s')
  {
  }

  /** Moving the cursor over the line by `n` backspaces. */
  lemma MoveBack(s: Screen, prompt: Row, l: Line, n: nat, l': Line, rows: nat, cols: nat)
    requires Shows(s, prompt, l, rows, cols) && n <= |l.before| && Text(l') == Text(l) && |l'.before| == |l.before| - n
    ensures var s' := PutAll(s, Backs(n), rows, cols); Shows(s', prompt, l', rows, cols) && SameElsewhere(s, s')
  {
    PutBacks(s, n, rows, cols);
  }

  lemma TypeRight(s: Screen, prompt: Row, l: Line, rows: nat, cols: nat)
    requires Shows(s, prompt, l, rows, cols) && l.after != []
    ensures var s', l' := PutAll(s, [l.after[0]], rows, cols), Line(l.before + [l.after[0]], l.after[1..]);
            Shows(s', prompt, l', rows, cols) && SameElsewhere(s, s')
  {
    var t, l' := [l.after[0]], Line(l.before + [l.after[0]], l.after[1..]);
    assert Text(l') == Text(l) && Text(l)[|l.before|] == l.after[0];
    PutText(s, t, rows, cols);
    var row := s.cells[s.row];
    assert row[s.col] == Cells(t, s.color)[0];
    assert Over(row, s.col, Cells(t, s.color)) == row;
  }

  lemma TypeEnd(s: Screen, prompt: Row, l: Line, rows: nat, cols: nat)
    requires Shows(s, prompt, l, rows, cols)
    ensures var s', l' := PutAll(s, l.after, rows, cols), Line(l.before + l.after, []);
            Shows(s', prompt, l', rows, cols) && SameElsewhere(s, s')
  {
    var l' := Line(l.before + l.after, []);
    assert Text(l') == Text(l) == l.before + l.after;
    assert AllPrintable(l.after) by { PartPrintable(l.before, l.after); }
    assert l.after + Backs(0) == l.after;
    Retype(s, prompt, l, l.before, l.after, 0, l', rows, cols);
  }

  lemma PartPrintable(a: string, b: string)
    requires AllPrintable(a + b)
    ensures AllPrintable(a) && AllPrintable(b)
  {
    assert forall i :: 0 <= i < |a| ==> a[i] == (a + b)[i];
    assert forall i :: 0 <= i < |b| ==> b[i] == (a + b)[|a| + i];
  }

  lemma TypeBackspace(s: Screen, prompt: Row, l: Line, rows: nat, cols: nat)
    requires Shows(s, prompt, l, rows, cols) && l.before != []
    ensures var s' := PutAll(s, [BS] + (l.after + ([' '] + Backs(|l.after| + 1))), rows, cols);
            var l' := Line(Front(l.before), l.after);
            Shows(s', prompt, l', rows, cols) && SameElsewhere(s, s')
  {
    var a, t, n, l' := Front(l.before), l.after + [' '], |l.after| + 1, Line(Front(l.before), l.after);
    var echo := [BS] + (l.after + ([' '] + Backs(n)));
    PartPrintable(l.before, l.after);
    assert echo[1..] == t + Backs(n);
    assert Put(s, BS, cols) == s.(col := |prompt| + |a|);
    assert Text(l)[..|a|] == a;
    assert a + t == Text(l') + seq(1, _ => ' ');
    Retype(s, prompt, l, a, t, n, l', rows, cols);
  }

  lemma TypeDelete(s: Screen, prompt: Row, l: Line, rows: nat, cols: nat)
    requires Shows(s, prompt, l, rows, cols) && l.after != []
    ensures var s' := PutAll(s, l.after[1..] + ([' '] + Backs(|l.after|)), rows, cols);
            var l' := Line(l.before, l.after[1..]);
            Shows(s', prompt, l', rows, cols) && SameElsewhere(s, s')
  {
    var a, t, n, l' := l.before, l.after[1..] + [' '], |l.after|, Line(l.before, l.after[1..]);
    PartPrintable(l.before, l.after);
    assert l.after[1..] + ([' '] + Backs(n)) == t + Backs(n);
    assert s == s.(col := |prompt| + |a|);
    assert Text(l)[..|a|] == a;
    assert a + t == Text(l') + seq(1, _ => ' ');
    Retype(s, prompt, l, a, t, n, l', rows, cols);
  }

  lemma TypeChar(s: Screen, prompt: Row, l: Line, ch: char, rows: nat, cols: nat)
    requires Shows(s, prompt, l, rows, cols) && Fits(prompt, Line(l.before + [ch], l.after), cols)
    ensures var s' := PutAll(s, [ch] + (l.after + Backs(|l.after|)), rows, cols);
            var l' := Line(l.before + [ch], l.after);
            Shows(s', prompt, l', rows, cols) && SameElsewhere(s, s')
  {
    var a, t, n, l' := l.before, [ch] + l.after, |l.after|, Line(l.before + [ch], l.after);
    assert Text(l') == l.before + t;
    PartPrintable(l.before, t);
    assert [ch] + (l.after + Backs(n)) == t + Backs(n);
    assert s == s.(col := |prompt| + |a|);
    assert Text(l)[..|a|] == a;
    Retype(s, prompt, l, a, t, n, l', rows, cols);
  }

  /** Every key but Enter: if the line shows before and the new line fits, the new line shows after, and
      nothing else on the screen has changed, except that four keys turn the view. */
  lemma KeyShows(s: Screen, prompt: Row, l: Line, k: Key, max: nat, rows: nat, cols: nat)
    requires Shows(s, prompt, l, rows, cols) && k != Enter && Fits(prompt, Edit(l, k, max), cols)
    ensures var s' := Typed(s, l, k, max, rows, cols);
            && Shows(s', prompt, Edit(l, k, max), rows, cols) && SameElsewhere(s, s'.(off := s.off))
            && (s'.off == s.off || k == PgUp || k == PgDn || k == Key.Home(true) || k == Key.End(true))
  {
    match k
    case Left =>
      if l.before != [] {
        assert Backs(1) == [BS];
        assert Text(Edit(l, k, max)) == Text(l);
        MoveBack(s, prompt, l, 1, Edit(l, k, max), rows, cols);
      }
    case Right => if l.after != [] { TypeRight(s, prompt, l, rows, cols); }
    case Home(false) => MoveBack(s, prompt, l, |l.before|, Edit(l, k, max), rows, cols);
    case End(false) => TypeEnd(s, prompt, l, rows, cols);
    case Backspace => if l.before != [] { TypeBackspace(s, prompt, l, rows, cols); }
    case Delete => if l.after != [] { TypeDelete(s, prompt, l, rows, cols); }
    case Char(ch) => if |l.before| + |l.after| + 1 < max { TypeChar(s, prompt, l, ch, rows, cols); }
    case _ =>
  }

  /** The four keys that turn the view leave the line alone and denote a line of the unbounded terminal: a page up
      or down, the oldest line kept, the top of the live window. */
  lemma ViewKeys(s: Screen, t: Term, l: Line, k: Key, v: View, max: nat, rows: nat, cols: nat)
    requires Agrees(s, t, rows, cols)
    requires || (k == PgUp && v == PageUp) || (k == PgDn && v == PageDown)
             || (k == Key.Home(true) && v == View.Home) || (k == Key.End(true) && v == View.End)
    ensures Edit(l, k, max) == l
    ensures LooksAt(s, v, Typed(s, l, k, max, rows, cols), t, rows)
    ensures Agrees(Typed(s, l, k, max, rows, cols), t, rows, cols)
  {
    assert Typed(s, l, k, max, rows, cols) == Look(s, v);
    LookDenotes(s, t, v, rows, cols);
  }

  /** What each key does to the text and to the cursor's place in it. */
  lemma EditEffect(l: Line, k: Key, max: nat)
    ensures var text, p, l' := Text(l), |l.before|, Edit(l, k, max);
            var text', p' := Text(l'), |l'.before|;
            match k
            case Left => text' == text && p' == (if p == 0 then 0 else p - 1)
            case Right => text' == text && p' == (if p == |text| then p else p + 1)
            case Home(false) => text' == text && p' == 0
            case End(false) => text' == text && p' == |text|
            case Backspace => if p == 0 then l' == l else text' == text[..p - 1] + text[p..] && p' == p - 1
            case Delete => p' == p && text' == if p == |text| then text else text[..p] + text[p + 1..]
            case Char(ch) =>
              if |text| + 1 < max then text' == text[..p] + [ch] + text[p..] && p' == p + 1 else l' == l
            case _ => l' == l
  {
    assert Text(l)[..|l.before|] == l.before && Text(l)[|l.before|..] == l.after;
  }

  // --- Whole sessions ---

  /** Typing `text` from the empty line gives `text`, as far as the buffer takes it. */
  lemma {:induction false} TypedText(text: string, max: nat)
    requires 0 < max
    ensures var n := if |text| < max then |text| else max - 1;
            EditAll(Line([], []), seq(|text|, i requires 0 <= i < |text| => Char(text[i])), max) == Line(text[..n], [])
  {
    if text != [] {
      var ks := seq(|text|, i requires 0 <= i < |text| => Char(text[i]));
      var front := Front(text);
      TypedText(front, max);
      assert ks[..|text| - 1] == seq(|front|, i requires 0 <= i < |front| => Char(front[i]));
    }
  }

  /** The line after keys without Enter. */
  function EditAll(l: Line, ks: seq<Key>, max: nat): Line {
    if ks == [] then l else Edit(EditAll(l, ks[..|ks| - 1], max), ks[|ks| - 1], max)
  }

  ghost function TypeAll(s: Screen, l: Line, ks: seq<Key>, max: nat, rows: nat, cols: nat): (r: Screen)
    requires ScreenOk(s, rows, cols)
    ensures ScreenOk(r, rows, cols)
  {
    if ks == [] then s
    else
      var n := |ks| - 1;
      Typed(TypeAll(s, l, ks[..n], max, rows, cols), EditAll(l, ks[..n], max), ks[n], max, rows, cols)
  }

  lemma OneMoreKey(s: Screen, l: Line, ks: seq<Key>, n: nat, max: nat, rows: nat, cols: nat)
    requires ScreenOk(s, rows, cols) && n < |ks|
    ensures EditAll(l, ks[..n + 1], max) == Edit(EditAll(l, ks[..n], max), ks[n], max)
    ensures TypeAll(s, l, ks[..n + 1], max, rows, cols) ==
            Typed(TypeAll(s, l, ks[..n], max, rows, cols), EditAll(l, ks[..n], max), ks[n], max, rows, cols)
  {
    assert ks[..n + 1][..n] == ks[..n];
  }

  lemma {:induction false} EditAllShort(l: Line, ks: seq<Key>, max: nat)
    requires |Text(l)| < max
    ensures |Text(EditAll(l, ks, max))| < max
  {
    if ks != [] {
      EditAllShort(l, ks[..|ks| - 1], max);
      EditKeepsShort(EditAll(l, ks[..|ks| - 1], max), ks[|ks| - 1], max);
    }
  }

  ghost predicate AllFit(prompt: Row, l: Line, ks: seq<Key>, max: nat, cols: nat) {
    Fits(prompt, l, cols)
      && (ks == [] || (Fits(prompt, EditAll(l, ks, max), cols) && AllFit(prompt, l, ks[..|ks| - 1], max, cols)))
  }

  /** Over every session, as long as the line fits on the prompt's row, that row shows prompt, line and
      blanks with the cursor in its place, and no other row and no history changes. */
  lemma {:induction false} SessionShows(s: Screen, prompt: Row, l: Line, ks: seq<Key>, max: nat, rows: nat, cols: nat)
    requires Shows(s, prompt, l, rows, cols) && AllFit(prompt, l, ks, max, cols)
    requires forall i :: 0 <= i < |ks| ==> ks[i] != Enter
    ensures var s' := TypeAll(s, l, ks, max, rows, cols);
            Shows(s', prompt, EditAll(l, ks, max), rows, cols) && SameElsewhere(s, s'.(off := s.off))
  {
    if ks != [] {
      var n := |ks| - 1;
      SessionShows(s, prompt, l, ks[..n], max, rows, cols);
      KeyShows(TypeAll(s, l, ks[..n], max, rows, cols), prompt, EditAll(l, ks[..n], max), ks[n], max, rows, cols);
    }
  }

  ghost predicate PrintableKey(k: Key) { k.Char? ==> Printable(k.ch) }

  lemma EditKeepsPrintable(l: Line, k: Key, max: nat)
    requires AllPrintable(Text(l)) && PrintableKey(k)
    ensures AllPrintable(Text(Edit(l, k, max)))
  {
    PartPrintable(l.before, l.after);
    match k
    case Left => assert Text(Edit(l, k, max)) == Text(l);
    case Right => assert Text(Edit(l, k, max)) == Text(l);
    case End(false) => assert Text(Edit(l, k, max)) == Text(l);
    case Home(false) => assert Text(Edit(l, k, max)) == Text(l);
    case _ =>
  }

  /** A row with room for the prompt and a full buffer holds every line that can be typed. */
  lemma {:induction false} RoomForAll(prompt: Row, l: Line, ks: seq<Key>, max: nat, cols: nat)
    requires |Text(l)| < max && |prompt| + max <= cols && AllPrintable(Text(l))
    requires forall i :: 0 <= i < |ks| ==> PrintableKey(ks[i])
    ensures AllFit(prompt, l, ks, max, cols) && AllPrintable(Text(EditAll(l, ks, max)))
  {
    EditAllShort(l, ks, max);
    if ks != [] {
      var n := |ks| - 1;
      RoomForAll(prompt, l, ks[..n], max, cols);
      EditKeepsPrintable(EditAll(l, ks[..n], max), ks[n], max);
    }
  }

  lemma {:induction false} BacksAtZero(s: Screen, n: nat, rows: nat, cols: nat)
    requires ScreenOk(s, rows, cols) && s.col == 0
    ensures PutAll(s, Backs(n), rows, cols) == s
    decreases n
  {
    if n > 0 {
      assert Backs(n)[1..] == Backs(n - 1);
      BacksAtZero(s, n - 1, rows, cols);
    }
  }

  /** Text up to and including the last column leaves the cursor in column 0 of the next row. */
  lemma FillRow(s: Screen, t: string, rows: nat, cols: nat)
    requires ScreenOk(s, rows, cols) && AllPrintable(t) && t != [] && s.col + |t| == cols
    ensures PutAll(s, t, rows, cols).col == 0
  {
    var f, ch := Front(t), [t[|t| - 1]];
    assert t == f + ch && ch[1..] == [];
    PutAllSplit(s, f, ch, rows, cols);
    PutText(s, f, rows, cols);
    var s' := PutAll(s, f, rows, cols);
    assert Put(s', ch[0], cols) == LineFeed(Mark(s', ch[0]).(col := 0), cols);
  }

  /** An accepted character keeps the cursor in its place exactly when the longer line still fits: a line
      that reaches the last column wraps, and the backspaces of its echo stop at column 0 of the next row. */
  lemma CharShowsIff(s: Screen, prompt: Row, l: Line, ch: char, max: nat, rows: nat, cols: nat)
    requires Shows(s, prompt, l, rows, cols) && Printable(ch) && |Text(l)| + 1 < max
    ensures var l' := Edit(l, Char(ch), max);
            Typed(s, l, Char(ch), max, rows, cols).col == |prompt| + |l'.before| <==> |prompt| + |Text(l')| < cols
  {
    var l' := Edit(l, Char(ch), max);
    EditKeepsPrintable(l, Char(ch), max);
    if |prompt| + |Text(l')| < cols {
      KeyShows(s, prompt, l, Char(ch), max, rows, cols);
    } else {
      var t, n := [ch] + l.after, |l.after|;
      assert Text(l') == l.before + t;
      PartPrintable(l.before, t);
      assert [ch] + (l.after + Backs(n)) == t + Backs(n);
      FillRow(s, t, rows, cols);
      PutAllSplit(s, t, Backs(n), rows, cols);
      BacksAtZero(PutAll(s, t, rows, cols), n, rows, cols);
    }
  }

  /** On a row of one column the first character already wraps: the cursor is in column 0, not behind it. */
  lemma FullRowLosesCursor()
    ensures var s, l := Screen([Blank(1, 7)], 0, 0, 7, [], 0), Line([], []);
            Shows(s, [], l, 1, 1) && Typed(s, l, Char('a'), 9, 1, 1).col != |Edit(l, Char('a'), 9).before|
  {
    var s, l := Screen([Blank(1, 7)], 0, 0, 7, [], 0), Line([], []);
    assert s.cells[0] == LineRow([], l, 1, 7);
    CharShowsIff(s, [], l, 'a', 9, 1, 1);
  }
}

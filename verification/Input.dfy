/** Reading a line from the keyboard into a buffer, with echo (kernel64/input.c). */
module Input {
  import opened Terminal
  import opened LineEdit
  import opened Console

  /** The buffer and its cursor hold the line `l`. */
  ghost predicate Holds(buf: array<char>, len: nat, cur: nat, l: Line)
    reads buf
  {
    cur <= len <= buf.Length && buf[..cur] == l.before && buf[cur..len] == l.after
  }

  /** Send `buf[from..to]` to the console. */
  method Emit(con: Console, buf: array<char>, from: nat, to: nat)
    requires con.Valid() && from <= to <= buf.Length
    modifies con, con.cells, con.sbuf, con.vram
    ensures con.Valid() && con.screen == PutAll(old(con.screen), buf[from..to], con.rows, con.cols)
  {
    ghost var t := buf[from..to];
    for k := from to to
      invariant con.Valid()
                && PutAll(con.screen, t[k - from..], con.rows, con.cols) ==
                   PutAll(old(con.screen), t, con.rows, con.cols)
    {
      assert t[k - from..][0] == buf[k] && t[k - from..][1..] == t[k + 1 - from..];
      con.Putc(buf[k]);
    }
    assert t[to - from..] == [];
  }

  method EmitBacks(con: Console, n: nat)
    requires con.Valid()
    modifies con, con.cells, con.sbuf, con.vram
    ensures con.Valid() && con.screen == PutAll(old(con.screen), Backs(n), con.rows, con.cols)
  {
    for k := 0 to n
      invariant con.Valid()
                && PutAll(con.screen, Backs(n - k), con.rows, con.cols) ==
                   PutAll(old(con.screen), Backs(n), con.rows, con.cols)
    {
      assert Backs(n - k)[0] == BS && Backs(n - k)[1..] == Backs(n - k - 1);
      con.Putc(BS);
    }
  }

  /** Make room for one character at `cur`. */
  method OpenGap(buf: array<char>, len: nat, cur: nat)
    requires cur <= len < buf.Length
    modifies buf
    ensures buf[..cur] == old(buf[..cur]) && buf[cur + 1..len + 1] == old(buf[cur..len])
  {
    var i := len;
    while i > cur
      invariant cur <= i <= len
      invariant forall j :: 0 <= j <= i ==> buf[j] == old(buf[j])
      invariant forall j :: i < j <= len ==> buf[j] == old(buf[j - 1])
    {
      buf[i] := buf[i - 1];
      i := i - 1;
    }
  }

  /** Remove the character at `at`. */
  method CloseGap(buf: array<char>, len: nat, at: nat)
    requires at < len <= buf.Length
    modifies buf
    ensures buf[..at] == old(buf[..at]) && buf[at..len - 1] == old(buf[at + 1..len])
  {
    var i := at;
    while i + 1 < len
      invariant at <= i < len
      invariant forall j :: 0 <= j < at || i <= j < len ==> buf[j] == old(buf[j])
      invariant forall j :: at <= j < i ==> buf[j] == old(buf[j + 1])
    {
      buf[i] := buf[i + 1];
      i := i + 1;
    }
  }

  /** Retype `buf[cur..len]` and a blank over what was removed, and go back. */
  method Redraw(con: Console, buf: array<char>, cur: nat, len: nat)
    requires con.Valid() && cur <= len <= buf.Length
    modifies con, con.cells, con.sbuf, con.vram
    ensures con.Valid()
    ensures con.screen == PutAll(old(con.screen), buf[cur..len] + ([' '] + Backs(len + 1 - cur)), con.rows, con.cols)
  {
    ghost var s, t, n := con.screen, buf[cur..len], len + 1 - cur;
    Emit(con, buf, cur, len);
    con.Putc(' ');
    EmitBacks(con, len + 1 - cur);
    PutAllSplit(s, t, [' '] + Backs(n), con.rows, con.cols);
    assert ([' '] + Backs(n))[1..] == Backs(n);
  }

  /** Left: one column back. */
  method GoLeft(con: Console, buf: array<char>, max: nat, len: nat, cur: nat, ghost l: Line) returns (cur': nat)
    requires con.Valid() && Holds(buf, len, cur, l) && len < max <= buf.Length
    modifies con, con.cells, con.sbuf, con.vram
    ensures con.Valid() && Holds(buf, len, cur', Edit(l, Left, max))
    ensures con.screen == PutAll(old(con.screen), Echo(l, Left, max), con.rows, con.cols)
  {
    cur' := cur;
    if cur > 0 {
      con.Putc(BS);
      cur' := cur - 1;
      assert buf[cur'..len] == [buf[cur']] + buf[cur..len];
    }
  }

  /** Right: retype the character under the cursor. */
  method GoRight(con: Console, buf: array<char>, max: nat, len: nat, cur: nat, ghost l: Line) returns (cur': nat)
    requires con.Valid() && Holds(buf, len, cur, l) && len < max <= buf.Length
    modifies con, con.cells, con.sbuf, con.vram
    ensures con.Valid() && Holds(buf, len, cur', Edit(l, Right, max))
    ensures con.screen == PutAll(old(con.screen), Echo(l, Right, max), con.rows, con.cols)
  {
    cur' := cur;
    if cur < len {
      con.Putc(buf[cur]);
      cur' := cur + 1;
      assert [buf[cur]][1..] == [];
    }
  }

  /** Home: back to the start of the line. */
  method GoHome(con: Console, buf: array<char>, max: nat, len: nat, cur: nat, ghost l: Line) returns (cur': nat)
    requires con.Valid() && Holds(buf, len, cur, l) && len < max <= buf.Length
    modifies con, con.cells, con.sbuf, con.vram
    ensures con.Valid() && Holds(buf, len, cur', Edit(l, LineEdit.Home(false), max))
    ensures con.screen == PutAll(old(con.screen), Echo(l, LineEdit.Home(false), max), con.rows, con.cols)
  {
    EmitBacks(con, cur);
    cur' := 0;
    assert buf[0..len] == buf[..cur] + buf[cur..len];
  }

  /** End: retype the rest of the line. */
  method GoEnd(con: Console, buf: array<char>, max: nat, len: nat, cur: nat, ghost l: Line) returns (cur': nat)
    requires con.Valid() && Holds(buf, len, cur, l) && len < max <= buf.Length
    modifies con, con.cells, con.sbuf, con.vram
    ensures con.Valid() && Holds(buf, len, cur', Edit(l, LineEdit.End(false), max))
    ensures con.screen == PutAll(old(con.screen), Echo(l, LineEdit.End(false), max), con.rows, con.cols)
  {
    Emit(con, buf, cur, len);
    cur' := len;
    assert buf[..len] == buf[..cur] + buf[cur..len];
  }

  /** Backspace: remove the character before the cursor. */
  method EraseBefore(con: Console, buf: array<char>, max: nat, len: nat, cur: nat, ghost l: Line)
    returns (len': nat, cur': nat)
    requires con.Valid() && Holds(buf, len, cur, l) && len < max <= buf.Length
    modifies buf, con, con.cells, con.sbuf, con.vram
    ensures con.Valid() && Holds(buf, len', cur', Edit(l, Backspace, max)) && len' < max
    ensures con.screen == PutAll(old(con.screen), Echo(l, Backspace, max), con.rows, con.cols)
  {
    len', cur' := len, cur;
    if cur > 0 {
      con.Putc(BS);
      CloseGap(buf, len, cur - 1);
      len', cur' := len - 1, cur - 1;
      Redraw(con, buf, cur', len');
      assert buf[cur'..len'] == l.after && len' + 1 - cur' == |l.after| + 1;
      PutThen(old(con.screen), BS, l.after + ([' '] + Backs(|l.after| + 1)), con.rows, con.cols);
    }
  }

  /** Delete: remove the character under the cursor. */
  method EraseAt(con: Console, buf: array<char>, max: nat, len: nat, cur: nat, ghost l: Line) returns (len': nat)
    requires con.Valid() && Holds(buf, len, cur, l) && len < max <= buf.Length
    modifies buf, con, con.cells, con.sbuf, con.vram
    ensures con.Valid() && Holds(buf, len', cur, Edit(l, Delete, max)) && len' < max
    ensures con.screen == PutAll(old(con.screen), Echo(l, Delete, max), con.rows, con.cols)
  {
    len' := len;
    if cur < len {
      CloseGap(buf, len, cur);
      len' := len - 1;
      Redraw(con, buf, cur, len');
    }
  }

  /** A character: insert it at the cursor, if there is room. */
  method Insert(con: Console, buf: array<char>, max: nat, len: nat, cur: nat, ch: char, ghost l: Line)
    returns (len': nat, cur': nat)
    requires con.Valid() && Holds(buf, len, cur, l) && len < max <= buf.Length
    modifies buf, con, con.cells, con.sbuf, con.vram
    ensures con.Valid() && Holds(buf, len', cur', Edit(l, Char(ch), max)) && len' < max
    ensures con.screen == PutAll(old(con.screen), Echo(l, Char(ch), max), con.rows, con.cols)
  {
    len', cur' := len, cur;
    if len + 1 < max {
      OpenGap(buf, len, cur);
      buf[cur] := ch;
      len', cur' := len + 1, cur + 1;
      con.Putc(ch);
      Reprint(con, buf, cur', len');
      assert buf[cur'..len'] == l.after && len' - cur' == |l.after|;
      PutThen(old(con.screen), ch, l.after + Backs(|l.after|), con.rows, con.cols);
    }
  }

  /** `reprint_from`. */
  method Reprint(con: Console, buf: array<char>, i: nat, len: nat)
    requires con.Valid() && i <= len <= buf.Length
    modifies con, con.cells, con.sbuf, con.vram
    ensures con.Valid() && con.screen == PutAll(old(con.screen), buf[i..len] + Backs(len - i), con.rows, con.cols)
  {
    PutAllSplit(con.screen, buf[i..len], Backs(len - i), con.rows, con.cols);
    Emit(con, buf, i, len);
    EmitBacks(con, len - i);
  }

  /** One key other than Enter. */
  method Press(con: Console, buf: array<char>, max: nat, len: nat, cur: nat, k: Key, ghost l: Line)
    returns (len': nat, cur': nat)
    requires con.Valid() && Holds(buf, len, cur, l) && len < max <= buf.Length && k != Enter
    modifies buf, con, con.cells, con.sbuf, con.vram
    ensures con.Valid() && Holds(buf, len', cur', Edit(l, k, max)) && len' < max
    ensures con.screen == Typed(old(con.screen), l, k, max, con.rows, con.cols)
  {
    len', cur' := len, cur;
    match k {
      case PgUp => con.Turn(PageUp);
      case PgDn => con.Turn(PageDown);
      case Left => cur' := GoLeft(con, buf, max, len, cur, l);
      case Right => cur' := GoRight(con, buf, max, len, cur, l);
      case Home(ctrl) => if ctrl { con.Turn(View.Home); } else { cur' := GoHome(con, buf, max, len, cur, l); }
      case End(ctrl) => if ctrl { con.Turn(View.End); } else { cur' := GoEnd(con, buf, max, len, cur, l); }
      case Backspace => len', cur' := EraseBefore(con, buf, max, len, cur, l);
      case Delete => len' := EraseAt(con, buf, max, len, cur, l);
      case Char(ch) => len', cur' := Insert(con, buf, max, len, cur, ch, l);
      case Ignored =>
    }
  }

  /** What the first `used` keys, none of them Enter, leave in the buffer and on the screen. */
  ghost predicate Session(con: Console, buf: array<char>, was: Screen, keys: seq<Key>, used: nat, max: nat, len: nat,
                          cur: nat)
    requires used <= |keys| && ScreenOk(was, con.rows, con.cols)
    reads con, buf
  {
    && (forall i :: 0 <= i < used ==> keys[i] != Enter) && cur <= len < max
    && Holds(buf, len, cur, EditAll(Line([], []), keys[..used], max))
    && con.screen == TypeAll(was, Line([], []), keys[..used], max, con.rows, con.cols)
  }

  /** Take keys up to Enter, or to the last. */
  method EditLine(con: Console, buf: array<char>, max: nat, keys: seq<Key>) returns (len: nat, cur: nat, used: nat)
    requires con.Valid() && 0 < max <= buf.Length
    modifies buf, con, con.cells, con.sbuf, con.vram
    ensures con.Valid() && used <= |keys| && (used < |keys| ==> keys[used] == Enter)
    ensures Session(con, buf, old(con.screen), keys, used, max, len, cur)
  {
    len, cur, used := 0, 0, 0;
    ghost var was, none := con.screen, Line([], []);
    while used < |keys| && keys[used] != Enter
      invariant used <= |keys| && con.Valid() && Session(con, buf, was, keys, used, max, len, cur)
    {
      OneMoreKey(was, none, keys, used, max, con.rows, con.cols);
      len, cur := Press(con, buf, max, len, cur, keys[used], EditAll(none, keys[..used], max));
      used := used + 1;
    }
  }

  /** `input_readline` on the key events that arrive: `done` says whether Enter was among them. */
  method ReadLine(con: Console, buf: array<char>, max: nat, keys: seq<Key>)
    returns (done: bool, len: nat, cur: nat, used: nat)
    requires con.Valid() && max <= buf.Length
    modifies buf, con, con.cells, con.sbuf, con.vram
    ensures con.Valid() && used <= |keys|
    ensures max == 0 ==> done && len == 0 && con.screen == old(con.screen)
    ensures max > 0 ==>
              && cur <= len < max && Holds(buf, len, cur, EditAll(Line([], []), keys[..used], max))
              && (forall i :: 0 <= i < used ==> keys[i] != Enter) && done == (used < |keys|)
                 && (done ==> keys[used] == Enter)
              && var typed := TypeAll(old(con.screen), Line([], []), keys[..used], max, con.rows, con.cols);
                 con.screen == if done then Put(typed, '\n', con.cols) else typed
  {
    if max == 0 { return true, 0, 0, 0; }
    len, cur, used := EditLine(con, buf, max, keys);
    done := used < |keys|;
    if done { con.Putc('\n'); }
  }
}

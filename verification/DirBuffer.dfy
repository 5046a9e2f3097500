/** The driver's work on a directory cluster held in a scratch buffer (fs/exfat.c). */
module DirBuffer {
  import opened Bytes
  import opened Directory

  /** The entries that a buffer holds. */
  ghost function Es(dir: array<byte>): (es: seq<Entry>)
    reads dir
    ensures |es| == dir.Length / 32
  {
    Cut(dir[..])
  }

  lemma EntryOf(dir: array<byte>, s: nat)
    requires s < dir.Length / 32
    ensures dir[32 * s..32 * s + 32] == Es(dir)[s]
  {
    CutAt(dir[..], s);
    assert dir[..][32 * s..32 * s + 32] == dir[32 * s..32 * s + 32];
  }

  lemma ByteOf(dir: array<byte>, s: nat, p: nat)
    requires s < dir.Length / 32 && p < 32
    ensures dir[32 * s + p] == Es(dir)[s][p]
  {
    EntryOf(dir, s);
  }

  lemma CutSplice(d: seq<byte>, s: nat, p: nat, x: seq<byte>)
    requires s < |d| / 32 && p + |x| <= 32
    ensures Cut(Splice(d, 32 * s + p, x)) == Cut(d)[s := Splice(Cut(d)[s], p, x)]
  {
    var d' := Splice(d, 32 * s + p, x);
    forall t | 0 <= t < |d| / 32
      ensures Cut(d')[t] == Cut(d)[s := Splice(Cut(d)[s], p, x)][t]
    {
      CutAt(d, t);
      CutAt(d', t);
      CutAt(d, s);
    }
  }

  /** The name held by the name entries from slot `j` on, and the slot behind them. */
  method ReadName(dir: array<byte>, j: nat, stop: bool) returns (name: seq<byte>, end: nat)
    requires j <= dir.Length / 32
    ensures name == NameFrom(Es(dir), j, [], stop) && end == RunEnd(Es(dir), j)
  {
    name, end := [], j;
    while 32 * end + 32 <= dir.Length && dir[32 * end] == NAME
      invariant j <= end <= dir.Length / 32
      invariant NameFrom(Es(dir), j, [], stop) == NameFrom(Es(dir), end, name, stop)
      invariant RunEnd(Es(dir), j) == RunEnd(Es(dir), end)
    {
      ByteOf(dir, end, 0);
      name := ReadChars(dir, end, name, stop);
      end := end + 1;
    }
    if end < dir.Length / 32 { ByteOf(dir, end, 0); }
  }

  /** The characters of the name entry at slot `j`, added to `acc`. */
  method ReadChars(dir: array<byte>, j: nat, acc: seq<byte>, stop: bool) returns (name: seq<byte>)
    requires j < dir.Length / 32
    ensures name == EntryChars(Es(dir)[j], 0, acc, stop)
  {
    EntryOf(dir, j);
    var e: Entry := dir[32 * j..32 * j + 32];
    name := acc;
    var k := 0;
    while k < 15 && |name| < NAME_MAX
      invariant 0 <= k <= 15 && EntryChars(e, 0, acc, stop) == EntryChars(e, k, name, stop)
    {
      var ch := U16(e, 2 + 2 * k);
      if ch == 0 {
        if stop { return; }
      } else if ch < 128 {
        name := name + [ch as byte];
      } else {
        name := name + [QUESTION];
      }
      k := k + 1;
    }
  }

  /** A directory entry as callers of the scan see it. */
  datatype Dirent = Dirent(first: nat, size: nat, isDir: bool, name: seq<byte>)

  function DirentOf(r: Rec): Dirent {
    Dirent(r.first, r.size, r.isDir, r.name)
  }

  /** The first `max` files of the directory. */
  function Listed(recs: seq<Rec>, max: nat): seq<Dirent> {
    if recs == [] || max == 0 then [] else [DirentOf(recs[0])] + Listed(recs[1..], max - 1)
  }

  lemma {:induction false} ListedAtIndex(recs: seq<Rec>, max: nat, i: nat)
    ensures |Listed(recs, max)| == Min(max, |recs|)
    ensures i < Min(max, |recs|) ==> Listed(recs, max)[i] == DirentOf(recs[i])
    decreases |recs|
  {
    if recs != [] && max > 0 { ListedAtIndex(recs[1..], max - 1, if i > 0 then i - 1 else 0); }
  }

  /** One file of the scan: its record, and the slot behind its entry set. */
  method ScanFile(dir: array<byte>, s: nat) returns (d: Dirent, next: nat)
    requires s < dir.Length / 32
    ensures d == DirentOf(RecAt(Es(dir), s)) && next == SetEnd(Es(dir), s)
  {
    EntryOf(dir, s);
    var isDir := U16(dir[32 * s..32 * s + 32], 4) / 16 % 2 == 1;
    var stream, first, size := ReadStream(dir, s);
    var name;
    name, next := ReadName(dir, if stream then s + 2 else s + 1, false);
    d := Dirent(first, size, isDir, name);
  }

  /** The first cluster and size in the stream entry behind slot `s`, if there is one. */
  method ReadStream(dir: array<byte>, s: nat) returns (stream: bool, first: nat, size: nat)
    requires s < dir.Length / 32
    ensures stream == HasStream(Es(dir), s)
    ensures first == (if stream then U32(Es(dir)[s + 1], 20) else 0)
            && size == if stream then U64(Es(dir)[s + 1], 24) else 0
  {
    var j := s + 1;
    stream, first, size := false, 0, 0;
    if 32 * j + 32 <= dir.Length {
      EntryOf(dir, j);
      var e := dir[32 * j..32 * j + 32];
      if e[0] == STREAM { stream, first, size := true, U32(e, 20), U64(e, 24); }
    }
  }

  /** The scan of the root directory: jump from entry set to entry set, keep the first `max` files. */
  method Scan(dir: array<byte>, max: nat) returns (ents: seq<Dirent>)
    ensures ents == Listed(Recs(Es(dir), 0), max)
  {
    ents := [];
    var s := 0;
    ghost var es := Es(dir);
    ghost var all := Listed(Recs(es, 0), max);
    assert all == [] + all;
    while 32 * s + 32 <= dir.Length && dir[32 * s] != 0
      invariant s <= |es| && |ents| <= max && all == ents + Listed(Recs(es, s), max - |ents|)
      decreases dir.Length - 32 * s
    {
      ByteOf(dir, s, 0);
      if dir[32 * s] % 128 == 5 {
        ScanStep(es, s, all, ents, max);
        var d, next := ScanFile(dir, s);
        if |ents| < max { ents := ents + [d]; }
        s := next;
      } else {
        assert Recs(es, s) == Recs(es, s + 1);
        s := s + 1;
      }
    }
    NothingListed(dir, s);
    assert ents + [] == ents;
  }

  /** One file further. */
  lemma ScanStep(es: seq<Entry>, s: nat, all: seq<Dirent>, ents: seq<Dirent>, max: nat)
    requires s < |es| && es[s][0] != 0 && IsFile(es[s])
    requires |ents| <= max && all == ents + Listed(Recs(es, s), max - |ents|)
    ensures var rest := Recs(es, SetEnd(es, s));
            && (|ents| < max ==> all == ents + [DirentOf(RecAt(es, s))] + Listed(rest, max - |ents| - 1))
            && (|ents| == max ==> all == ents + Listed(rest, 0))
  {
    ScanJump(es, s);
    ListedCons(all, ents, RecAt(es, s), Recs(es, SetEnd(es, s)), Recs(es, s), max);
  }

  /** From the end mark, or the end of the buffer, on nothing is listed. */
  lemma NothingListed(dir: array<byte>, s: nat)
    requires s <= dir.Length / 32 && (32 * s + 32 > dir.Length || dir[32 * s] == 0)
    ensures Recs(Es(dir), s) == []
  {
    if s < dir.Length / 32 { ByteOf(dir, s, 0); }
  }

  lemma ListedCons(all: seq<Dirent>, ents: seq<Dirent>, r: Rec, rest: seq<Rec>, recs: seq<Rec>, max: nat)
    requires |ents| <= max && recs == [r] + rest && all == ents + Listed(recs, max - |ents|)
    ensures |ents| < max ==> all == ents + [DirentOf(r)] + Listed(rest, max - |ents| - 1)
    ensures |ents| == max ==> all == ents + Listed(rest, 0)
  {
    assert recs[1..] == rest;
    if |ents| < max {
      assert ents + ([DirentOf(r)] + Listed(rest, max - |ents| - 1)) ==
        ents + [DirentOf(r)] + Listed(rest, max - |ents| - 1);
    }
  }

  /** The slot of the end mark, or the end of the buffer. */
  method FindEnd(dir: array<byte>) returns (d: nat)
    ensures d == EndSlot(Es(dir), 0)
  {
    d := 0;
    while 32 * d + 32 <= dir.Length && dir[32 * d] != 0
      invariant d <= dir.Length / 32 && EndSlot(Es(dir), 0) == EndSlot(Es(dir), d)
      decreases dir.Length - 32 * d
    {
      ByteOf(dir, d, 0);
      d := d + 1;
    }
    if d < dir.Length / 32 { ByteOf(dir, d, 0); }
  }

  /** Zero one slot. */
  method ClearSlot(dir: array<byte>, s: nat)
    requires s < dir.Length / 32
    modifies dir
    ensures dir[..] == Splice(old(dir[..]), 32 * s, BlankEntry)
  {
    ghost var was, blank := dir[..], BlankEntry;
    SpliceEmpty(was, 32 * s, blank, 0);
    for z := 0 to 32
      invariant dir[..] == Splice(was, 32 * s, blank[0..z])
    {
      SpliceStep(was, 32 * s, blank, 0, z);
      dir[32 * s + z] := 0;
    }
    assert blank[0..32] == blank;
  }

  /** A zeroed slot with a few bytes set is the entry with those bytes. */
  method PutFileEntry(dir: array<byte>, s: nat, secondaries: nat)
    requires s < dir.Length / 32
    modifies dir
    ensures Es(dir) == old(Es(dir))[s := FileEntry(secondaries)]
  {
    ClearSlot(dir, s);
    dir[32 * s], dir[32 * s + 1] := 0x85, (secondaries % 0x100) as byte;
    dir[32 * s + 4] := 0x20;
    assert dir[..] == Splice(old(dir[..]), 32 * s, FileEntry(secondaries));
    CutSplice(old(dir[..]), s, 0, FileEntry(secondaries));
    SpliceWhole(old(Es(dir))[s], FileEntry(secondaries));
  }

  lemma SpliceWhole(a: Entry, b: Entry)
    ensures Splice(a, 0, b) == b
  {
  }

  method PutStreamEntry(dir: array<byte>, s: nat, nameLen: nat, first: nat)
    requires s < dir.Length / 32
    modifies dir
    ensures Es(dir) == old(Es(dir))[s := StreamEntry(nameLen, first)]
  {
    ClearSlot(dir, s);
    dir[32 * s], dir[32 * s + 3] := STREAM, (nameLen % 0x100) as byte;
    assert dir[..] == Splice(old(dir[..]), 32 * s, StreamHead(nameLen));
    Store(dir, 32 * s + 20, Le32(first));
    SpliceNested(old(dir[..]), 32 * s, StreamHead(nameLen), 20, Le32(first));
    CutSplice(old(dir[..]), s, 0, StreamEntry(nameLen, first));
    SpliceWhole(old(Es(dir))[s], StreamEntry(nameLen, first));
  }

  /** One name entry, filled from the front of `rest`. */
  method PutNameEntry(dir: array<byte>, s: nat, rest: seq<byte>)
    requires s < dir.Length / 32
    modifies dir
    ensures Es(dir) == old(Es(dir))[s := NameEntry(rest[..Min(15, |rest|)])]
  {
    var chunk := rest[..Min(15, |rest|)];
    ghost var want := NameEntry(chunk);
    ClearSlot(dir, s);
    dir[32 * s] := NAME;
    ghost var base := dir[..];
    assert base == Splice(old(dir[..]), 32 * s, Partly(want, 0));
    for k := 0 to 15
      invariant dir[..] == Splice(old(dir[..]), 32 * s, Partly(want, k))
    {
      var ch := if k < |chunk| then chunk[k] else 0;
      dir[32 * s + 2 + 2 * k], dir[32 * s + 3 + 2 * k] := ch, 0;
      PartlyStep(chunk, k);
    }
    assert Partly(want, 15) == want;
    CutSplice(old(dir[..]), s, 0, want);
    SpliceWhole(old(Es(dir))[s], want);
  }

  /** A name entry of which only the first `k` units are filled in yet. */
  ghost function Partly(e: Entry, k: nat): Entry
    requires k <= 15
  {
    seq(32, p requires 0 <= p < 32 => if p < 2 + 2 * k then e[p] else 0)
  }

  lemma PartlyStep(chunk: seq<byte>, k: nat)
    requires |chunk| <= 15 && k < 15
    ensures var e := NameEntry(chunk);
            e[2 + 2 * k] == (if k < |chunk| then chunk[k] else 0) && e[3 + 2 * k] == 0
    ensures Partly(NameEntry(chunk), k + 1)
         == Splice(Partly(NameEntry(chunk), k), 2 + 2 * k, [if k < |chunk| then chunk[k] else 0, 0])
  {
  }

  /** The name entries of a new file, from slot `s` on. */
  method PutNames(dir: array<byte>, s: nat, name: seq<byte>)
    requires s + |NameEntries(name)| <= dir.Length / 32
    modifies dir
    ensures Es(dir) == Splice(old(Es(dir)), s, NameEntries(name))
  {
    ghost var es, all := Es(dir), NameEntries(name);
    var rest, e := name, 0;
    assert Splice(es, s, all[..0]) == es;
    while rest != []
      invariant 0 <= e <= |all| && all[e..] == NameEntries(rest) && Es(dir) == Splice(es, s, all[..e])
      decreases |rest|
    {
      NameEntriesHead(rest);
      assert all[e] == all[e..][0] && all[e + 1..] == all[e..][1..];
      assert Splice(es, s, all[..e + 1]) == Splice(es, s, all[..e])[s + e := all[e]];
      PutNameEntry(dir, s + e, rest);
      rest, e := rest[Min(15, |rest|)..], e + 1;
    }
    assert all[..e] == all;
  }

  lemma NameEntriesHead(name: seq<byte>)
    requires name != []
    ensures var all := NameEntries(name);
            |all| > 0 && all[0] == NameEntry(name[..Min(15, |name|)])
              && all[1..] == NameEntries(name[Min(15, |name|)..])
  {
  }

  /** The whole entry set of a new file at slot `d`, and the end mark behind it. */
  method PutFile(dir: array<byte>, d: nat, name: seq<byte>, first: nat)
    requires d + |FileSet(name, first)| <= dir.Length / 32
    modifies dir
    ensures Es(dir) == AddAt(old(Es(dir)), d, FileSet(name, first))
  {
    ghost var es := Es(dir);
    var n := CountNameEntries(name);
    PutEntries(dir, d, name, first, n);
    ghost var names := NameEntries(name);
    AssembleSet(es, Es(dir), d, FileEntry(1 + n), StreamEntry(|name|, first), names, FileSet(name, first));
    PutEndMark(dir, d + 2 + n);
  }

  method PutEntries(dir: array<byte>, d: nat, name: seq<byte>, first: nat, n: nat)
    requires n == |NameEntries(name)| && d + 2 + n <= dir.Length / 32
    modifies dir
    ensures var head := old(Es(dir))[d := FileEntry(1 + n)][d + 1 := StreamEntry(|name|, first)];
            Es(dir) == Splice(head, d + 2, NameEntries(name))
  {
    PutFileEntry(dir, d, 1 + n);
    PutStreamEntry(dir, d + 1, |name|, first);
    PutNames(dir, d + 2, name);
  }

  method CountNameEntries(name: seq<byte>) returns (n: nat)
    ensures n == |NameEntries(name)|
  {
    NameEntryCount(name);
    n := (|name| + 14) / 15;
  }

  /** Filling in the entries one after the other, then the end mark, is adding the entry set. */
  lemma AssembleSet(es: seq<Entry>, r: seq<Entry>, d: nat, f: Entry, st: Entry, names: seq<Entry>, set_: seq<Entry>)
    requires set_ == [f, st] + names && d + |set_| <= |es|
    requires r == Splice(es[d := f][d + 1 := st], d + 2, names)
    ensures var end := d + 2 + |names|;
            AddAt(es, d, set_) == if end < |es| then r[end := Splice(r[end], 0, [0])] else r
  {
    assert r == Splice(es, d, set_) by {
      SpliceHead(es[d := f], d + 1, st, names);
      SpliceHead(es, d, f, [st] + names);
      assert [f] + ([st] + names) == set_;
    }
  }

  /** The end mark behind a new file, if the buffer has a slot left for it. */
  method PutEndMark(dir: array<byte>, end: nat)
    modifies dir
    ensures Es(dir) == if end < |old(Es(dir))| then old(Es(dir))[end := Splice(old(Es(dir))[end], 0, [0])]
            else old(Es(dir))
  {
    if 32 * end < dir.Length / 32 * 32 {
      dir[32 * end] := 0;
      assert dir[..] == Splice(old(dir[..]), 32 * end + 0, [0]);
      CutSplice(old(dir[..]), end, 0, [0]);
    }
  }

  /** The slot of that file. */
  method FindStream(dir: array<byte>, first: nat) returns (found: bool, s: nat)
    ensures var recs := Recs(Es(dir), 0);
            var k := FindCluster(recs, first, 0);
            found == (k < |recs|) && (found ==> s == recs[k].slot)
  {
    ghost var es := Es(dir);
    ghost var recs := Recs(es, 0);
    ghost var k := 0;
    s := 0;
    while 32 * s + 64 <= dir.Length && dir[32 * s] != 0
      invariant 0 <= k <= |recs| && s <= |es| && recs[k..] == Recs(es, s)
      invariant FindCluster(recs, first, 0) == FindCluster(recs, first, k)
      decreases dir.Length - 32 * s
    {
      ByteOf(dir, s, 0);
      if dir[32 * s] % 128 == 5 {
        NextRec(es, recs, s, k);
        var stream, f, size := ReadStream(dir, s);
        if stream && f == first { return true, s; }
        k := k + 1;
      }
      s := s + 1;
    }
    LastSlot(dir, s, recs[k..]);
    FindNone(recs, first, k);
    return false, s;
  }

  /** At the end of the search at most a file without a stream entry is left. */
  lemma LastSlot(dir: array<byte>, s: nat, rest: seq<Rec>)
    requires s <= dir.Length / 32 && rest == Recs(Es(dir), s)
    requires 32 * s + 64 > dir.Length || dir[32 * s] == 0
    ensures forall j :: 0 <= j < |rest| ==> !rest[j].stream
  {
    if s < dir.Length / 32 {
      ByteOf(dir, s, 0);
      if Es(dir)[s][0] != 0 { assert Recs(Es(dir), s + 1) == []; }
    }
  }

  lemma FindNone(recs: seq<Rec>, first: nat, k: nat)
    requires k <= |recs| && forall j :: 0 <= j < |recs[k..]| ==> !recs[k..][j].stream
    ensures FindCluster(recs, first, k) == |recs|
  {
    forall j | k <= j < |recs|
      ensures !recs[j].stream
    {
      assert recs[j] == recs[k..][j - k];
    }
  }

  /** Store a new first cluster, if one is given that differs, and the size in the stream entry behind slot `s`. */
  method PutStream(dir: array<byte>, s: nat, first: nat, newFirst: nat, size: nat)
    requires HasStream(Es(dir), s) && first == U32(Es(dir)[s + 1], 20)
    modifies dir
    ensures Es(dir) == SetStream(old(Es(dir)), s, first, newFirst, size)
  {
    if newFirst >= 2 && newFirst != first { StoreField(dir, s + 1, 20, Le32(newFirst)); }
    StoreField(dir, s + 1, 24, Le64(size));
  }

  /** Store a field of entry `s`. */
  method StoreField(dir: array<byte>, s: nat, p: nat, field: seq<byte>)
    requires s < |Es(dir)| && p + |field| <= 32
    modifies dir
    ensures Es(dir) == old(Es(dir))[s := Splice(old(Es(dir))[s], p, field)]
  {
    ghost var d := dir[..];
    Store(dir, 32 * s + p, field);
    CutSplice(d, s, p, field);
  }

  /** Store a little-endian field. */
  method Store(a: array<byte>, at: nat, field: seq<byte>)
    requires at + |field| <= a.Length
    modifies a
    ensures a[..] == Splice(old(a[..]), at, field)
  {
    ghost var was := a[..];
    SpliceEmpty(was, at, field, 0);
    for i := 0 to |field|
      invariant a[..] == Splice(was, at, field[0..i])
    {
      SpliceStep(was, at, field, 0, i);
      a[at + i] := field[i];
    }
    assert field[0..|field|] == field;
  }

  lemma NextRec(es: seq<Entry>, recs: seq<Rec>, s: nat, k: nat)
    requires s < |es| && IsFile(es[s]) && k <= |recs| && recs[k..] == Recs(es, s)
    ensures k < |recs| && recs[k] == RecAt(es, s) && recs[k + 1..] == Recs(es, s + 1)
  {
    assert recs[k] == recs[k..][0] && recs[k + 1..] == recs[k..][1..];
  }

  /** Whether `unlink` takes the file at slot `s` for `name`; its first cluster and the slot behind its entry set. */
  method CheckName(dir: array<byte>, s: nat, name: seq<byte>) returns (same: bool, first: nat, end: nat)
    requires s < dir.Length / 32
    ensures var r := RecAt(Es(dir), s);
            && same == (r.stream && r.uname == name)
            && (same ==> first == r.first && end == RunEnd(Es(dir), s + 2))
  {
    same, end := false, 0;
    var stream, f, size := ReadStream(dir, s);
    first := f;
    if stream {
      var shown, j := ReadName(dir, s + 2, true);
      same, end := shown == name, j;
    }
  }

  /** The slot of the file that `unlink` takes for `name`, its first cluster, and the slot behind its entry set. */
  method FindFile(dir: array<byte>, name: seq<byte>) returns (found: bool, s: nat, first: nat, end: nat)
    ensures var recs := Recs(Es(dir), 0);
            var k := Find(recs, name, 0);
            && found == (k < |recs|)
            && (found ==> s == recs[k].slot && first == recs[k].first && end == RunEnd(Es(dir), s + 2))
  {
    ghost var es := Es(dir);
    ghost var recs := Recs(es, 0);
    ghost var k := 0;
    s := 0;
    while 32 * s + 32 <= dir.Length && dir[32 * s] != 0
      invariant 0 <= k <= |recs| && s <= |es| && recs[k..] == Recs(es, s)
      invariant Find(recs, name, 0) == Find(recs, name, k)
      decreases dir.Length - 32 * s
    {
      ByteOf(dir, s, 0);
      if dir[32 * s] % 128 == 5 {
        NextRec(es, recs, s, k);
        var same, f, j := CheckName(dir, s, name);
        if same { return true, s, f, j; }
        k := k + 1;
      }
      s := s + 1;
    }
    NothingListed(dir, s);
    assert |recs[k..]| == 0;
    return false, s, 0, 0;
  }

  /** Zero the bytes of an entry set. */
  method Erase(dir: array<byte>, s: nat, end: nat)
    requires s + 2 <= dir.Length / 32 && end == RunEnd(Es(dir), s + 2)
    modifies dir
    ensures Es(dir) == EraseAt(old(Es(dir)), s)
  {
    ghost var es, blanks: seq<Entry> := Es(dir), seq(end - s, _ => BlankEntry);
    SpliceEmpty(es, s, blanks, 0);
    for t := s to end
      invariant Es(dir) == Splice(es, s, blanks[0..t - s])
    {
      SpliceStep(es, s, blanks, 0, t - s);
      BlankSlot(dir, t);
    }
    assert blanks[0..end - s] == blanks;
  }

  method BlankSlot(dir: array<byte>, t: nat)
    requires t < dir.Length / 32
    modifies dir
    ensures Es(dir) == old(Es(dir))[t := BlankEntry]
  {
    ClearSlot(dir, t);
    CutSplice(old(dir[..]), t, 0, BlankEntry);
    SpliceWhole(old(Es(dir))[t], BlankEntry);
  }
}

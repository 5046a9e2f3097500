/** The root directory cluster as 32-byte entries: scanning, adding, updating and removing files
    (fs/exfat.c; entry layouts as in sections 6.2, 7.4, 7.6 and 7.7 of the exFAT specification). */
module Directory {
  import opened Bytes

  type Entry = e: seq<byte> | |e| == 32 witness seq(32, _ => 0)

  const STREAM: byte := 0xC0
  const NAME: byte := 0xC1
  const QUESTION: byte := 63
  const NAME_MAX: nat := 63

  const BlankEntry: Entry := seq(32, _ => 0)

  /** Type 5, in use (0x85) or not (0x05). */
  predicate IsFile(e: Entry) {
    e[0] % 128 == 5
  }

  /** The entries of a directory cluster. */
  function Cut(dir: seq<byte>): (es: seq<Entry>)
    ensures |es| == |dir| / 32
  {
    if |dir| < 32 then [] else [dir[..32]] + Cut(dir[32..])
  }

  lemma {:induction false} CutAt(dir: seq<byte>, s: nat)
    requires s < |dir| / 32
    ensures Cut(dir)[s] == dir[32 * s..32 * s + 32]
    decreases s
  {
    if s > 0 {
      CutAt(dir[32..], s - 1);
      assert dir[32..][32 * (s - 1)..32 * (s - 1) + 32] == dir[32 * s..32 * s + 32];
    }
  }

  /** The bytes of a directory cluster with these entries. */
  function Paste(es: seq<Entry>): (dir: seq<byte>)
    ensures |dir| == 32 * |es|
  {
    if es == [] then [] else es[0] + Paste(es[1..])
  }

  lemma {:induction false} CutPaste(es: seq<Entry>)
    ensures Cut(Paste(es)) == es
  {
    if es != [] {
      CutPaste(es[1..]);
      assert Paste(es)[..32] == es[0] && Paste(es)[32..] == Paste(es[1..]);
    }
  }

  lemma {:induction false} PasteCut(dir: seq<byte>)
    requires |dir| % 32 == 0
    ensures Paste(Cut(dir)) == dir
  {
    if dir != [] {
      PasteCut(dir[32..]);
      assert Cut(dir)[1..] == Cut(dir[32..]);
    }
  }

  // ----- scanning -----

  /** The character a 16-bit name unit is shown as. */
  function Glyph(ch: nat): byte {
    if ch < 128 then ch as byte else QUESTION
  }

  /** The scan's inner loop over units `k ..` of one name entry: zero units are padding, and
      `stop` says whether the first of them ends the entry, as it does in `unlink`. */
  function EntryChars(e: Entry, k: nat, acc: seq<byte>, stop: bool): (r: seq<byte>)
    decreases |e|, 15 - k
  {
    if k >= 15 || |acc| >= NAME_MAX then acc
    else
      var ch := U16(e, 2 + 2 * k);
      if ch == 0 then (if stop then acc else EntryChars(e, k + 1, acc, stop))
      else EntryChars(e, k + 1, acc + [Glyph(ch)], stop)
  }

  /** The name held by the run of name entries that starts at slot `j`. */
  function NameFrom(es: seq<Entry>, j: nat, acc: seq<byte>, stop: bool): seq<byte>
    decreases |es| - j
  {
    if j < |es| && es[j][0] == NAME then NameFrom(es, j + 1, EntryChars(es[j], 0, acc, stop), stop) else acc
  }

  /** The 16-bit units of a name entry, as the scan takes them: all but the zeros; with `stop`, up to the first zero. */
  function Letters(us: seq<nat>, stop: bool): seq<byte> {
    if us == [] || (stop && us[0] == 0) then []
    else (if us[0] == 0 then [] else [if us[0] < 128 then us[0] as byte else 63]) + Letters(us[1..], stop)
  }

  function UnitsFrom(e: Entry, k: nat): (us: seq<nat>)
    ensures |us| == if k < 15 then 15 - k else 0
    decreases |e|, 15 - k
  {
    if k >= 15 then [] else [U16(e, 2 + 2 * k)] + UnitsFrom(e, k + 1)
  }

  /** The letters of a run of name entries. */
  function RunLetters(es: seq<Entry>, j: nat, stop: bool): seq<byte>
    decreases |es| - j
  {
    if j < |es| && es[j][0] == NAME then Letters(UnitsFrom(es[j], 0), stop) + RunLetters(es, j + 1, stop) else []
  }

  function Cap(s: seq<byte>): seq<byte> { s[..Min(63, |s|)] }

  lemma {:induction false} EntryCharsAre(e: Entry, k: nat, acc: seq<byte>, stop: bool)
    requires |acc| <= 63
    ensures EntryChars(e, k, acc, stop) == Cap(acc + Letters(UnitsFrom(e, k), stop))
    decreases 15 - k
  {
    if k >= 15 || |acc| >= 63 {
      assert Cap(acc + Letters(UnitsFrom(e, k), stop)) == acc;
    } else {
      var us := UnitsFrom(e, k);
      assert us[1..] == UnitsFrom(e, k + 1);
      if us[0] == 0 {
        if stop { assert Cap(acc + []) == acc; } else { EntryCharsAre(e, k + 1, acc, stop); }
      } else {
        EntryCharsAre(e, k + 1, acc + [Glyph(us[0])], stop);
        Appended(acc, Glyph(us[0]), Letters(us[1..], stop));
      }
    }
  }

  lemma Appended(acc: seq<byte>, c: byte, rest: seq<byte>)
    ensures acc + ([c] + rest) == acc + [c] + rest
  {
  }

  /** The name of a file, whoever wrote its entries: the letters of its name entries, 63 at most. */
  lemma {:induction false} NameIsLetters(es: seq<Entry>, j: nat, acc: seq<byte>, stop: bool)
    requires |acc| <= 63
    ensures NameFrom(es, j, acc, stop) == Cap(acc + RunLetters(es, j, stop))
    decreases |es| - j
  {
    if j < |es| && es[j][0] == NAME {
      var x, y := Letters(UnitsFrom(es[j], 0), stop), RunLetters(es, j + 1, stop);
      EntryCharsAre(es[j], 0, acc, stop);
      NameIsLetters(es, j + 1, EntryChars(es[j], 0, acc, stop), stop);
      assert Cap(Cap(acc + x) + y) == Cap(acc + (x + y));
    } else {
      assert Cap(acc + []) == acc;
    }
  }

  /** The slot after the run of name entries that starts at slot `j`. */
  function RunEnd(es: seq<Entry>, j: nat): (r: nat)
    ensures j <= r && (j <= |es| ==> r <= |es|)
    decreases |es| - j
  {
    if j < |es| && es[j][0] == NAME then RunEnd(es, j + 1) else j
  }

  /** A file entry set as the scan reads it; `uname` is its name as `unlink` rebuilds it. */
  datatype Rec = Rec(slot: nat, stream: bool, isDir: bool, first: nat, size: nat, name: seq<byte>, uname: seq<byte>)

  predicate HasStream(es: seq<Entry>, s: nat) {
    s + 1 < |es| && es[s + 1][0] == STREAM
  }

  function RecAt(es: seq<Entry>, s: nat): Rec
    requires s < |es|
  {
    var st := HasStream(es, s);
    var j := if st then s + 2 else s + 1;
    Rec(s, st, U16(es[s], 4) / 16 % 2 == 1,
        if st then U32(es[s + 1], 20) else 0, if st then U64(es[s + 1], 24) else 0,
        NameFrom(es, j, [], false), NameFrom(es, j, [], true))
  }

  /** The files listed from slot `i` up to the end mark. */
  function Recs(es: seq<Entry>, i: nat): seq<Rec>
    decreases |es| - i
  {
    if i >= |es| || es[i][0] == 0 then []
    else if IsFile(es[i]) then [RecAt(es, i)] + Recs(es, i + 1)
    else Recs(es, i + 1)
  }

  /** The scan may jump over a run of name entries. */
  lemma {:induction false} RecsSkipRun(es: seq<Entry>, j: nat)
    ensures Recs(es, RunEnd(es, j)) == Recs(es, j)
    decreases |es| - j
  {
    if j < |es| && es[j][0] == NAME {
      RecsSkipRun(es, j + 1);
    }
  }

  /** The slot behind the entry set at slot `s`. */
  function SetEnd(es: seq<Entry>, s: nat): (r: nat)
    requires s < |es|
    ensures s < r <= |es|
  {
    RunEnd(es, if HasStream(es, s) then s + 2 else s + 1)
  }

  /** The scan may jump from an entry set to the slot behind it. */
  lemma ScanJump(es: seq<Entry>, s: nat)
    requires s < |es| && IsFile(es[s])
    ensures Recs(es, s) == [RecAt(es, s)] + Recs(es, SetEnd(es, s))
  {
    if HasStream(es, s) {
      assert Recs(es, s + 1) == Recs(es, s + 2);
      RecsSkipRun(es, s + 2);
    } else {
      RecsSkipRun(es, s + 1);
    }
  }

  /** The files whose first entry lies in slots `i .. d`. */
  function RecsTo(es: seq<Entry>, i: nat, d: nat): seq<Rec>
    requires d <= |es|
    decreases d - i
  {
    if i >= d then []
    else if IsFile(es[i]) then [RecAt(es, i)] + RecsTo(es, i + 1, d)
    else RecsTo(es, i + 1, d)
  }

  lemma {:induction false} RecsSplit(es: seq<Entry>, i: nat, d: nat)
    requires i <= d <= |es| && forall s :: i <= s < d ==> es[s][0] != 0
    ensures Recs(es, i) == RecsTo(es, i, d) + Recs(es, d)
    decreases d - i
  {
    if i < d {
      RecsSplit(es, i + 1, d);
    }
  }

  /** The `k`-th listed file stands at its slot, in front of the end mark, behind `k` other files. */
  ghost predicate ListedAt(es: seq<Entry>, i: nat, k: nat, r: Rec) {
    && i <= r.slot < |es| && r == RecAt(es, r.slot) && IsFile(es[r.slot])
    && (forall t :: i <= t <= r.slot ==> es[t][0] != 0)
    && |RecsTo(es, i, r.slot)| == k
  }

  lemma {:induction false} RecsAreListed(es: seq<Entry>, i: nat, k: nat)
    requires k < |Recs(es, i)|
    ensures ListedAt(es, i, k, Recs(es, i)[k])
    decreases |es| - i
  {
    if IsFile(es[i]) {
      if k > 0 { RecsAreListed(es, i + 1, k - 1); }
    } else {
      RecsAreListed(es, i + 1, k);
    }
  }

  /** Bit 4 of an entry's attribute word, which begins at byte 4. */
  predicate DirBit(e: Entry) { e[4] as int / 16 % 2 == 1 }

  lemma DirBitIs(e: Entry)
    ensures U16(e, 4) / 16 % 2 == 1 <==> DirBit(e)
  {
    U16Bytes(e, 4);
    LowByteBit(e[4] as int, e[5] as int);
  }

  lemma LowByteBit(lo: nat, hi: nat)
    requires lo < 256
    ensures (lo + 256 * hi) / 16 % 2 == lo / 16 % 2
  {
    assert (lo + 256 * hi) / 16 == lo / 16 + 16 * hi;
  }

  /** What the listing says of its `k`-th file is what the entries of the file say: type 0x85 or 0x05 at its slot,
      a directory exactly when bit 4 of the attributes is set, first cluster and size from the stream entry, the
      names from the letters of the name entries. */
  lemma ListedFields(es: seq<Entry>, k: nat)
    requires k < |Recs(es, 0)|
    ensures var r := Recs(es, 0)[k];
            && r.slot < |es| && (es[r.slot][0] == 0x85 || es[r.slot][0] == 0x05)
            && (r.isDir <==> DirBit(es[r.slot]))
            && (r.stream <==> r.slot + 1 < |es| && es[r.slot + 1][0] == 0xC0)
            && (r.stream ==> r.first == U32(es[r.slot + 1], 20) && r.size == U64(es[r.slot + 1], 24))
            && r.name == Cap(RunLetters(es, r.slot + (if r.stream then 2 else 1), false))
            && r.uname == Cap(RunLetters(es, r.slot + (if r.stream then 2 else 1), true))
  {
    RecsAreListed(es, 0, k);
    var r := Recs(es, 0)[k];
    DirBitIs(es[r.slot]);
    var j := r.slot + if r.stream then 2 else 1;
    NameIsLetters(es, j, [], false);
    NameIsLetters(es, j, [], true);
    assert forall x: seq<byte> :: [] + x == x;
  }

  /** Every entry of type 0x85 or 0x05 in front of the end mark is listed, behind those of earlier slots. */
  lemma FileIsListed(es: seq<Entry>, s: nat)
    requires s < |es| && (es[s][0] == 0x85 || es[s][0] == 0x05) && forall t :: 0 <= t < s ==> es[t][0] != 0
    ensures var k := |RecsTo(es, 0, s)|; k < |Recs(es, 0)| && Recs(es, 0)[k].slot == s
  {
    RecsSplit(es, 0, s);
    assert IsFile(es[s]) && RecAt(es, s).slot == s;
  }

  /** A slot that ends every entry set before it. */
  ghost predicate Fence(es: seq<Entry>, d: nat) {
    d <= |es| && (d < |es| ==> es[d][0] != STREAM && es[d][0] != NAME)
  }

  lemma {:induction false} NameBeforeFence(es: seq<Entry>, es': seq<Entry>, j: nat, d: nat, acc: seq<byte>, stop: bool)
    requires |es| == |es'| && j <= d && Fence(es, d) && Fence(es', d) && es[..d] == es'[..d]
    ensures NameFrom(es', j, acc, stop) == NameFrom(es, j, acc, stop)
    decreases d - j
  {
    if j < d {
      assert es[j] == es[..d][j] == es'[j];
      if es[j][0] == NAME { NameBeforeFence(es, es', j + 1, d, EntryChars(es[j], 0, acc, stop), stop); }
    }
  }

  /** What lies behind a fence does not affect the entry sets before it. */
  lemma RecBeforeFence(es: seq<Entry>, es': seq<Entry>, s: nat, d: nat)
    requires |es| == |es'| && s < d && Fence(es, d) && Fence(es', d) && es[..d] == es'[..d]
    ensures RecAt(es', s) == RecAt(es, s)
  {
    assert es[s] == es[..d][s] == es'[s];
    if s + 1 < d { assert es[s + 1] == es[..d][s + 1] == es'[s + 1]; }
    assert HasStream(es, s) == HasStream(es', s);
    assert HasStream(es, s) ==> s + 2 <= d;
    var j := if HasStream(es, s) then s + 2 else s + 1;
    NameBeforeFence(es, es', j, d, [], false);
    NameBeforeFence(es, es', j, d, [], true);
  }

  lemma {:induction false} RecsBeforeFence(es: seq<Entry>, es': seq<Entry>, i: nat, d: nat)
    requires |es| == |es'| && Fence(es, d) && Fence(es', d) && es[..d] == es'[..d]
    ensures RecsTo(es', i, d) == RecsTo(es, i, d)
    decreases d - i
  {
    if i < d {
      assert es[i] == es[..d][i] == es'[i];
      RecBeforeFence(es, es', i, d);
      RecsBeforeFence(es, es', i + 1, d);
    }
  }

  lemma {:induction false} NameAfter(es: seq<Entry>, es': seq<Entry>, t: nat, j: nat, acc: seq<byte>, stop: bool)
    requires |es| == |es'| && t <= j && (forall s :: t <= s < |es| ==> es[s] == es'[s])
    ensures NameFrom(es', j, acc, stop) == NameFrom(es, j, acc, stop)
    decreases |es| - j
  {
    if j < |es| && es[j][0] == NAME { NameAfter(es, es', t, j + 1, EntryChars(es[j], 0, acc, stop), stop); }
  }

  /** Earlier slots do not affect the files listed from slot `i` on. */
  lemma {:induction false} RecsAfter(es: seq<Entry>, es': seq<Entry>, t: nat, i: nat)
    requires |es| == |es'| && t <= i && (forall s :: t <= s < |es| ==> es[s] == es'[s])
    ensures Recs(es', i) == Recs(es, i)
    decreases |es| - i
  {
    if i < |es| {
      NameAfter(es, es', t, i + 1, [], false);
      NameAfter(es, es', t, i + 1, [], true);
      NameAfter(es, es', t, i + 2, [], false);
      NameAfter(es, es', t, i + 2, [], true);
      RecsAfter(es, es', t, i + 1);
    }
  }

  // ----- adding a file -----

  /** The first slot with an end mark, or the end of the cluster. */
  function EndSlot(es: seq<Entry>, i: nat): (d: nat)
    requires i <= |es|
    ensures i <= d <= |es| && (d < |es| ==> es[d][0] == 0)
    ensures forall s :: i <= s < d ==> es[s][0] != 0
    decreases |es| - i
  {
    if i == |es| || es[i][0] == 0 then i else EndSlot(es, i + 1)
  }

  function FileEntry(secondaries: nat): Entry {
    seq(32, p requires 0 <= p < 32 =>
      if p == 0 then 0x85 else if p == 1 then (secondaries % 0x100) as byte else if p == 4 then 0x20 else 0)
  }

  /** A stream entry without its first cluster. */
  function StreamHead(nameLen: nat): Entry {
    seq(32, p requires 0 <= p < 32 => if p == 0 then STREAM else if p == 3 then (nameLen % 0x100) as byte else 0)
  }

  function StreamEntry(nameLen: nat, first: nat): Entry {
    Splice(StreamHead(nameLen), 20, Le32(first))
  }

  /** Up to 15 characters as UTF-16 units from byte 2 on, padded with zeros. */
  function NameEntry(chunk: seq<byte>): Entry
    requires |chunk| <= 15
  {
    seq(32, p requires 0 <= p < 32 =>
      if p == 0 then NAME
      else if p >= 2 && p % 2 == 0 && (p - 2) / 2 < |chunk| then chunk[(p - 2) / 2] else 0)
  }

  function NameEntries(name: seq<byte>): seq<Entry> {
    if name == [] then [] else [NameEntry(name[..Min(15, |name|)])] + NameEntries(name[Min(15, |name|)..])
  }

  lemma {:induction false} NameEntryCount(name: seq<byte>)
    ensures |NameEntries(name)| == (|name| + 14) / 15
  {
    if name != [] { NameEntryCount(name[Min(15, |name|)..]); }
  }

  function FileSet(name: seq<byte>, first: nat): (r: seq<Entry>)
    ensures |r| == 2 + |NameEntries(name)|
  {
    var names := NameEntries(name);
    [FileEntry(1 + |names|), StreamEntry(|name|, first)] + names
  }

  /** The entry set as sections 7.4, 7.6 and 7.7 of the exFAT specification lay it out: entry types, number
      of secondary entries, archive attribute, name length, first cluster and length. */
  lemma FileSetFields(name: seq<byte>, first: nat)
    requires first < TWO32
    ensures var r := FileSet(name, first);
            && |r| == 2 + (|name| + 14) / 15
            && r[0][0] == 0x85 && r[0][1] as int == (|r| - 1) % 0x100 && U16(r[0], 4) == 0x20
            && r[1][0] == 0xC0 && r[1][3] as int == |name| % 0x100 && U32(r[1], 20) == first && U64(r[1], 24) == 0
            && forall i :: 2 <= i < |r| ==> r[i][0] == 0xC1
  {
    NameEntryCount(name);
    FileFields(1 + |NameEntries(name)|);
    StreamFields(|name|, first);
    NamesAreNames(name);
  }

  /** The directory with a new file at slot `d` and an end mark behind it, if there is room for one. */
  function AddAt(es: seq<Entry>, d: nat, new_: seq<Entry>): (r: seq<Entry>)
    requires d + |new_| <= |es|
    ensures |r| == |es|
  {
    var r := Splice(es, d, new_);
    if d + |new_| < |es| then r[d + |new_| := Splice(es[d + |new_|], 0, [0])] else r
  }

  /** `acc` with the glyphs of `name` added while fewer than 63 characters are there. */
  function Show(acc: seq<byte>, name: seq<byte>): seq<byte>
    decreases |name|
  {
    if name == [] || |acc| >= NAME_MAX then acc else Show(acc + [Glyph(name[0] as int)], name[1..])
  }

  /** The name a scan shows for a file created as `name`. */
  function Shown(name: seq<byte>): seq<byte> {
    Show([], name)
  }

  lemma {:induction false} ShowAppends(acc: seq<byte>, a: seq<byte>, b: seq<byte>)
    ensures Show(Show(acc, a), b) == Show(acc, a + b)
    decreases |a|
  {
    if a == [] {
      assert a + b == b;
    } else if |acc| < NAME_MAX {
      assert (a + b)[1..] == a[1..] + b;
      ShowAppends(acc + [Glyph(a[0] as int)], a[1..], b);
    }
  }

  /** Character by character, up to the cap. */
  lemma {:induction false} ShowChars(acc: seq<byte>, name: seq<byte>)
    requires |acc| <= NAME_MAX
    ensures |Show(acc, name)| == Min(NAME_MAX, |acc| + |name|)
    ensures forall i :: 0 <= i < |acc| ==> Show(acc, name)[i] == acc[i]
    ensures forall i :: |acc| <= i < |Show(acc, name)| ==> Show(acc, name)[i] == Glyph(name[i - |acc|] as int)
    decreases |name|
  {
    if name != [] && |acc| < NAME_MAX {
      var acc' := acc + [Glyph(name[0] as int)];
      ShowChars(acc', name[1..]);
      var r := Show(acc, name);
      forall i | 0 <= i < |acc|
        ensures r[i] == acc[i]
      {
        assert r[i] == acc'[i];
      }
      forall i | |acc| <= i < |r|
        ensures r[i] == Glyph(name[i - |acc|] as int)
      {
        if i == |acc| { assert r[i] == acc'[i]; } else { assert name[1..][i - |acc'|] == name[i - |acc|]; }
      }
    }
  }

  /** Exactly the names of at most 63 characters, all ASCII, are shown as they were given. */
  lemma ShownExactly(name: seq<byte>)
    ensures Shown(name) == name <==> |name| <= NAME_MAX && forall i :: 0 <= i < |name| ==> name[i] < 128
  {
    ShowChars([], name);
    if Shown(name) == name {
      forall i | 0 <= i < |name|
        ensures name[i] < 128
      {
        assert Shown(name)[i] == Glyph(name[i] as int);
      }
    }
  }

  /** Character by character: ASCII as it is, a question mark for the rest, and 63 at most. */
  lemma ShownIs(name: seq<byte>, i: nat)
    ensures |Shown(name)| == Min(63, |name|)
    ensures i < |Shown(name)| ==> Shown(name)[i] == if name[i] < 128 then name[i] else 63
  {
    ShowChars([], name);
  }

  /** A name of 64 letters loses its last. */
  lemma LongNameIsCut()
    ensures var name: seq<byte> := seq(64, _ => 97); Shown(name) == name[..63] && Shown(name) != name
  {
    var name: seq<byte> := seq(64, _ => 97);
    ShowChars([], name);
    assert Shown(name) == name[..63];
    assert |Shown(name)| == 63;
  }

  /** A name as a C string holds it. */
  ghost predicate NonZero(name: seq<byte>) {
    forall i :: 0 <= i < |name| ==> name[i] != 0
  }

  lemma UnitOf(chunk: seq<byte>, k: nat)
    requires |chunk| <= 15 && k < 15
    ensures U16(NameEntry(chunk), 2 + 2 * k) == if k < |chunk| then chunk[k] as int else 0
  {
    U16Bytes(NameEntry(chunk), 2 + 2 * k);
  }

  lemma {:induction false} EntryShows(chunk: seq<byte>, k: nat, acc: seq<byte>, stop: bool)
    requires |chunk| <= 15 && k <= |chunk| && NonZero(chunk)
    ensures EntryChars(NameEntry(chunk), k, acc, stop) == Show(acc, chunk[k..])
    decreases |chunk| - k
  {
    if k == |chunk| {
      PaddingShowsNothing(chunk, k, acc, stop);
    } else if |acc| < NAME_MAX {
      UnitOf(chunk, k);
      EntryShows(chunk, k + 1, acc + [Glyph(chunk[k] as int)], stop);
      assert chunk[k..][1..] == chunk[k + 1..];
    }
  }

  lemma {:induction false} PaddingShowsNothing(chunk: seq<byte>, k: nat, acc: seq<byte>, stop: bool)
    requires |chunk| <= 15 && |chunk| <= k
    ensures EntryChars(NameEntry(chunk), k, acc, stop) == acc
    decreases 15 - k
  {
    if k < 15 && |acc| < NAME_MAX {
      UnitOf(chunk, k);
      if !stop { PaddingShowsNothing(chunk, k + 1, acc, stop); }
    }
  }

  ghost predicate HoldsNames(es: seq<Entry>, j: nat, names: seq<Entry>) {
    && j + |names| <= |es| && es[j..j + |names|] == names
    && (j + |names| < |es| ==> es[j + |names|][0] != NAME)
  }

  lemma HoldsNamesTail(es: seq<Entry>, j: nat, names: seq<Entry>)
    requires HoldsNames(es, j, names) && 0 < |names|
    ensures es[j] == names[0] && HoldsNames(es, j + 1, names[1..])
  {
    assert es[j] == es[j..j + |names|][0];
    assert es[j + 1..j + |names|] == es[j..j + |names|][1..];
  }

  /** Encoding a name and scanning it gives the shown name, to the scan and to `unlink` alike. */
  lemma {:induction false} NameShows(es: seq<Entry>, j: nat, name: seq<byte>, acc: seq<byte>, stop: bool)
    requires NonZero(name) && HoldsNames(es, j, NameEntries(name))
    ensures NameFrom(es, j, acc, stop) == Show(acc, name)
    decreases |name|
  {
    if name != [] {
      var m := Min(15, |name|);
      var chunk, rest := name[..m], name[m..];
      NameStep(es, j, name, acc, stop);
      NameShows(es, j + 1, rest, Show(acc, chunk), stop);
      ShowAppends(acc, chunk, rest);
      assert chunk + rest == name;
    }
  }

  lemma NameStep(es: seq<Entry>, j: nat, name: seq<byte>, acc: seq<byte>, stop: bool)
    requires NonZero(name) && HoldsNames(es, j, NameEntries(name)) && name != []
    ensures var m := Min(15, |name|);
            && j < |es| && es[j][0] == NAME && EntryChars(es[j], 0, acc, stop) == Show(acc, name[..m])
            && HoldsNames(es, j + 1, NameEntries(name[m..]))
  {
    var chunk := name[..Min(15, |name|)];
    HoldsNamesTail(es, j, NameEntries(name));
    assert NameEntries(name)[1..] == NameEntries(name[Min(15, |name|)..]);
    EntryShows(chunk, 0, acc, stop);
    assert chunk[0..] == chunk;
  }

  lemma AddAtShape(es: seq<Entry>, d: nat, new_: seq<Entry>)
    requires d + |new_| <= |es| && 0 < |new_|
    ensures AddAt(es, d, new_)[..d] == es[..d]
    ensures AddAt(es, d, new_)[d..d + |new_|] == new_
    ensures d + |new_| < |es| ==> AddAt(es, d, new_)[d + |new_|][0] == 0
  {
  }

  /** Scanning after `create` finds the earlier files, then the new one, empty and with its cluster;
      this holds for every directory, whatever else it contains. */
  lemma AddListsFile(es: seq<Entry>, name: seq<byte>, first: nat)
    requires first < TWO32 && NonZero(name)
    requires EndSlot(es, 0) + |FileSet(name, first)| <= |es|
    ensures var d := EndSlot(es, 0);
            Recs(AddAt(es, d, FileSet(name, first)), 0) ==
            Recs(es, 0) + [Rec(d, true, false, first, 0, Shown(name), Shown(name))]
  {
    var d, new_ := EndSlot(es, 0), FileSet(name, first);
    AddAtShape(es, d, new_);
    AddedListsFile(es, AddAt(es, d, new_), d, name, first);
  }

  lemma AddedListsFile(es: seq<Entry>, es': seq<Entry>, d: nat, name: seq<byte>, first: nat)
    requires first < TWO32 && NonZero(name) && |es| == |es'|
    requires d < |es| && es[d][0] == 0 && forall s :: 0 <= s < d ==> es[s][0] != 0
    requires var e := d + |FileSet(name, first)|;
             e <= |es'| && es'[..d] == es[..d] && es'[d..e] == FileSet(name, first) && (e < |es'| ==> es'[e][0] == 0)
    ensures Recs(es', 0) == Recs(es, 0) + [Rec(d, true, false, first, 0, Shown(name), Shown(name))]
  {
    assert IsFile(es'[d]) && Recs(es', d) == [Rec(d, true, false, first, 0, Shown(name), Shown(name))] by {
      FileSetHeld(es', d, name, first);
      SetIsListed(es', d, name, first);
    }
    assert Recs(es, 0) == RecsTo(es, 0, d) by {
      RecsSplit(es, 0, d);
      assert Recs(es, d) == [];
    }
    SamePrefixRecs(es, es', d);
  }

  /** Directories that agree up to a fence list the same files up to it. */
  lemma SamePrefixRecs(es: seq<Entry>, es': seq<Entry>, d: nat)
    requires |es| == |es'| && Fence(es, d) && Fence(es', d) && es[..d] == es'[..d]
    requires forall s :: 0 <= s < d ==> es[s][0] != 0
    ensures Recs(es', 0) == RecsTo(es, 0, d) + Recs(es', d)
  {
    forall s | 0 <= s < d
      ensures es'[s][0] != 0
    {
      assert es'[s] == es'[..d][s] == es[..d][s];
    }
    RecsSplit(es', 0, d);
    RecsBeforeFence(es, es', 0, d);
  }

  /** Slots `d ..` hold a complete entry set for `name`, in front of an end mark. */
  ghost predicate HoldsSet(es: seq<Entry>, d: nat, name: seq<byte>, first: nat) {
    && d + 2 <= |es| && IsFile(es[d]) && es[d + 1][0] == STREAM
    && U16(es[d], 4) == 0x20 && U32(es[d + 1], 20) == first && U64(es[d + 1], 24) == 0
    && HoldsNames(es, d + 2, NameEntries(name))
    && (d + 2 + |NameEntries(name)| < |es| ==> es[d + 2 + |NameEntries(name)|][0] == 0)
  }

  lemma FileSetHeld(es: seq<Entry>, d: nat, name: seq<byte>, first: nat)
    requires first < TWO32
    requires var e := d + |FileSet(name, first)|;
             e <= |es| && es[d..e] == FileSet(name, first) && (e < |es| ==> es[e][0] == 0)
    ensures HoldsSet(es, d, name, first)
  {
    var names := NameEntries(name);
    var e := d + 2 + |names|;
    assert es[d + 2..e] == es[d..e][2..] == names;
    assert es[d] == es[d..e][0] && es[d + 1] == es[d..e][1];
    StreamFields(|name|, first);
    FileFields(1 + |names|);
  }

  lemma FileFields(secondaries: nat)
    ensures IsFile(FileEntry(secondaries)) && U16(FileEntry(secondaries), 4) == 0x20
  {
    U16Bytes(FileEntry(secondaries), 4);
  }

  /** A complete entry set in front of an end mark is one file. */
  lemma SetIsListed(es: seq<Entry>, d: nat, name: seq<byte>, first: nat)
    requires NonZero(name) && HoldsSet(es, d, name, first)
    ensures Recs(es, d) == [Rec(d, true, false, first, 0, Shown(name), Shown(name))]
  {
    SetRec(es, d, name, first);
    NamesSkipped(es, d + 2, name);
    assert Recs(es, d + 1) == Recs(es, d + 2);
  }

  lemma SetRec(es: seq<Entry>, d: nat, name: seq<byte>, first: nat)
    requires NonZero(name) && HoldsSet(es, d, name, first)
    ensures RecAt(es, d) == Rec(d, true, false, first, 0, Shown(name), Shown(name))
  {
    NameShows(es, d + 2, name, [], false);
    NameShows(es, d + 2, name, [], true);
  }

  lemma NamesSkipped(es: seq<Entry>, j: nat, name: seq<byte>)
    requires var e := j + |NameEntries(name)|;
             e <= |es| && es[j..e] == NameEntries(name) && (e < |es| ==> es[e][0] == 0)
    ensures Recs(es, j) == []
  {
    var e := j + |NameEntries(name)|;
    NamesAreNames(name);
    forall s | j <= s < e
      ensures es[s][0] == NAME
    {
      assert es[s] == es[j..e][s - j];
    }
    RecsSkipNames(es, j, e - j);
  }

  lemma StreamFields(nameLen: nat, first: nat)
    requires first < TWO32
    ensures var e := StreamEntry(nameLen, first); e[0] == STREAM && U32(e, 20) == first && U64(e, 24) == 0
  {
    var e := StreamEntry(nameLen, first);
    assert e[20..24] == Le32(first);
    Le32RoundTrip(e, 20, first);
    ZeroField(e[24..32]);
  }

  lemma {:induction false} ZeroField(s: seq<byte>)
    requires forall i :: 0 <= i < |s| ==> s[i] == 0
    ensures FromLe(s) == 0
  {
    if s != [] { ZeroField(s[1..]); }
  }

  lemma {:induction false} NamesAreNames(name: seq<byte>)
    ensures forall i :: 0 <= i < |NameEntries(name)| ==> NameEntries(name)[i][0] == NAME
  {
    if name != [] { NamesAreNames(name[Min(15, |name|)..]); }
  }

  lemma {:induction false} RecsSkipNames(es: seq<Entry>, j: nat, n: nat)
    requires j + n <= |es| && forall s :: j <= s < j + n ==> es[s][0] == NAME
    ensures Recs(es, j) == Recs(es, j + n)
    decreases n
  {
    if n > 0 { RecsSkipNames(es, j + 1, n - 1); }
  }

  // ----- changing a file's size -----

  /** The first file, from slot 0 on, whose stream entry holds cluster `first`, or the number of files. */
  function FindCluster(recs: seq<Rec>, first: nat, i: nat): (k: nat)
    requires i <= |recs|
    ensures i <= k <= |recs| && (k < |recs| ==> recs[k].stream && recs[k].first == first)
    ensures forall j :: i <= j < k ==> !(recs[j].stream && recs[j].first == first)
    decreases |recs| - i
  {
    if i == |recs| || (recs[i].stream && recs[i].first == first) then i else FindCluster(recs, first, i + 1)
  }

  function SetSize(es: seq<Entry>, s: nat, size: nat): (r: seq<Entry>)
    requires s + 1 < |es|
    ensures |r| == |es|
  {
    es[s + 1 := Splice(es[s + 1], 24, Le64(size))]
  }

  function SetFirst(es: seq<Entry>, s: nat, first: nat): (r: seq<Entry>)
    requires s + 1 < |es|
    ensures |r| == |es|
  {
    es[s + 1 := Splice(es[s + 1], 20, Le32(first))]
  }

  /** The update of a stream entry: the first cluster only if a valid and different one is given. */
  function SetStream(es: seq<Entry>, s: nat, first: nat, newFirst: nat, size: nat): (r: seq<Entry>)
    requires s + 1 < |es|
    ensures |r| == |es|
  {
    SetSize(if newFirst >= 2 && newFirst != first then SetFirst(es, s, newFirst) else es, s, size)
  }

  /** Changing the stream entry of the file at slot `s` changes that file in the listing, and nothing else. */
  lemma {:induction false} StreamChangeLists(es: seq<Entry>, es': seq<Entry>, i: nat, s: nat)
    requires i <= s && HasStream(es, s) && HasStream(es', s) && IsFile(es[s]) && |es'| == |es|
    requires forall t :: 0 <= t < |es| && t != s + 1 ==> es'[t] == es[t]
    requires forall t :: i <= t <= s ==> es[t][0] != 0
    ensures var k := |RecsTo(es, i, s)|;
            k < |Recs(es, i)| && Recs(es, i)[k] == RecAt(es, s) && Recs(es', i) == Recs(es, i)[k := RecAt(es', s)]
  {
    RecsSplit(es, i, s);
    RecsSplit(es', i, s);
    assert es'[..s] == es[..s];
    RecsBeforeFence(es, es', i, s);
    RecsAfter(es, es', s + 2, s + 2);
    assert Recs(es, s) == [RecAt(es, s)] + Recs(es, s + 2);
    assert Recs(es', s) == [RecAt(es', s)] + Recs(es', s + 2);
  }

  /** Setting the size of the file at slot `s` changes that file's size in the listing, and nothing else. */
  lemma SetSizeLists(es: seq<Entry>, i: nat, s: nat, size: nat)
    requires i <= s && HasStream(es, s) && IsFile(es[s]) && size < TWO64
    requires forall t :: i <= t <= s ==> es[t][0] != 0
    ensures var k := |RecsTo(es, i, s)|;
            k < |Recs(es, i)| && Recs(es, i)[k] == RecAt(es, s)
            && Recs(SetSize(es, s, size), i) == Recs(es, i)[k := RecAt(es, s).(size := size)]
  {
    SetSizeRec(es, s, size);
    StreamChangeLists(es, SetSize(es, s, size), i, s);
  }

  lemma SetSizeRec(es: seq<Entry>, s: nat, size: nat)
    requires HasStream(es, s) && size < TWO64
    ensures var es' := SetSize(es, s, size); HasStream(es', s) && RecAt(es', s) == RecAt(es, s).(size := size)
  {
    var es' := SetSize(es, s, size);
    NameAfter(es, es', s + 2, s + 2, [], false);
    NameAfter(es, es', s + 2, s + 2, [], true);
    SizeField(es[s + 1], size);
  }

  lemma SizeField(e: Entry, size: nat)
    requires size < TWO64
    ensures var e' := Splice(e, 24, Le64(size)); U64(e', 24) == size && U32(e', 20) == U32(e, 20) && e'[0] == e[0]
  {
    var e' := Splice(e, 24, Le64(size));
    assert e'[24..32] == Le64(size);
    Le64RoundTrip(e', 24, size);
    U32Frame(e, e', 20);
  }

  lemma SetFirstRec(es: seq<Entry>, s: nat, first: nat)
    requires HasStream(es, s) && first < TWO32
    ensures var es' := SetFirst(es, s, first); HasStream(es', s) && RecAt(es', s) == RecAt(es, s).(first := first)
  {
    var es' := SetFirst(es, s, first);
    NameAfter(es, es', s + 2, s + 2, [], false);
    NameAfter(es, es', s + 2, s + 2, [], true);
    FirstField(es[s + 1], first);
  }

  lemma FirstField(e: Entry, first: nat)
    requires first < TWO32
    ensures var e' := Splice(e, 20, Le32(first)); U32(e', 20) == first && U64(e', 24) == U64(e, 24) && e'[0] == e[0]
  {
    var e' := Splice(e, 20, Le32(first));
    assert e'[20..24] == Le32(first);
    Le32RoundTrip(e', 20, first);
    assert e'[24..32] == e[24..32];
  }

  /** Both at once, as the update does it. */
  lemma SetStreamLists(es: seq<Entry>, s: nat, first: nat, newFirst: nat, size: nat)
    requires HasStream(es, s) && IsFile(es[s]) && newFirst < TWO32 && size < TWO64
    requires forall t :: 0 <= t <= s ==> es[t][0] != 0
    ensures var k := |RecsTo(es, 0, s)|;
            var r := RecAt(es, s).(size := size);
            && k < |Recs(es, 0)| && Recs(es, 0)[k] == RecAt(es, s)
            && Recs(SetStream(es, s, first, newFirst, size), 0) ==
               Recs(es, 0)[k := if newFirst >= 2 && newFirst != first then r.(first := newFirst) else r]
  {
    SetStreamRec(es, s, first, newFirst, size);
    StreamChangeLists(es, SetStream(es, s, first, newFirst, size), 0, s);
  }

  lemma SetStreamRec(es: seq<Entry>, s: nat, first: nat, newFirst: nat, size: nat)
    requires HasStream(es, s) && newFirst < TWO32 && size < TWO64
    ensures var es', r := SetStream(es, s, first, newFirst, size), RecAt(es, s).(size := size);
            && HasStream(es', s) && (forall t :: 0 <= t < |es| && t != s + 1 ==> es'[t] == es[t])
            && RecAt(es', s) == if newFirst >= 2 && newFirst != first then r.(first := newFirst) else r
  {
    var es1 := if newFirst >= 2 && newFirst != first then SetFirst(es, s, newFirst) else es;
    SetFirstRec(es, s, newFirst);
    SetSizeRec(es1, s, size);
  }

  // ----- removing a file -----

  /** The first listed file whose name `unlink` finds equal to `name`, or the number of files. */
  function Find(recs: seq<Rec>, name: seq<byte>, i: nat): (k: nat)
    requires i <= |recs|
    ensures i <= k <= |recs| && (k < |recs| ==> recs[k].stream && recs[k].uname == name)
    ensures forall j :: i <= j < k ==> !(recs[j].stream && recs[j].uname == name)
    decreases |recs| - i
  {
    if i == |recs| || (recs[i].stream && recs[i].uname == name) then i else Find(recs, name, i + 1)
  }

  /** The directory after `unlink` has zeroed the entry set at slot `s`. */
  function EraseAt(es: seq<Entry>, s: nat): (r: seq<Entry>)
    requires s + 2 <= |es|
    ensures |r| == |es|
  {
    Splice(es, s, seq(RunEnd(es, s + 2) - s, _ => BlankEntry))
  }

  /** Exactly the file's own entries are zeroed: its file and stream entry and the run of name entries behind them. */
  lemma EraseBlanks(es: seq<Entry>, s: nat, t: nat)
    requires s + 2 <= |es| && t < |es|
    ensures EraseAt(es, s)[t] == if s <= t && (t < s + 2 || AllNames(es, s + 2, t)) then BlankEntry else es[t]
  {
    RunEndIs(es, s + 2, t);
  }

  ghost predicate AllNames(es: seq<Entry>, j: nat, t: nat) {
    t < |es| && forall i :: j <= i <= t ==> es[i][0] == 0xC1
  }

  lemma {:induction false} RunEndIs(es: seq<Entry>, j: nat, t: nat)
    requires t < |es|
    ensures j <= t ==> (t < RunEnd(es, j) <==> AllNames(es, j, t))
    decreases |es| - j
  {
    if j < |es| && es[j][0] == NAME { RunEndIs(es, j + 1, t); }
  }

  /** The slot that `unlink` clears becomes the end mark: the listing is cut off at the removed file. */
  lemma EraseLists(es: seq<Entry>, s: nat)
    requires HasStream(es, s) && IsFile(es[s])
    requires forall t :: 0 <= t <= s ==> es[t][0] != 0
    ensures var k := |RecsTo(es, 0, s)|;
            k < |Recs(es, 0)| && Recs(es, 0)[k] == RecAt(es, s)
            && Recs(EraseAt(es, s), 0) == Recs(es, 0)[..k]
  {
    var es' := EraseAt(es, s);
    RecsSplit(es, 0, s);
    assert es'[..s] == es[..s];
    assert forall t :: 0 <= t < s ==> es'[t] == es[t];
    assert es'[s] == BlankEntry;
    RecsSplit(es', 0, s);
    RecsBeforeFence(es, es', 0, s);
  }
}

/** Where the FAT and the clusters lie on the device (fs/exfat.c; section 4.1 of the exFAT specification). */
module Layout {
  import opened Bytes
  import opened FatChain

  /** FAT position and length, position of the cluster heap, all in 512-byte sectors; sectors and bytes per cluster. */
  datatype Layout = Layout(fatOffset: nat, fatLength: nat, heapOffset: nat, spc: nat, csz: nat) {
    function Entries(): nat {
      fatLength * 128
    }

    /** The device byte at which cluster `c` starts. */
    function ClusterPos(c: nat): nat
      requires 2 <= c
    {
      if c == 2 then 512 * heapOffset else ClusterPos(c - 1) + csz
    }

    /** The FAT lies in front of the heap, every FAT entry has its cluster on the device, and no
        32-bit position wraps. */
    ghost predicate Ok(bytes: nat) {
      && 0 < spc && csz == 512 * spc && 0 < fatLength && fatOffset + fatLength <= heapOffset
      && ClusterPos(Entries()) <= bytes < 512 * TWO32
      && 512 * fatLength < TWO32
    }
  }

  lemma EntryBounds(l: Layout, bytes: nat, c: nat)
    requires l.Ok(bytes) && c < l.Entries()
    ensures 512 * l.fatOffset + 4 * c + 4 <= 512 * l.heapOffset <= bytes
  {
    ClusterPosMono(l, 2, l.Entries());
  }

  lemma {:induction false} ClusterPosMono(l: Layout, b: nat, c: nat)
    requires 2 <= b <= c
    ensures l.ClusterPos(b) <= l.ClusterPos(c)
    decreases c
  {
    if b < c { ClusterPosMono(l, b, c - 1); }
  }

  lemma {:induction false} ClusterPosIs(l: Layout, c: nat)
    requires 2 <= c
    ensures l.ClusterPos(c) == 512 * l.heapOffset + Times(c - 2, l.csz)
    decreases c
  {
    if c > 2 { ClusterPosIs(l, c - 1); }
  }

  /** On a layout of this kind all clusters together are far smaller than 2^63 bytes. */
  lemma Capacity(l: Layout, bytes: nat)
    requires l.Ok(bytes)
    ensures Times(l.Entries() + 1, l.csz) <= TWO63
  {
    var n := l.Entries();
    ClusterPosIs(l, n);
    TimesMono(1, n - 2, l.csz);
    assert Times(1, l.csz) == Times(0, l.csz) + l.csz;
    assert Times(n + 1, l.csz) == Times(n, l.csz) + l.csz && Times(n, l.csz) == Times(n - 1, l.csz) + l.csz;
  }

  lemma ClusterBounds(l: Layout, bytes: nat, c: nat)
    requires l.Ok(bytes) && 2 <= c < l.Entries()
    ensures 512 * l.heapOffset <= l.ClusterPos(c) && l.ClusterPos(c) + l.csz <= bytes
  {
    ClusterPosMono(l, 2, c);
    ClusterPosMono(l, c + 1, l.Entries());
  }

  lemma ClustersApart(l: Layout, b: nat, c: nat)
    requires 2 <= b < c
    ensures l.ClusterPos(b) + l.csz <= l.ClusterPos(c)
  {
    ClusterPosMono(l, b + 1, c);
  }

  function FatAt(l: Layout, d: seq<byte>, c: nat): nat
    requires l.Ok(|d|) && c < l.Entries()
  {
    EntryBounds(l, |d|, c);
    U32(d, 512 * l.fatOffset + 4 * c)
  }

  function ClusterAt(l: Layout, d: seq<byte>, c: nat): (x: seq<byte>)
    requires l.Ok(|d|) && c < l.Entries()
    ensures |x| == if c < 2 then 0 else l.csz
  {
    if c < 2 then [] else
      ClusterBounds(l, |d|, c);
      d[l.ClusterPos(c)..l.ClusterPos(c) + l.csz]
  }

  /** FAT entries `c ..`, and clusters `c ..`. */
  function FatFrom(l: Layout, d: seq<byte>, c: nat): (r: seq<nat>)
    requires l.Ok(|d|) && c <= l.Entries()
    ensures |r| == l.Entries() - c
    decreases l.Entries() - c
  {
    if c == l.Entries() then [] else [FatAt(l, d, c)] + FatFrom(l, d, c + 1)
  }

  function HeapFrom(l: Layout, d: seq<byte>, c: nat): (r: seq<seq<byte>>)
    requires l.Ok(|d|) && c <= l.Entries()
    ensures |r| == l.Entries() - c
    decreases l.Entries() - c
  {
    if c == l.Entries() then [] else [ClusterAt(l, d, c)] + HeapFrom(l, d, c + 1)
  }

  lemma {:induction false} FatFromAt(l: Layout, d: seq<byte>, c: nat, i: nat)
    requires l.Ok(|d|) && c + i < l.Entries()
    ensures FatFrom(l, d, c)[i] == FatAt(l, d, c + i)
    decreases i
  {
    if i > 0 { FatFromAt(l, d, c + 1, i - 1); }
  }

  lemma {:induction false} HeapFromAt(l: Layout, d: seq<byte>, c: nat, i: nat)
    requires l.Ok(|d|) && c + i < l.Entries()
    ensures HeapFrom(l, d, c)[i] == ClusterAt(l, d, c + i)
    decreases i
  {
    if i > 0 { HeapFromAt(l, d, c + 1, i - 1); }
  }

  /** The FAT and the clusters that the device's bytes hold. */
  function VolOf(l: Layout, d: seq<byte>): (v: Vol)
    requires l.Ok(|d|)
    ensures |v.fat| == |v.heap| == l.Entries()
  {
    Vol(FatFrom(l, d, 0), HeapFrom(l, d, 0))
  }

  lemma VolAt(l: Layout, d: seq<byte>, c: nat)
    requires l.Ok(|d|) && c < l.Entries()
    ensures VolOf(l, d).fat[c] == FatAt(l, d, c) && VolOf(l, d).heap[c] == ClusterAt(l, d, c)
  {
    FatFromAt(l, d, 0, c);
    HeapFromAt(l, d, 0, c);
  }

  lemma VolSized(l: Layout, d: seq<byte>)
    requires l.Ok(|d|)
    ensures Sized(VolOf(l, d), l.csz)
  {
    forall c | 2 <= c < l.Entries()
      ensures |VolOf(l, d).heap[c]| == l.csz
    {
      VolAt(l, d, c);
    }
  }

  lemma FatWriteEntry(l: Layout, d: seq<byte>, c: nat, val: nat, b: nat)
    requires l.Ok(|d|) && c < l.Entries() && val < TWO32 && b < l.Entries()
    ensures 512 * l.fatOffset + 4 * c + 4 <= |d|
    ensures FatAt(l, Splice(d, 512 * l.fatOffset + 4 * c, Le32(val)), b) == if b == c then val else FatAt(l, d, b)
  {
    EntryBounds(l, |d|, b);
    EntryBounds(l, |d|, c);
    var at := 512 * l.fatOffset + 4 * c;
    var d' := Splice(d, at, Le32(val));
    if b == c {
      assert d'[at..at + 4] == Le32(val);
      Le32RoundTrip(d', at, val);
    } else {
      U32Frame(d, d', 512 * l.fatOffset + 4 * b);
    }
  }

  /** Two devices hold the same volume but for one FAT entry, or one cluster. */
  lemma SameVol(l: Layout, d: seq<byte>, d': seq<byte>, fat: seq<nat>, heap: seq<seq<byte>>)
    requires l.Ok(|d|) && |d'| == |d| && |fat| == |heap| == l.Entries()
    requires forall b :: 0 <= b < l.Entries() ==> FatAt(l, d', b) == fat[b]
    requires forall b :: 0 <= b < l.Entries() ==> ClusterAt(l, d', b) == heap[b]
    ensures VolOf(l, d') == Vol(fat, heap)
  {
    forall b | 0 <= b < l.Entries()
      ensures VolOf(l, d').fat[b] == fat[b] && VolOf(l, d').heap[b] == heap[b]
    {
      VolAt(l, d', b);
    }
  }

  /** Writing one FAT entry changes that entry and no cluster. */
  lemma FatWrite(l: Layout, d: seq<byte>, c: nat, val: nat)
    requires l.Ok(|d|) && c < l.Entries() && val < TWO32
    ensures 512 * l.fatOffset + 4 * c + 4 <= |d|
    ensures var d' := Splice(d, 512 * l.fatOffset + 4 * c, Le32(val));
            VolOf(l, d') == Vol(VolOf(l, d).fat[c := val], VolOf(l, d).heap)
  {
    EntryBounds(l, |d|, c);
    var d' := Splice(d, 512 * l.fatOffset + 4 * c, Le32(val));
    var v := VolOf(l, d);
    forall b | 0 <= b < l.Entries()
      ensures FatAt(l, d', b) == v.fat[c := val][b]
    {
      FatWriteEntry(l, d, c, val, b);
      VolAt(l, d, b);
    }
    forall b | 0 <= b < l.Entries()
      ensures ClusterAt(l, d', b) == v.heap[b]
    {
      if 2 <= b { ClusterBounds(l, |d|, b); }
      VolAt(l, d, b);
    }
    SameVol(l, d, d', v.fat[c := val], v.heap);
  }

  /** Writing one cluster changes that cluster, no other, and no FAT entry. */
  lemma ClusterWrite(l: Layout, d: seq<byte>, c: nat, x: seq<byte>)
    requires l.Ok(|d|) && 2 <= c < l.Entries() && |x| == l.csz
    ensures l.ClusterPos(c) + l.csz <= |d|
    ensures var d' := Splice(d, l.ClusterPos(c), x);
            VolOf(l, d') == Vol(VolOf(l, d).fat, VolOf(l, d).heap[c := x])
  {
    ClusterBounds(l, |d|, c);
    var d' := Splice(d, l.ClusterPos(c), x);
    var v := VolOf(l, d);
    forall b | 0 <= b < l.Entries()
      ensures FatAt(l, d', b) == v.fat[b]
    {
      ClusterWriteFat(l, d, c, x, b);
      VolAt(l, d, b);
    }
    forall b | 0 <= b < l.Entries()
      ensures ClusterAt(l, d', b) == v.heap[c := x][b]
    {
      ClusterWriteOther(l, d, c, x, b);
      VolAt(l, d, b);
    }
    SameVol(l, d, d', v.fat, v.heap[c := x]);
  }

  lemma ClusterWriteFat(l: Layout, d: seq<byte>, c: nat, x: seq<byte>, b: nat)
    requires l.Ok(|d|) && 2 <= c < l.Entries() && |x| == l.csz && b < l.Entries()
    ensures l.ClusterPos(c) + l.csz <= |d|
    ensures FatAt(l, Splice(d, l.ClusterPos(c), x), b) == FatAt(l, d, b)
  {
    ClusterBounds(l, |d|, c);
    EntryBounds(l, |d|, b);
    U32Frame(d, Splice(d, l.ClusterPos(c), x), 512 * l.fatOffset + 4 * b);
  }

  lemma ClusterWriteOther(l: Layout, d: seq<byte>, c: nat, x: seq<byte>, b: nat)
    requires l.Ok(|d|) && 2 <= c < l.Entries() && |x| == l.csz && b < l.Entries()
    ensures l.ClusterPos(c) + l.csz <= |d|
    ensures ClusterAt(l, Splice(d, l.ClusterPos(c), x), b) == if b == c then x else ClusterAt(l, d, b)
  {
    ClusterBounds(l, |d|, c);
    if 2 <= b {
      ClusterBounds(l, |d|, b);
      if b < c { ClustersApart(l, b, c); }
      if c < b { ClustersApart(l, c, b); }
    }
  }

  /** The sector of the FAT that holds entry `c`, and the entry's place in it. */
  function FatSector(l: Layout, c: nat): nat {
    l.fatOffset + c * 4 / 512
  }

  lemma FatSectorBounds(l: Layout, bytes: nat, c: nat)
    requires l.Ok(bytes) && c < l.Entries()
    ensures 512 * FatSector(l, c) + 512 <= bytes && c * 4 % 512 + 4 <= 512
    ensures 512 * FatSector(l, c) + c * 4 % 512 == 512 * l.fatOffset + 4 * c
  {
    EntryBounds(l, bytes, c);
  }

  lemma FatReadSector(l: Layout, d: seq<byte>, c: nat, sec: seq<byte>)
    requires l.Ok(|d|) && c < l.Entries() && 512 * FatSector(l, c) + 512 <= |d|
    requires sec == d[512 * FatSector(l, c)..512 * FatSector(l, c) + 512]
    ensures c * 4 % 512 + 4 <= 512 && U32(sec, c * 4 % 512) == VolOf(l, d).fat[c]
  {
    FatSectorBounds(l, |d|, c);
    FieldInSector(d, 512 * FatSector(l, c), sec, c * 4 % 512);
    VolAt(l, d, c);
  }

  lemma FieldInSector(d: seq<byte>, at: nat, sec: seq<byte>, i: nat)
    requires at + 512 <= |d| && sec == d[at..at + 512] && i + 4 <= 512
    ensures U32(sec, i) == U32(d, at + i)
  {
    SliceSlice(d, at, 512, i, 4);
  }

  lemma FatWriteSector(l: Layout, d: seq<byte>, c: nat, val: nat)
    requires l.Ok(|d|) && c < l.Entries() && val < TWO32
    ensures 512 * FatSector(l, c) + 512 <= |d| && c * 4 % 512 + 4 <= 512
    ensures var at := 512 * FatSector(l, c);
            var d' := Splice(d, at, Splice(d[at..at + 512], c * 4 % 512, Le32(val)));
            VolOf(l, d') == Vol(VolOf(l, d).fat[c := val], VolOf(l, d).heap)
  {
    var at, p, pos := 512 * FatSector(l, c), c * 4 % 512, 512 * l.fatOffset + 4 * c;
    FatSectorBounds(l, |d|, c);
    InSector(d, at, p, pos, Le32(val));
    assert Splice(d, at, Splice(d[at..at + 512], p, Le32(val))) == Splice(d, pos, Le32(val));
    FatWrite(l, d, c, val);
  }

  lemma InSector(d: seq<byte>, at: nat, p: nat, pos: nat, x: seq<byte>)
    requires at + 512 <= |d| && p + |x| <= 512 && at + p == pos
    ensures Splice(d, at, Splice(d[at..at + 512], p, x)) == Splice(d, pos, x)
  {
    SpliceWindow(d, at, 512, p, x);
  }

  /** The sector at which cluster `c` starts. */
  function ClusterLba(l: Layout, c: nat): nat
    requires 2 <= c
  {
    l.heapOffset + (c - 2) * l.spc
  }

  lemma ClusterLbaPos(l: Layout, bytes: nat, c: nat)
    requires l.Ok(bytes) && 2 <= c < l.Entries()
    ensures ClusterLba(l, c) * 512 == l.ClusterPos(c) && l.ClusterPos(c) + l.csz <= bytes
    ensures l.spc * 512 == l.csz
  {
    ClusterBounds(l, bytes, c);
    ClusterLbaSteps(l, c);
  }

  lemma {:induction false} ClusterLbaSteps(l: Layout, c: nat)
    requires 2 <= c && l.csz == 512 * l.spc
    ensures ClusterLba(l, c) * 512 == l.ClusterPos(c)
    decreases c
  {
    if c > 2 {
      ClusterLbaSteps(l, c - 1);
      MulAdd(c - 3, 1, l.spc);
    }
  }
}

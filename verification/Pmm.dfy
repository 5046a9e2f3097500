/** The physical frame allocator: a bitmap and a cached count of free bytes (mm/pmm.c). */
module Pmm {
  import opened Bytes
  import opened FrameMap
  import FrameRuns

  const MAX_FRAMES: nat := 0x10_0000
  const CAP: nat := TWO32
  const MAX_REGIONS: nat := 64

  /** A region of usable memory. */
  datatype Region = Region(base: nat, len: nat)

  predicate Bit(b: bv8, k: nat)
    requires k < 8
  {
    (b >> k) & 1 == 1
  }

  lemma SetBit(b: bv8, k: nat, j: nat)
    requires k < 8 && j < 8
    ensures Bit(b | ((1 as bv8) << k), j) == (j == k || Bit(b, j))
  {
  }

  lemma ClearBit(b: bv8, k: nat, j: nat)
    requires k < 8 && j < 8
    ensures Bit(b & !((1 as bv8) << k), j) == (j != k && Bit(b, j))
  {
  }

  /** Frames `i .. n` of a bitmap: one bit per frame, set when the frame is in use. */
  function BitsFrom(bm: seq<bv8>, i: nat, n: nat): (r: seq<bool>)
    requires i <= n <= 8 * |bm|
    ensures |r| == n - i
    decreases n - i
  {
    if i == n then [] else [Bit(bm[i / 8], i % 8)] + BitsFrom(bm, i + 1, n)
  }

  lemma {:induction false} BitsAt(bm: seq<bv8>, i: nat, n: nat, k: nat)
    requires i <= k < n <= 8 * |bm|
    ensures BitsFrom(bm, i, n)[k - i] == Bit(bm[k / 8], k % 8)
    decreases k - i
  {
    if i < k { BitsAt(bm, i + 1, n, k); }
  }

  /** Changing one bit of one byte changes one frame. */
  lemma BitsUpdate(bm: seq<bv8>, bm': seq<bv8>, n: nat, k: nat, val: bool)
    requires k < n <= 8 * |bm| && |bm'| == |bm|
    requires forall i :: 0 <= i < |bm| && i != k / 8 ==> bm'[i] == bm[i]
    requires forall j :: 0 <= j < 8 ==> Bit(bm'[k / 8], j) == if j == k % 8 then val else Bit(bm[k / 8], j)
    ensures BitsFrom(bm', 0, n) == BitsFrom(bm, 0, n)[k := val]
  {
    forall i | 0 <= i < n
      ensures BitsFrom(bm', 0, n)[i] == BitsFrom(bm, 0, n)[k := val][i]
    {
      BitsAt(bm, 0, n, i);
      BitsAt(bm', 0, n, i);
    }
  }

  function AlignDown(x: nat): nat {
    x / FRAME * FRAME
  }

  function AlignUp(x: nat): nat {
    AlignDown(W64(x + (FRAME - 1)))
  }

  /** The frames `i .. j` that reserving `size` bytes from `paddr` on takes: 64-bit sums, clipped to the bitmap. */
  function Span(base: nat, limit: nat, paddr: nat, size: nat): (nat, nat)
    requires base <= limit
  {
    var s, e := AlignDown(paddr), AlignUp(W64(paddr + size));
    var s', e' := if s < base then base else s, if e > limit then limit else e;
    if s' < e' then ((s' - base) / FRAME, (e' - base) / FRAME) else (0, 0)
  }

  /** The frames `i .. j` that freeing `count` frames from `paddr` on gives back. */
  function FreeSpan(base: nat, limit: nat, paddr: nat, count: nat): (nat, nat)
    requires base <= limit
  {
    if paddr < base || paddr >= limit then (0, 0)
    else
      var i := (paddr - base) / FRAME;
      (i, Min(i + count, (limit - base) / FRAME))
  }

  lemma EndsBelow(base: nat, frames: nat, max: nat, end: nat, k: nat)
    requires end == Min(if max > base then (max - base) / FRAME else 0, frames)
    ensures 0 < k <= frames ==> (base + k * FRAME > max <==> k > end)
  {
  }

  lemma FreeSpanOrdered(base: nat, limit: nat, paddr: nat, count: nat)
    requires base <= limit
    ensures var (i, j) := FreeSpan(base, limit, paddr, count); i <= j <= (limit - base) / FRAME
  {
  }

  lemma SpanAligned(base: nat, limit: nat, paddr: nat, size: nat)
    requires base % FRAME == 0 && limit % FRAME == 0 && base <= limit
    ensures var (i, j) := Span(base, limit, paddr, size);
            var s, e := AlignDown(paddr), AlignUp(W64(paddr + size));
            var s', e' := if s < base then base else s, if e > limit then limit else e;
            && i <= j <= (limit - base) / FRAME
            && (if s' < e' then s' == base + i * FRAME && e' == base + j * FRAME else i == j)
  {
    Aligned(base, AlignDown(paddr));
    Aligned(base, AlignUp(W64(paddr + size)));
    Aligned(base, limit);
  }

  lemma Aligned(base: nat, x: nat)
    requires base % FRAME == 0 && x % FRAME == 0
    ensures base <= x ==> x == base + (x - base) / FRAME * FRAME
  {
  }

  /** Frame `f` has a byte of the range. */
  ghost predicate HasByte(base: nat, paddr: nat, size: nat, f: nat) {
    0 < size && base + f * FRAME < paddr + size && paddr < base + (f + 1) * FRAME
  }

  /** If no sum wraps, reserving takes exactly the frames that have a byte of the range. */
  lemma SpanCovers(base: nat, limit: nat, paddr: nat, size: nat, f: nat)
    requires base % FRAME == 0 && limit % FRAME == 0 && base <= limit && 0 < size && paddr + size + FRAME <= TWO64
    requires f < (limit - base) / FRAME
    ensures var (i, j) := Span(base, limit, paddr, size);
            i <= f < j <==> HasByte(base, paddr, size, f)
  {
    assert W64(paddr + size) == paddr + size && W64(paddr + size + (FRAME - 1)) == paddr + size + (FRAME - 1);
  }

  /** If one wraps, it takes at most the frame that the range starts in. */
  lemma WrappedSpan(base: nat, limit: nat, paddr: nat, size: nat, f: nat)
    requires base % FRAME == 0 && limit % FRAME == 0 && base <= limit && 0 < size < TWO64 && paddr < TWO64
    requires paddr + size + FRAME > TWO64 && f < (limit - base) / FRAME
    ensures var (i, j) := Span(base, limit, paddr, size);
            i <= f < j ==> base + f * FRAME <= paddr < base + (f + 1) * FRAME
  {
    var w := W64(paddr + size);
    assert w < paddr || w + FRAME > TWO64;
    EndOfWrapped(paddr, w);
    SpanAligned(base, limit, paddr, size);
  }

  lemma EndOfWrapped(paddr: nat, w: nat)
    requires w < TWO64 && (w < paddr || w + FRAME > TWO64)
    ensures AlignUp(w) <= AlignDown(paddr) + FRAME
  {
    if w + FRAME > TWO64 {
      assert W64(w + (FRAME - 1)) == w + (FRAME - 1) - TWO64;
    }
  }

  /** Reserving takes exactly the frames that have a byte of the range. */
  ghost predicate SpanExact(base: nat, limit: nat, paddr: nat, size: nat)
    requires base <= limit
  {
    var (i, j) := Span(base, limit, paddr, size);
    forall f: nat :: f < (limit - base) / FRAME ==> (i <= f < j <==> HasByte(base, paddr, size, f))
  }

  /** It does so exactly when no sum wraps, or the range starts behind the bitmap, or it starts in the last frame
      and its wrapped end lies in that frame too. */
  lemma SpanExactIff(base: nat, limit: nat, paddr: nat, size: nat)
    requires base % FRAME == 0 && limit % FRAME == 0 && base < limit <= CAP && 0 < size < TWO64 && paddr < TWO64
    ensures SpanExact(base, limit, paddr, size) <==>
            || paddr + size + FRAME <= TWO64 || paddr >= limit
            || (paddr + size >= TWO64 && AlignDown(paddr) == limit - FRAME && W64(paddr + size) > AlignDown(paddr))
  {
    var n := (limit - base) / FRAME;
    Aligned(base, limit);
    if paddr + size + FRAME <= TWO64 {
      forall f: nat | f < n
        ensures var (i, j) := Span(base, limit, paddr, size); i <= f < j <==> HasByte(base, paddr, size, f)
      {
        SpanCovers(base, limit, paddr, size, f);
      }
    } else {
      forall f: nat | f < n
        ensures var (i, j) := Span(base, limit, paddr, size); i <= f < j ==> HasByte(base, paddr, size, f)
        ensures HasByte(base, paddr, size, f) ==> paddr < base + (f + 1) * FRAME <= limit
      {
        WrappedSpan(base, limit, paddr, size, f);
      }
      if paddr < limit {
        assert HasByte(base, paddr, size, n - 1);
        LastFrameTaken(base, limit, paddr, size, n);
      }
    }
  }

  /** A range of no bytes takes a frame all the same exactly when it starts inside one of the bitmap. */
  lemma EmptySpanIff(base: nat, limit: nat, paddr: nat)
    requires base % FRAME == 0 && limit % FRAME == 0 && base <= limit <= CAP && paddr < TWO64
    ensures SpanExact(base, limit, paddr, 0) <==> paddr % FRAME == 0 || paddr < base || paddr >= limit
  {
    EmptySpan(base, limit, paddr);
    var (i, j) := Span(base, limit, paddr, 0);
    if i < j { assert !HasByte(base, paddr, 0, i); }
  }

  /** No bytes from the second of the bitmap on: the first frame is taken. */
  lemma EmptyReserveTakes(base: nat, limit: nat)
    requires base % FRAME == 0 && limit % FRAME == 0 && base < limit <= CAP
    ensures Span(base, limit, base + 1, 0) == (0, 1) && !SpanExact(base, limit, base + 1, 0)
  {
    Unwrapped(base + 1);
    Unwrapped(base + 1 + (FRAME - 1));
    EmptySpanIff(base, limit, base + 1);
  }

  lemma EmptySpan(base: nat, limit: nat, paddr: nat)
    requires base % FRAME == 0 && limit % FRAME == 0 && base <= limit <= CAP && paddr < TWO64
    ensures var (i, j) := Span(base, limit, paddr, 0);
            i <= j <= (limit - base) / FRAME && (i == j <==> paddr % FRAME == 0 || paddr < base || paddr >= limit)
  {
    SpanAligned(base, limit, paddr, 0);
    Unwrapped(paddr);
    if paddr < limit { Unwrapped(paddr + (FRAME - 1)); }
  }

  /** A wrapped range takes the last frame exactly when it starts there and its wrapped end lies there too. */
  lemma LastFrameTaken(base: nat, limit: nat, paddr: nat, size: nat, n: nat)
    requires base % FRAME == 0 && limit % FRAME == 0 && base < limit <= CAP && 0 < size < TWO64 && paddr < limit
    requires paddr + size + FRAME > TWO64 && limit == base + n * FRAME && 0 < n
    ensures var (i, j) := Span(base, limit, paddr, size);
            && (i <= n - 1 < j <==>
                  paddr + size >= TWO64 && AlignDown(paddr) == limit - FRAME && W64(paddr + size) > AlignDown(paddr))
            && (AlignDown(paddr) == limit - FRAME ==>
                  forall f: nat :: f < n ==> (HasByte(base, paddr, size, f) <==> f == n - 1))
  {
    var w, s := W64(paddr + size), AlignDown(paddr);
    WrappedSpan(base, limit, paddr, size, n - 1);
    SpanAligned(base, limit, paddr, size);
    if paddr + size < TWO64 {
      assert w == paddr + size && W64(w + (FRAME - 1)) == w + (FRAME - 1) - TWO64;
      assert AlignUp(w) == 0;
    } else {
      assert w == paddr + size - TWO64 && W64(w + (FRAME - 1)) == w + (FRAME - 1);
      RoundedAbove(s, w);
    }
  }

  lemma RoundedAbove(s: nat, w: nat)
    requires s % FRAME == 0
    ensures AlignDown(w + (FRAME - 1)) > s <==> w > s
  {
  }

  /** A reservation of all but the last byte of the address space from the bitmap's start on misses frame 1. */
  lemma LongReserveMisses(base: nat, limit: nat)
    requires base % FRAME == 0 && limit % FRAME == 0 && base + 2 * FRAME <= limit <= CAP
    ensures var (i, j) := Span(base, limit, base, TWO64 - 1);
            HasByte(base, base, TWO64 - 1, 1) && !(i <= 1 < j) && !SpanExact(base, limit, base, TWO64 - 1)
  {
    assert 1 < (limit - base) / FRAME;
    WrappedSpan(base, limit, base, TWO64 - 1, 1);
    assert HasByte(base, base, TWO64 - 1, 1);
  }

  /** What `add_region` keeps of a region. */
  function Clamp(r: Region): seq<Region> {
    var end := Min(W64(r.base + r.len), CAP);
    if r.len == 0 || r.base >= CAP || end <= r.base then [] else [Region(r.base, end - r.base)]
  }

  /** Whole frames below 4 GiB. */
  ghost predicate RegionsWhole(rs: seq<Region>) {
    forall k :: 0 <= k < |rs| ==>
      rs[k].base % FRAME == 0 && rs[k].len % FRAME == 0 && 0 < rs[k].len && rs[k].base + rs[k].len <= CAP
  }

  /** No frame is in two of the first `n` regions. */
  ghost predicate RegionsApart(rs: seq<Region>, n: nat)
    requires n <= |rs|
  {
    forall j, k :: 0 <= j < k < n ==> Disjoint(rs[j], rs[k])
  }

  ghost predicate Disjoint(a: Region, b: Region) {
    a.base + a.len <= b.base || b.base + b.len <= a.base
  }

  /** The table after `add_region` has seen the regions of `found`. */
  function Kept(found: seq<Region>, rs: seq<Region>): seq<Region>
    decreases |found|
  {
    if found == [] then rs else Kept(found[1..], if |rs| < MAX_REGIONS then rs + Clamp(found[0]) else rs)
  }

  /** Address `a` lies in one of the first `n` regions. */
  ghost predicate InRegions(rs: seq<Region>, n: nat, a: nat)
    requires n <= |rs|
  {
    exists k :: 0 <= k < n && rs[k].base <= a < rs[k].base + rs[k].len
  }

  /** All regions lie between `lo` and `hi`. */
  ghost predicate Around(rs: seq<Region>, lo: nat, hi: nat) {
    forall k :: 0 <= k < |rs| ==> lo <= rs[k].base && rs[k].base + rs[k].len <= hi
  }

  /** One region begins at `lo` and one ends at `hi`. */
  ghost predicate Tight(rs: seq<Region>, lo: nat, hi: nat) {
    && (exists k :: 0 <= k < |rs| && rs[k].base == lo)
    && exists k :: 0 <= k < |rs| && rs[k].base + rs[k].len == hi
  }

  lemma TightWhole(rs: seq<Region>, lo: nat, hi: nat)
    requires RegionsWhole(rs) && Tight(rs, lo, hi) && Around(rs, lo, hi)
    ensures lo % FRAME == 0 && hi % FRAME == 0 && lo < hi <= CAP
  {
    var i :| 0 <= i < |rs| && rs[i].base == lo;
    var j :| 0 <= j < |rs| && rs[j].base + rs[j].len == hi;
    assert rs[i].base + rs[i].len <= hi;
    SumWhole(rs[j].base, rs[j].len, hi);
  }

  lemma SumWhole(a: nat, b: nat, c: nat)
    requires a % FRAME == 0 && b % FRAME == 0 && c == a + b
    ensures c % FRAME == 0
  {
  }

  /** Frame `f` of a bitmap at `base` begins in one of the first `n` regions. */
  ghost predicate FrameIn(rs: seq<Region>, n: nat, base: nat, f: nat)
    requires n <= |rs|
  {
    InRegions(rs, n, base + f * FRAME)
  }

  lemma OneMoreRegion(rs: seq<Region>, k: nat, a: nat)
    requires k < |rs|
    ensures InRegions(rs, k + 1, a) <==> InRegions(rs, k, a) || rs[k].base <= a < rs[k].base + rs[k].len
  {
  }

  /** Region `k` shares no frame with an earlier one exactly when none of its frames is in one. */
  lemma ApartIffNew(rs: seq<Region>, k: nat, base: nat, i: nat, j: nat)
    requires k < |rs| && RegionsWhole(rs) && base % FRAME == 0 && RegionsApart(rs, k)
    requires rs[k].base == base + i * FRAME && rs[k].base + rs[k].len == base + j * FRAME
    ensures RegionsApart(rs, k + 1) <==> forall f: nat :: i <= f < j ==> !FrameIn(rs, k, base, f)
  {
    if forall f: nat :: i <= f < j ==> !FrameIn(rs, k, base, f) {
      forall m | 0 <= m < k
        ensures Disjoint(rs[m], rs[k])
      {
        var a := if rs[m].base < rs[k].base then rs[k].base else rs[m].base;
        var f := if a < base then 0 else (a - base) / FRAME;
        Aligned(base, a);
        assert i <= f < j ==> !FrameIn(rs, k, base, f);
      }
    } else {
      var f: nat :| i <= f < j && FrameIn(rs, k, base, f);
      var m :| 0 <= m < k && rs[m].base <= base + f * FRAME < rs[m].base + rs[m].len;
      assert !Disjoint(rs[m], rs[k]);
    }
  }

  lemma RegionFrames(base: nat, limit: nat, s: nat, e: nat, i: nat, j: nat)
    requires base % FRAME == 0 && limit % FRAME == 0 && s % FRAME == 0 && e % FRAME == 0 && base <= s < e <= limit
    requires i == (s - base) / FRAME && j == (e - base) / FRAME
    ensures i <= j <= (limit - base) / FRAME && s == base + i * FRAME && e == base + j * FRAME
  {
  }

  /** Freeing the frames of one more region frees exactly the frames of one more region; as many as it has
      exactly when it shares none with an earlier one. */
  lemma RegionFreed(used: seq<bool>, rs: seq<Region>, k: nat, base: nat, i: nat, j: nat)
    requires k < |rs| && RegionsWhole(rs) && i <= j <= |used| && base % FRAME == 0
    requires rs[k].base == base + i * FRAME && rs[k].base + rs[k].len == base + j * FRAME
    requires forall f :: 0 <= f < |used| ==> used[f] == !InRegions(rs, k, base + f * FRAME)
    ensures var used' := Fill(used, i, j, false);
            && (forall f :: 0 <= f < |used| ==> used'[f] == !InRegions(rs, k + 1, base + f * FRAME))
            && CountFree(used') <= CountFree(used) + (j - i)
            && (RegionsApart(rs, k) ==> (CountFree(used') == CountFree(used) + (j - i) <==> RegionsApart(rs, k + 1)))
  {
    FillAt(used, i, j, false);
    forall f | 0 <= f < |used|
      ensures Fill(used, i, j, false)[f] == !InRegions(rs, k + 1, base + f * FRAME)
    {
      OneMoreRegion(rs, k, base + f * FRAME);
    }
    FillGain(used, i, j);
    if RegionsApart(rs, k) {
      ApartIffNew(rs, k, base, i, j);
      assert forall f: nat :: i <= f < j ==> used[f] == !FrameIn(rs, k, base, f);
    }
  }

  /** A region reported twice is kept twice. */
  lemma TwiceIsNotApart()
    ensures var r := Region(0x20_0000, FRAME);
            Kept([r, r], []) == [r, r] && RegionsWhole([r, r]) && !RegionsApart([r, r], 2)
  {
    var r := Region(0x20_0000, FRAME);
    assert Clamp(r) == [r];
    assert [r, r][1..] == [r] && [r][1..] == [] && [] + [r] == [r] && [r] + [r] == [r, r];
    assert Kept([r], [r]) == Kept([], [r, r]) == [r, r];
    assert !Disjoint([r, r][0], [r, r][1]);
  }

  /** Start-up with it leaves a counter that is too high. */
  method CountedTwice() returns (p: FrameAllocator)
    ensures fresh(p) && p.Valid() && p.free > FRAME * CountFree(p.Used())
  {
    var r := Region(0x20_0000, FRAME);
    TwiceIsNotApart();
    p := new FrameAllocator();
    p.Init([r, r]);
  }

  /** Whole frames, no 64-bit wrap. */
  ghost predicate Whole(r: Region) {
    r.base % FRAME == 0 && r.len % FRAME == 0 && r.base + r.len < TWO64
  }

  /** Regions of whole frames that do not overlap are kept, cut and dropped into regions of that kind. */
  lemma {:induction false} KeptOk(found: seq<Region>, rs: seq<Region>)
    requires RegionsWhole(rs) && RegionsApart(rs, |rs|)
    requires forall k :: 0 <= k < |found| ==> Whole(found[k])
    requires forall j, k :: 0 <= j < k < |found| ==> Disjoint(found[j], found[k])
    requires forall j, k :: 0 <= j < |rs| && 0 <= k < |found| ==> Disjoint(rs[j], found[k])
    ensures RegionsWhole(Kept(found, rs)) && RegionsApart(Kept(found, rs), |Kept(found, rs)|)
    decreases |found|
  {
    if found != [] {
      var rs' := if |rs| < MAX_REGIONS then rs + Clamp(found[0]) else rs;
      assert W64(found[0].base + found[0].len) == found[0].base + found[0].len;
      forall j, k | 0 <= j < |rs'| && 0 <= k < |found[1..]|
        ensures Disjoint(rs'[j], found[1..][k])
      {
        assert Disjoint(found[0], found[k + 1]);
        if j < |rs| { assert Disjoint(rs[j], found[k + 1]); }
      }
      assert forall j :: 0 <= j < |rs| ==> Disjoint(rs[j], found[0]);
      KeptOk(found[1..], rs');
    }
  }

  /** While the table has room, the kept regions cover exactly the reported bytes below 4 GiB. */
  lemma {:induction false} KeptCovers(found: seq<Region>, rs: seq<Region>, a: nat)
    requires |rs| + |found| <= MAX_REGIONS && forall k :: 0 <= k < |found| ==> found[k].base + found[k].len < TWO64
    ensures InRegions(Kept(found, rs), |Kept(found, rs)|, a) <==>
            InRegions(rs, |rs|, a) || (a < CAP && InRegions(found, |found|, a))
    decreases |found|
  {
    if found != [] {
      var rs' := rs + Clamp(found[0]);
      KeptCovers(found[1..], rs', a);
      ClampCovers(found[0], rs, a);
      FirstOrRest(found, a);
    }
  }

  lemma ClampCovers(r: Region, rs: seq<Region>, a: nat)
    requires r.base + r.len < TWO64
    ensures InRegions(rs + Clamp(r), |rs + Clamp(r)|, a)
            <==> InRegions(rs, |rs|, a) || (a < CAP && r.base <= a < r.base + r.len)
  {
    var c := Clamp(r);
    assert W64(r.base + r.len) == r.base + r.len;
    if InRegions(rs, |rs|, a) {
      var k :| 0 <= k < |rs| && rs[k].base <= a < rs[k].base + rs[k].len;
      assert (rs + c)[k] == rs[k];
    }
    if c != [] { assert (rs + c)[|rs|] == c[0]; }
  }

  lemma FirstOrRest(rs: seq<Region>, a: nat)
    requires rs != []
    ensures InRegions(rs, |rs|, a) <==> rs[0].base <= a < rs[0].base + rs[0].len || InRegions(rs[1..], |rs[1..]|, a)
  {
    if InRegions(rs, |rs|, a) {
      var k :| 0 <= k < |rs| && rs[k].base <= a < rs[k].base + rs[k].len;
      if k > 0 { assert rs[1..][k - 1] == rs[k]; }
    }
    if InRegions(rs[1..], |rs[1..]|, a) {
      var k :| 0 <= k < |rs[1..]| && rs[1..][k].base <= a < rs[1..][k].base + rs[1..][k].len;
      assert rs[k + 1] == rs[1..][k];
    }
  }

  /** Freeing gives back exactly `count` frames from the one of the address on, as far as the bitmap goes, and
      nothing for an address in front of the bitmap. */
  lemma FreeSpanCovers(base: nat, limit: nat, paddr: nat, count: nat, f: nat)
    requires base % FRAME == 0 && limit % FRAME == 0 && base <= limit
    requires f < (limit - base) / FRAME
    ensures var (i, j) := FreeSpan(base, limit, paddr, count);
            i <= f < j <==> base <= paddr && AlignDown(paddr) <= base + f * FRAME < AlignDown(paddr) + count * FRAME
  {
    Aligned(base, AlignDown(paddr));
    Aligned(base, limit);
  }

  lemma WholeSpan(base: nat, limit: nat, paddr: nat, size: nat, i: nat, j: nat)
    requires base % FRAME == 0 && limit % FRAME == 0 && base <= limit <= CAP && i <= j <= (limit - base) / FRAME
    requires paddr == base + i * FRAME && paddr + size == base + j * FRAME
    ensures i < j ==> Span(base, limit, paddr, size) == (i, j)
  {
    assert W64(paddr + size) == paddr + size && W64(paddr + size + (FRAME - 1)) == paddr + size + (FRAME - 1);
    WholeFrames(base, i);
    WholeFrames(base, j);
  }

  lemma WholeFrames(base: nat, i: nat)
    requires base % FRAME == 0 && base + i * FRAME < TWO64
    ensures AlignDown(base + i * FRAME) == base + i * FRAME
    ensures AlignDown(base + i * FRAME + (FRAME - 1)) == base + i * FRAME
    ensures (base + i * FRAME - base) / FRAME == i
  {
  }

  class FrameAllocator {
    var base: nat
    var limit: nat
    var free: nat
    var regions: seq<Region>
    const bitmap: array<bv8>
    /** What the counter has counted twice. */
    ghost var surplus: nat
    /** The allocations and reservations that have not been given back. */
    ghost var claims: seq<FrameRuns.Claim>

    constructor ()
      ensures claims == []
      ensures base == limit == free == 0 && regions == [] && fresh(bitmap) && bitmap.Length == MAX_FRAMES / 8
    {
      base, limit, free, regions, claims, surplus := 0, 0, 0, [], [], 0;
      bitmap := new bv8[MAX_FRAMES / 8](_ => 0);
    }

    function Frames(): nat
      reads this
    {
      if limit < base then 0 else (limit - base) / FRAME
    }

    /** Frame-aligned bounds that the bitmap can cover. */
    ghost predicate Bounded()
      reads this
    {
      && bitmap.Length == MAX_FRAMES / 8
      && base % FRAME == 0 && limit % FRAME == 0 && base <= limit <= base + MAX_FRAMES * FRAME && limit <= CAP
    }

    ghost function Used(): (used: seq<bool>)
      requires Bounded()
      reads this, bitmap
      ensures |used| == Frames()
    {
      BitsFrom(bitmap[..], 0, Frames())
    }

    /** The frames in use and who holds them. */
    ghost function Ledger(): FrameRuns.State
      requires Bounded()
      reads this, bitmap
    {
      FrameRuns.State(Used(), claims)
    }

    /** The cached counter is the size of the frames whose bit is clear, plus a surplus that no call changes;
        `Init` leaves none exactly when the regions do not overlap. */
    ghost predicate Valid()
      reads this, bitmap
    {
      Bounded() && free == FRAME * CountFree(Used()) + surplus
    }

    method TestFrame(idx: nat) returns (b: bool)
      requires Bounded() && idx < Frames()
      ensures b == Used()[idx]
    {
      b := (bitmap[idx / 8] >> (idx % 8)) & 1 == 1;
      BitsAt(bitmap[..], 0, Frames(), idx);
    }

    method SetFrame(idx: nat)
      requires Bounded() && idx < Frames()
      modifies bitmap
      ensures Used() == old(Used())[idx := true]
    {
      ghost var bm := bitmap[..];
      bitmap[idx / 8] := bitmap[idx / 8] | ((1 as bv8) << (idx % 8));
      forall j | 0 <= j < 8
        ensures Bit(bitmap[idx / 8], j) == if j == idx % 8 then true else Bit(bm[idx / 8], j)
      {
        SetBit(bm[idx / 8], idx % 8, j);
      }
      BitsUpdate(bm, bitmap[..], Frames(), idx, true);
    }

    method ClearFrame(idx: nat)
      requires Bounded() && idx < Frames()
      modifies bitmap
      ensures Used() == old(Used())[idx := false]
    {
      ghost var bm := bitmap[..];
      bitmap[idx / 8] := bitmap[idx / 8] & !((1 as bv8) << (idx % 8));
      forall j | 0 <= j < 8
        ensures Bit(bitmap[idx / 8], j) == if j == idx % 8 then false else Bit(bm[idx / 8], j)
      {
        ClearBit(bm[idx / 8], idx % 8, j);
      }
      BitsUpdate(bm, bitmap[..], Frames(), idx, false);
    }

    /** The first-fit search of frames below `end` for `count` free ones in a row. */
    method FindRun(count: nat, end: nat) returns (found: bool, start: nat)
      requires Bounded() && 0 < count && end <= Frames()
      ensures var r := LowestRun(Used()[..end], count, 0); found == (r < end) && (found ==> start == r)
    {
      ghost var used := Used()[..end];
      var run := 0;
      start := 0;
      for i := 0 to end
        invariant 0 <= run <= i && run < count && (run > 0 ==> start == i - run) && used == Used()[..end]
        invariant forall j :: i - run <= j < i ==> !used[j]
        invariant forall s {:trigger RunAt(used, s, count)} :: 0 <= s < i - run ==> !RunAt(used, s, count)
      {
        var b := TestFrame(i);
        assert b == used[i];
        if !b {
          if run == 0 { start := i; }
          run := run + 1;
          if run >= count {
            LowestRunIs(used, count, start);
            return true, start;
          }
        } else {
          run := 0;
        }
      }
      NoRunIs(used, count);
      return false, 0;
    }

    /** Mark `count` frames from `start` on as used. */
    method TakeRun(start: nat, count: nat)
      requires Bounded() && start + count <= Frames()
      modifies bitmap
      ensures Used() == Fill(old(Used()), start, start + count, true)
    {
      for j := 0 to count
        invariant Fill(Used(), start + j, start + count, true) == Fill(old(Used()), start, start + count, true)
      {
        SetFrame(start + j);
      }
    }

    /** Allocate `count` contiguous frames below frame `end`: the address of the lowest such run, or 0. */
    method AllocIn(count: nat, end: nat) returns (paddr: nat)
      requires Valid() && count < TWO64 && end <= Frames()
      modifies bitmap, `free, `claims
      ensures Valid() && Ledger() == FrameRuns.Step(old(Ledger()), FrameRuns.Take(count, end))
      ensures var used := old(Used());
              if count == 0 || LowestRun(used[..end], count, 0) == end then paddr == 0 && Used() == used
              else var r := LowestRun(used[..end], count, 0);
                   paddr == base + r * FRAME && Used() == Fill(used, r, r + count, true)
    {
      if count == 0 { return 0; }
      ghost var used := Used();
      var need := W64(count * FRAME);
      RunIsCounted(used, end, count);
      if free < need { return 0; }
      var found, start := FindRun(count, end);
      if !found { return 0; }
      TakeRun(start, count);
      CountFill(used, start, start + count, true);
      free := free - need;
      claims := claims + [FrameRuns.Claim(start, start + count, true)];
      return base + start * FRAME;
    }

    /** `pmm_alloc_frames`. */
    method Alloc(count: nat) returns (paddr: nat)
      requires Valid() && count < TWO64
      modifies bitmap, `free, `claims
      ensures Valid() && Ledger() == FrameRuns.Step(old(Ledger()), FrameRuns.Take(count, Frames()))
      ensures var used := old(Used());
              if count == 0 || LowestRun(used, count, 0) == |used| then paddr == 0 && Used() == used
              else var r := LowestRun(used, count, 0);
                   paddr == base + r * FRAME && Used() == Fill(used, r, r + count, true)
    {
      assert Used()[..Frames()] == Used();
      paddr := AllocIn(count, Frames());
    }

    /** The number of frames that end at or below address `max`. */
    ghost function EndFrame(max: nat): (end: nat)
      requires Bounded()
      reads this
      ensures end <= Frames()
    {
      if max <= base then 0 else if (max - base) / FRAME > Frames() then Frames() else (max - base) / FRAME
    }

    /** `pmm_alloc_frames_below`: the run must end at or below `max`. */
    method AllocBelow(count: nat, max: nat) returns (paddr: nat)
      requires Valid() && count < TWO64
      modifies bitmap, `free, `claims
      ensures Valid() && Ledger() == FrameRuns.Step(old(Ledger()), FrameRuns.Take(count, EndFrame(max)))
      ensures var used := old(Used());
              if count == 0 || LowestRun(used, count, 0) ==
                |used| || base + (LowestRun(used, count, 0) + count) * FRAME > max
              then paddr == 0 && Used() == used
              else var r := LowestRun(used, count, 0);
                   paddr == base + r * FRAME && Used() == Fill(used, r, r + count, true)
    {
      var end := Limit(max);
      if count > 0 { BoundedSearch(Used(), count, end); }
      paddr := AllocIn(count, end);
    }

    /** The frame index at which the search below `max` stops. */
    method Limit(max: nat) returns (end: nat)
      requires Bounded()
      ensures end == EndFrame(max)
      ensures forall k {:trigger k * FRAME} :: 0 < k <= Frames() ==> (base + k * FRAME > max <==> k > end)
    {
      end := if max > base then (max - base) / FRAME else 0;
      if end > Frames() { end := Frames(); }
      forall k | 0 < k <= Frames()
        ensures base + k * FRAME > max <==> k > end
      {
        EndsBelow(base, Frames(), max, end, k);
      }
    }

    /** Mark one frame as used, or as free, and keep the counter in step. */
    method MoveFrame(idx: nat, val: bool)
      requires Valid() && idx < Frames()
      modifies bitmap, `free
      ensures Valid() && Used() == old(Used())[idx := val]
    {
      ghost var used := Used();
      CountUpdate(used, idx, val);
      assert used[idx] == val ==> used[idx := val] == used;
      var b := TestFrame(idx);
      if val {
        if !b {
          SetFrame(idx);
          free := free - FRAME;
        }
      } else if b {
        ClearFrame(idx);
        free := free + FRAME;
      }
    }

    /** `pmm_reserve`: take every frame of the range, whoever has it. */
    method Reserve(paddr: nat, size: nat)
      requires Valid() && paddr < TWO64 && size < TWO64
      modifies bitmap, `free, `claims
      ensures Valid()
      ensures var (i, j) := Span(base, limit, paddr, size);
              i <= j <= |old(Used())| && Ledger() == FrameRuns.Step(old(Ledger()), FrameRuns.Reserve(i, j))
    {
      var s, e := AlignDown(paddr), AlignUp(W64(paddr + size));
      if s < base { s := base; }
      if e > limit { e := limit; }
      SpanAligned(base, limit, paddr, size);
      ghost var (i, j) := Span(base, limit, paddr, size);
      if s < e { ReserveFrames(s, e, i, j); }
      claims := claims + [FrameRuns.Claim(i, j, false)];
    }

    /** The loop of `Reserve`, over the addresses of frames `i .. j`. */
    method ReserveFrames(s: nat, e: nat, ghost i: nat, ghost j: nat)
      requires Valid() && s == base + i * FRAME && e == base + j * FRAME && i <= j <= Frames()
      modifies bitmap, `free
      ensures Valid() && Used() == Fill(old(Used()), i, j, true)
    {
      ghost var k := i;
      var a := s;
      while a < e
        invariant a == base + k * FRAME && i <= k <= j && Valid()
        invariant Fill(Used(), k, j, true) == Fill(old(Used()), i, j, true)
        decreases e - a
      {
        MoveFrame((a - base) / FRAME, true);
        a, k := a + FRAME, k + 1;
      }
    }

    /** `pmm_free_frames`: give the frames back, as far as the bitmap goes. */
    method Free(paddr: nat, count: nat)
      requires Valid() && paddr < TWO64 && count < TWO64
      modifies bitmap, `free, `claims
      ensures Valid()
      ensures var (i, j) := FreeSpan(base, limit, paddr, count);
              i <= j <= |old(Used())| && Ledger() == FrameRuns.Step(old(Ledger()), FrameRuns.Release(i, j))
    {
      ghost var (i, j) := FreeSpan(base, limit, paddr, count);
      FreeSpanOrdered(base, limit, paddr, count);
      claims := FrameRuns.Outside(claims, i, j);
      if count == 0 || paddr < base || paddr >= limit { return; }
      FreeFrames((paddr - base) / FRAME, count, j);
    }

    /** The loop of `Free`. */
    method FreeFrames(idx: nat, count: nat, ghost j: nat)
      requires Valid() && idx <= Frames() && j == Min(idx + count, Frames())
      modifies bitmap, `free
      ensures Valid() && Used() == Fill(old(Used()), idx, j, false)
    {
      for c := 0 to count
        invariant Valid() && idx + c <= Frames()
        invariant Fill(Used(), idx + c, j, false) == Fill(old(Used()), idx, j, false)
      {
        if idx + c >= Frames() { break; }
        MoveFrame(idx + c, false);
      }
    }

    // ----- start-up -----

    /** `add_region`: keep a region, cut off at 4 GiB, if the table has room. */
    method AddRegion(b: nat, len: nat)
      requires b < TWO64 && len < TWO64
      modifies `regions
      ensures regions == if |old(regions)| < MAX_REGIONS then old(regions) + Clamp(Region(b, len)) else old(regions)
    {
      if len == 0 || |regions| >= MAX_REGIONS { return; }
      if b >= CAP { return; }
      var end := W64(b + len);
      if end > CAP { end := CAP; }
      if end <= b { return; }
      regions := regions + [Region(b, end - b)];
    }

    /** `build_bitmap_bounds`: the bitmap covers everything from the lowest to the highest usable frame. */
    method BuildBounds()
      requires RegionsWhole(regions) && bitmap.Length == MAX_FRAMES / 8
      modifies `base, `limit, bitmap
      ensures Bounded()
      ensures if regions == [] then base == limit == 0
              else Tight(regions, base, limit) && Around(regions, base, limit)
    {
      if |regions| == 0 { base, limit := 0, 0; return; }
      var lo, hi := Extremes();
      base, limit := lo, hi;
      if limit - base > MAX_FRAMES * FRAME { assert false; }
      for k := 0 to ((limit - base) / FRAME + 7) / 8
        modifies bitmap
      {
        bitmap[k] := 0;
      }
    }

    /** The lowest start and the highest end of a region. */
    method Extremes() returns (lo: nat, hi: nat)
      requires RegionsWhole(regions) && regions != []
      ensures lo % FRAME == 0 && hi % FRAME == 0 && lo < hi <= CAP && Tight(regions, lo, hi) && Around(regions, lo, hi)
    {
      lo, hi := TWO64 - 1, 0;
      for k := 0 to |regions|
        invariant if k == 0 then lo == TWO64 - 1 && hi == 0 else Tight(regions, lo, hi)
        invariant forall j :: 0 <= j < k ==> lo <= regions[j].base && regions[j].base + regions[j].len <= hi
      {
        var b, end := regions[k].base, regions[k].base + regions[k].len;
        if b < lo { lo := b; }
        if end > hi { hi := end; }
      }
      TightWhole(regions, lo, hi);
    }

    /** `mark_range`: any range, in 64-bit sums, clipped to the bitmap. */
    method MarkRange(paddr: nat, size: nat, val: bool)
      requires Bounded() && paddr < TWO64 && size < TWO64
      modifies bitmap
      ensures var (i, j) := Span(base, limit, paddr, size);
              i <= j <= |old(Used())| && Used() == if size == 0 then old(Used()) else Fill(old(Used()), i, j, val)
    {
      SpanAligned(base, limit, paddr, size);
      if size == 0 { return; }
      var s, e := AlignDown(paddr), AlignUp(W64(paddr + size));
      if s < base { s := base; }
      if e > limit { e := limit; }
      if e <= s { return; }
      MarkFrames((s - base) / FRAME, (e - base) / FRAME, val);
    }

    /** The same for whole frames inside the bitmap. */
    method MarkWhole(paddr: nat, size: nat, val: bool, ghost i: nat, ghost j: nat)
      requires Bounded() && i <= j <= Frames() && paddr == base + i * FRAME && paddr + size == base + j * FRAME
      modifies bitmap
      ensures Used() == Fill(old(Used()), i, j, val)
    {
      WholeSpan(base, limit, paddr, size, i, j);
      MarkRange(paddr, size, val);
    }

    method MarkFrames(i0: nat, i1: nat, val: bool)
      requires Bounded() && i0 <= i1 <= Frames()
      modifies bitmap
      ensures Used() == Fill(old(Used()), i0, i1, val)
    {
      for k := i0 to i1
        invariant Fill(Used(), k, i1, val) == Fill(old(Used()), i0, i1, val)
      {
        if val { SetFrame(k); } else { ClearFrame(k); }
      }
    }

    /** Mark the frames of the kept regions free and add up their sizes. */
    method FreeRegions() returns (usable: nat)
      requires Bounded() && RegionsWhole(regions) && (forall f :: 0 <= f < Frames() ==> Used()[f])
      requires Around(regions, base, limit)
      modifies bitmap
      ensures Counts(usable, |regions|) && FreeSoFar(|regions|)
    {
      usable := 0;
      AllUsed(Used());
      for k := 0 to |regions|
        modifies bitmap
        invariant Counts(usable, k) && FreeSoFar(k)
      {
        FreeRegion(k, usable);
        usable := usable + regions[k].len;
      }
    }

    /** The sizes of the first `k` regions add up to at least the free frames, and to no more exactly when the
        regions do not overlap. */
    ghost predicate Counts(usable: nat, k: nat)
      requires Bounded() && k <= |regions|
      reads this, bitmap
    {
      usable >= FRAME * CountFree(Used()) && (usable == FRAME * CountFree(Used()) <==> RegionsApart(regions, k))
    }

    /** Exactly the frames of the first `k` regions are free. */
    ghost predicate FreeSoFar(k: nat)
      requires Bounded() && k <= |regions|
      reads this, bitmap
    {
      forall f :: 0 <= f < Frames() ==> Used()[f] == !InRegions(regions, k, base + f * FRAME)
    }

    /** Mark the frames of one more region free. */
    method FreeRegion(k: nat, ghost usable: nat)
      requires Bounded() && k < |regions| && RegionsWhole(regions) && FreeSoFar(k) && Counts(usable, k)
      requires base <= regions[k].base && regions[k].base + regions[k].len <= limit
      modifies bitmap
      ensures FreeSoFar(k + 1) && Counts(usable + regions[k].len, k + 1)
    {
      var s, e := regions[k].base, regions[k].base + regions[k].len;
      ghost var i, j := (s - base) / FRAME, (e - base) / FRAME;
      RegionFrames(base, limit, s, e, i, j);
      RegionFreed(Used(), regions, k, base, i, j);
      MarkWhole(s, e - s, false, i, j);
    }

    method AddRegions(found: seq<Region>)
      requires regions == [] && forall k :: 0 <= k < |found| ==> found[k].base < TWO64 && found[k].len < TWO64
      modifies `regions
      ensures regions == Kept(found, [])
    {
      for k := 0 to |found|
        invariant Kept(found[k..], regions) == Kept(found, [])
      {
        assert found[k..][0] == found[k] && found[k..][1..] == found[k + 1..];
        AddRegion(found[k].base, found[k].len);
      }
    }

    /** `pmm_init` on the regions that the boot loader reported. */
    method Init(found: seq<Region>)
      requires bitmap.Length == MAX_FRAMES / 8 && RegionsWhole(Kept(found, []))
      requires forall k :: 0 <= k < |found| ==> found[k].base < TWO64 && found[k].len < TWO64
      modifies this, bitmap
      ensures Valid() && FrameRuns.Inv(Ledger()) && regions == Kept(found, [])
              && (if regions == [] then base == limit == 0 else Tight(regions, base, limit))
      ensures surplus == 0 <==> RegionsApart(regions, |regions|)
      ensures forall f :: 0 <= f < Frames() ==>
                (Used()[f] <==> !FrameIn(regions, |regions|, base, f) || f == 0 || base + f * FRAME < 0x10_0000)
    {
      regions, free, base, limit, claims := [], 0, 0, 0, [];
      AddRegions(found);
      BuildBounds();
      MarkRegions();
      ReserveLow();
    }

    method MarkAll()
      requires Bounded()
      modifies bitmap
      ensures forall f :: 0 <= f < Frames() ==> Used()[f]
    {
      FillAt(Used(), 0, Frames(), true);
      MarkWhole(base, limit - base, true, 0, Frames());
    }

    /** Mark every frame used, then those of the regions free. */
    method MarkRegions()
      requires Bounded() && RegionsWhole(regions)
      requires Around(regions, base, limit)
      modifies bitmap, `free, `surplus
      ensures Valid() && FreeSoFar(|regions|) && (surplus == 0 <==> RegionsApart(regions, |regions|))
    {
      MarkAll();
      free := FreeRegions();
      surplus := free - FRAME * CountFree(Used());
    }

    /** Take the first frame of the bitmap and the first megabyte. */
    method ReserveLow()
      requires Valid() && claims == []
      modifies bitmap, `free, `claims
      ensures Valid() && FrameRuns.Inv(Ledger())
      ensures forall f :: 0 <= f < Frames() ==>
                (Used()[f] <==> old(Used())[f] || f == 0 || base + f * FRAME < 0x10_0000)
    {
      ghost var u0, s0 := Used(), Ledger();
      Reserve(base, FRAME);
      ghost var u1, s1 := Used(), Ledger();
      Reserve(0, 0x10_0000);
      LowReserved(s0, s1, Ledger(), Span(base, limit, base, FRAME), Span(base, limit, 0, 0x10_0000));
      forall f | 0 <= f < Frames()
        ensures Used()[f] <==> u0[f] || f == 0 || base + f * FRAME < 0x10_0000
      {
        SpanCovers(base, limit, base, FRAME, f);
        SpanCovers(base, limit, 0, 0x10_0000, f);
        var (i, j) := Span(base, limit, base, FRAME);
        var (i', j') := Span(base, limit, 0, 0x10_0000);
        FillAt(u0, i, j, true);
        FillAt(u1, i', j', true);
      }
    }
  }

  lemma LowReserved(s0: FrameRuns.State, s1: FrameRuns.State, s2: FrameRuns.State, a: (nat, nat), b: (nat, nat))
    requires s0.claims == [] && a.0 <= a.1 <= |s0.used| && s1 == FrameRuns.Step(s0, FrameRuns.Reserve(a.0, a.1))
    requires b.0 <= b.1 <= |s1.used| && s2 == FrameRuns.Step(s1, FrameRuns.Reserve(b.0, b.1))
    ensures FrameRuns.Inv(s2)
  {
    FrameRuns.StepKeeps(s0, FrameRuns.Reserve(a.0, a.1));
    FrameRuns.StepKeeps(s1, FrameRuns.Reserve(b.0, b.1));
  }

  /** A run is never longer than what the counter says, so the early exit loses nothing; for counts whose
      size wraps in 64 bits there is no run at all. */
  lemma RunIsCounted(used: seq<bool>, end: nat, count: nat)
    requires 0 < count < TWO64 && end <= |used| <= MAX_FRAMES
    ensures LowestRun(used[..end], count, 0) < end ==>
              && RunAt(used, LowestRun(used[..end], count, 0), count)
              && W64(count * FRAME) == count * FRAME && count <= CountFree(used)
  {
    var r := LowestRun(used[..end], count, 0);
    if r < end {
      assert RunAt(used, r, count) by {
        assert forall j :: r <= j < r + count ==> used[j] == used[..end][j];
      }
      RunNeedsFree(used, r, count);
    }
  }

  /** While frame 0 of the bitmap is in use, or the bitmap starts above address 0, the result 0 of an
      allocation means exactly that there is no run. */
  lemma ZeroMeansNone(used: seq<bool>, base: nat, count: nat)
    requires 0 < count && (base > 0 || (|used| > 0 ==> used[0]))
    ensures var r := LowestRun(used, count, 0);
            (if r == |used| then 0 else base + r * FRAME) == 0 <==>
            forall s {:trigger RunAt(used, s, count)} :: 0 <= s ==> !RunAt(used, s, count)
  {
    var r := LowestRun(used, count, 0);
    if r < |used| { assert RunAt(used, r, count); }
  }
}

/** The kernel heap as the sequence of its blocks in address order (mm/kmalloc.c). */
module HeapBlocks {
  const HEADER: nat := 32

  /** A block: a header of 32 bytes and `size` payload bytes. */
  datatype Block = Block(size: nat, free: bool)

  function Span(b: Block): nat { HEADER + b.size }

  /** The bytes that a sequence of blocks covers. */
  function Total(bs: seq<Block>): nat {
    if bs == [] then 0 else Span(bs[0]) + Total(bs[1..])
  }

  lemma {:induction false} TotalSplit(xs: seq<Block>, ys: seq<Block>)
    ensures Total(xs + ys) == Total(xs) + Total(ys)
  {
    if xs == [] {
      assert xs + ys == ys;
    } else {
      assert (xs + ys)[1..] == xs[1..] + ys;
      TotalSplit(xs[1..], ys);
    }
  }

  lemma TotalAround(bs: seq<Block>, i: nat)
    requires i < |bs|
    ensures bs == bs[..i] + ([bs[i]] + bs[i + 1..])
    ensures Total(bs) == Total(bs[..i]) + Span(bs[i]) + Total(bs[i + 1..])
  {
    var rest := [bs[i]] + bs[i + 1..];
    assert bs == bs[..i] + rest;
    assert rest[0] == bs[i] && rest[1..] == bs[i + 1..];
    TotalSplit(bs[..i], rest);
  }

  /** An allocation: the payload's address and usable size. */
  datatype Chunk = Chunk(addr: nat, size: nat)

  /** The live allocations of the blocks from address `a` on. */
  function Live(bs: seq<Block>, a: nat): seq<Chunk> {
    if bs == [] then []
    else (if bs[0].free then [] else [Chunk(a + HEADER, bs[0].size)]) + Live(bs[1..], a + Span(bs[0]))
  }

  lemma {:induction false} LiveSplit(xs: seq<Block>, ys: seq<Block>, a: nat)
    ensures Live(xs + ys, a) == Live(xs, a) + Live(ys, a + Total(xs))
  {
    if xs == [] {
      assert xs + ys == ys;
    } else {
      assert (xs + ys)[1..] == xs[1..] + ys;
      LiveSplit(xs[1..], ys, a + Span(xs[0]));
    }
  }

  lemma LiveAround(bs: seq<Block>, i: nat, a: nat)
    requires i < |bs|
    ensures var at := a + Total(bs[..i]);
            Live(bs, a) == Live(bs[..i], a) + (Live([bs[i]], at) + Live(bs[i + 1..], at + Span(bs[i])))
  {
    TotalAround(bs, i);
    LiveSplit(bs[..i], [bs[i]] + bs[i + 1..], a);
    LiveSplit([bs[i]], bs[i + 1..], a + Total(bs[..i]));
    assert Total([bs[i]]) == Span(bs[i]);
  }

  ghost predicate InOrder(c: Chunk, d: Chunk) {
    c.addr + c.size + HEADER <= d.addr
  }

  /** Live allocations lie inside the heap and, with their headers, apart from each other. */
  lemma {:induction false} LiveApart(bs: seq<Block>, a: nat)
    ensures forall i :: 0 <= i < |Live(bs, a)| ==>
              a + HEADER <= Live(bs, a)[i].addr && Live(bs, a)[i].addr + Live(bs, a)[i].size <= a + Total(bs)
    ensures forall i, j :: 0 <= i < j < |Live(bs, a)| ==> InOrder(Live(bs, a)[i], Live(bs, a)[j])
  {
    if bs != [] { LiveApart(bs[1..], a + Span(bs[0])); }
  }

  /** Every size but the last block's is a multiple of 16. */
  ghost predicate Aligned(bs: seq<Block>) {
    forall i :: 0 <= i < |bs| - 1 ==> bs[i].size % 16 == 0
  }

  lemma {:induction false} LiveAligned(bs: seq<Block>, a: nat)
    requires Aligned(bs)
    ensures forall i :: 0 <= i < |Live(bs, a)| ==> Live(bs, a)[i].addr % 16 == a % 16
  {
    if bs != [] {
      var a' := a + Span(bs[0]);
      HeaderAligned(a, bs[0].size);
      if |bs| > 1 { LiveAligned(bs[1..], a'); } else { assert Live(bs[1..], a') == []; }
      var k := if bs[0].free then 0 else 1;
      assert forall i :: k <= i < |Live(bs, a)| ==> Live(bs, a)[i] == Live(bs[1..], a')[i - k];
    }
  }

  lemma HeaderAligned(a: nat, size: nat)
    ensures (a + HEADER) % 16 == a % 16 && (size % 16 == 0 ==> (a + HEADER + size) % 16 == a % 16)
  {
  }

  /** No two neighbours are both free. */
  ghost predicate Merged(bs: seq<Block>) {
    forall i :: 0 <= i < |bs| - 1 ==> !(bs[i].free && bs[i + 1].free)
  }

  /** A heap: blocks that tile `size` bytes, free neighbours merged. */
  ghost predicate HeapOk(bs: seq<Block>, size: nat) {
    Total(bs) == size && Merged(bs) && Aligned(bs)
  }

  /** Merged heaps of the same size with the same live allocations are the same: the free blocks are
      exactly the gaps. */
  lemma {:induction false} LiveDetermines(xs: seq<Block>, ys: seq<Block>, a: nat)
    requires Merged(xs) && Merged(ys) && Total(xs) == Total(ys) && Live(xs, a) == Live(ys, a)
    ensures xs == ys
  {
    if xs == [] || ys == [] {
      assert xs == ys == [];
    } else {
      assert xs == [xs[0]] + xs[1..] && ys == [ys[0]] + ys[1..];
      assert xs[0] == ys[0] by {
        SameHead(xs, ys, a);
      }
      var a', k := a + Span(xs[0]), if xs[0].free then 0 else 1;
      assert Live(xs[1..], a') == Live(xs, a)[k..] && Live(ys[1..], a') == Live(ys, a)[k..];
      LiveDetermines(xs[1..], ys[1..], a');
    }
  }

  lemma SameHead(xs: seq<Block>, ys: seq<Block>, a: nat)
    requires xs != [] && ys != [] && Merged(xs) && Merged(ys) && Total(xs) == Total(ys) && Live(xs, a) == Live(ys, a)
    ensures xs[0] == ys[0]
  {
    FirstLive(xs, a);
    FirstLive(ys, a);
    if |xs| == 1 { assert Total(xs[1..]) == 0; }
    if |ys| == 1 { assert Total(ys[1..]) == 0; }
  }

  /** The first live allocation of a merged heap is in the first block or in the second. */
  lemma FirstLive(bs: seq<Block>, a: nat)
    requires bs != [] && Merged(bs)
    ensures !bs[0].free ==> Live(bs, a) != [] && Live(bs, a)[0] == Chunk(a + HEADER, bs[0].size)
    ensures bs[0].free && |bs| == 1 ==> Live(bs, a) == []
    ensures bs[0].free && |bs| > 1 ==>
              Live(bs, a) != [] && Live(bs, a)[0] == Chunk(a + Span(bs[0]) + HEADER, bs[1].size)
  {
    if |bs| > 1 {
      assert bs[0].free ==> !bs[1].free;
      assert bs[1..][0] == bs[1];
    }
  }

  /** A heap without live allocations is the single free block it began as. */
  lemma AllFreed(bs: seq<Block>, size: nat, a: nat)
    requires HeapOk(bs, size) && HEADER <= size && Live(bs, a) == []
    ensures bs == [Block(size - HEADER, true)]
  {
    var one := [Block(size - HEADER, true)];
    assert Live(one[1..], a + Span(one[0])) == [] && Total(one[1..]) == 0;
    LiveDetermines(bs, one, a);
  }

  // --- Allocation ---

  /** The first free block that can hold `asize` bytes, or the number of blocks. */
  function Fit(bs: seq<Block>, asize: nat): (i: nat)
    ensures i <= |bs| && (i < |bs| ==> bs[i].free && asize <= bs[i].size)
    ensures forall j :: 0 <= j < i ==> !(bs[j].free && asize <= bs[j].size)
  {
    if bs == [] then 0
    else if bs[0].free && asize <= bs[0].size then 0
    else 1 + Fit(bs[1..], asize)
  }

  /** Block `b` taken for `asize` bytes; what is left becomes a block of its own if it holds a header and 16 bytes. */
  function Carve(b: Block, asize: nat): seq<Block> {
    if asize + HEADER + 16 <= b.size then [Block(asize, false), Block(b.size - asize - HEADER, true)]
    else [Block(b.size, false)]
  }

  function Take(bs: seq<Block>, i: nat, asize: nat): seq<Block>
    requires i < |bs|
  {
    bs[..i] + (Carve(bs[i], asize) + bs[i + 1..])
  }

  /** What a block of `size` bytes gives a request for `asize`: exactly that, unless what would be left is smaller
      than a header and 16 bytes; then all of it, which is less than 48 bytes more. */
  ghost predicate Granted(size: nat, asize: nat, c: nat) {
    asize <= c < asize + 48 && (c == asize || c == size) && (c == asize <==> size == asize || asize + 48 <= size)
  }

  lemma CarveIs(b: Block, asize: nat, a: nat)
    requires b.free && asize <= b.size
    ensures Total(Carve(b, asize)) == Span(b) && Granted(b.size, asize, Carve(b, asize)[0].size)
    ensures Live(Carve(b, asize), a) == [Chunk(a + HEADER, Carve(b, asize)[0].size)] && Live([b], a) == []
  {
    var c := Carve(b, asize);
    if |c| == 2 {
      assert c[1..] == [c[1]] && [c[1]][1..] == [];
      assert Total([c[1]]) == Span(c[1]) && Live([c[1]], a + Span(c[0])) == [];
    } else {
      assert c[1..] == [];
    }
    assert [b][1..] == [];
  }

  /** Taking a free block keeps the heap tiled and merged and adds exactly one live allocation, of the bytes
      asked for or of less than 48 more. */
  lemma TakeKeeps(bs: seq<Block>, size: nat, i: nat, asize: nat, a: nat)
    requires HeapOk(bs, size) && i < |bs| && bs[i].free && asize <= bs[i].size && asize % 16 == 0
    ensures HeapOk(Take(bs, i, asize), size)
    ensures var at := a + Total(bs[..i]);
            var before, after := Live(bs[..i], a), Live(bs[i + 1..], at + Span(bs[i]));
            && Live(bs, a) == before + after
            && exists c :: && Granted(bs[i].size, asize, c)
                           && Live(Take(bs, i, asize), a) == before + [Chunk(at + HEADER, c)] + after
  {
    TakeCovers(bs, i, asize);
    TakeShape(bs, i, asize);
    CarveIs(bs[i], asize, a);
    TakeLive(bs, i, asize, a, Carve(bs[i], asize)[0].size);
  }

  lemma CutLive(xs: seq<Block>, cut: seq<Block>, ys: seq<Block>, a: nat, at: nat)
    requires at == a + Total(xs)
    ensures Live(xs + (cut + ys), a) == Live(xs, a) + (Live(cut, at) + Live(ys, at + Total(cut)))
  {
    LiveSplit(xs, cut + ys, a);
    LiveSplit(cut, ys, at);
  }

  lemma TakeLive(bs: seq<Block>, i: nat, asize: nat, a: nat, c: nat)
    requires i < |bs| && bs[i].free && asize <= bs[i].size && c == Carve(bs[i], asize)[0].size
    ensures var at := a + Total(bs[..i]);
            var before, after := Live(bs[..i], a), Live(bs[i + 1..], at + Span(bs[i]));
            && Live(bs, a) == before + after
            && Live(Take(bs, i, asize), a) == before + [Chunk(at + HEADER, c)] + after
  {
    var at, cut := a + Total(bs[..i]), Carve(bs[i], asize);
    var before, after := Live(bs[..i], a), Live(bs[i + 1..], at + Span(bs[i]));
    LiveWith(bs, i, a, before, after);
    CutLive(bs[..i], cut, bs[i + 1..], a, at);
    CarveIs(bs[i], asize, at);
    Between(before, Chunk(at + HEADER, c), after);
  }

  /** Block `i` after it was taken, and the blocks around it. */
  lemma TakenBlock(bs: seq<Block>, i: nat, asize: nat)
    requires i < |bs| && bs[i].free && asize <= bs[i].size
    ensures var r := Take(bs, i, asize);
            && i < |r| && r[..i] == bs[..i] && !r[i].free && Granted(bs[i].size, asize, r[i].size)
            && r[i + 1..] == (if r[i].size == bs[i].size then [] else [Block(bs[i].size - asize - HEADER, true)])
                             + bs[i + 1..]
  {
    CarveIs(bs[i], asize, 0);
    var c, r := Carve(bs[i], asize), Take(bs, i, asize);
    assert r == bs[..i] + c + bs[i + 1..];
    assert r[i + 1..] == c[1..] + bs[i + 1..];
  }

  lemma TakeCovers(bs: seq<Block>, i: nat, asize: nat)
    requires i < |bs| && bs[i].free && asize <= bs[i].size
    ensures Total(Take(bs, i, asize)) == Total(bs)
  {
    var c := Carve(bs[i], asize);
    CarveIs(bs[i], asize, 0);
    TotalAround(bs, i);
    TotalSplit(bs[..i], c + bs[i + 1..]);
    TotalSplit(c, bs[i + 1..]);
  }

  lemma TakeShape(bs: seq<Block>, i: nat, asize: nat)
    requires Merged(bs) && Aligned(bs) && i < |bs| && bs[i].free && asize <= bs[i].size && asize % 16 == 0
    ensures Merged(Take(bs, i, asize)) && Aligned(Take(bs, i, asize))
  {
    var c, r := Carve(bs[i], asize), Take(bs, i, asize);
    forall j | 0 <= j < |r| - 1
      ensures !(r[j].free && r[j + 1].free) && r[j].size % 16 == 0
    {
      if j < i {
        assert r[j] == bs[j];
        assert !(bs[j].free && bs[j + 1].free);
      } else if j < i + |c| {
        assert r[j] == c[j - i];
        if j == i + |c| - 1 {
          assert r[j + 1] == bs[i + 1];
          assert !(bs[i].free && bs[i + 1].free);
        }
      } else {
        assert r[j] == bs[j + 1 - |c|] && r[j + 1] == bs[j + 2 - |c|];
        assert !(bs[j + 1 - |c|].free && bs[j + 2 - |c|].free);
      }
    }
  }

  /** The bytes `x .. x + n` belong to the heap and to no live allocation or its header. */
  ghost predicate Gap(bs: seq<Block>, a: nat, x: nat, n: nat) {
    a <= x && x + n <= a + Total(bs) && forall k :: 0 <= k < |Live(bs, a)| ==> Outside(x, n, Live(bs, a)[k])
  }

  ghost predicate Outside(x: nat, n: nat, c: Chunk) {
    x + n + HEADER <= c.addr || c.addr + c.size <= x
  }

  /** In a merged heap every gap lies inside one free block. */
  lemma {:induction false} GapInBlock(bs: seq<Block>, a: nat, x: nat, n: nat) returns (i: nat)
    requires Merged(bs) && Gap(bs, a, x, n) && 0 < n
    ensures i < |bs| && bs[i].free && a + Total(bs[..i]) <= x && x + n <= a + Total(bs[..i]) + Span(bs[i])
    decreases |bs|
  {
    assert bs != [];
    var a' := a + Span(bs[0]);
    if bs[0].free && x + n <= a' {
      i := 0;
    } else {
      FirstLive(bs, a);
      if !bs[0].free {
        assert Outside(x, n, Live(bs, a)[0]);
      } else {
        assert |bs| > 1;
        assert Outside(x, n, Live(bs, a)[0]);
      }
      var skip := |Live(bs, a)| - |Live(bs[1..], a')|;
      forall k | 0 <= k < |Live(bs[1..], a')|
        ensures Outside(x, n, Live(bs[1..], a')[k])
      {
        assert Live(bs[1..], a')[k] == Live(bs, a)[k + skip];
      }
      i := GapInBlock(bs[1..], a', x, n);
      assert bs[..i + 1] == [bs[0]] + bs[1..][..i];
      TotalSplit([bs[0]], bs[1..][..i]);
      i := i + 1;
    }
  }

  /** A free block is a gap. */
  lemma BlockIsGap(bs: seq<Block>, a: nat, i: nat)
    requires i < |bs| && bs[i].free
    ensures Gap(bs, a, a + Total(bs[..i]), Span(bs[i]))
  {
    var at := a + Total(bs[..i]);
    TotalAround(bs, i);
    LiveAround(bs, i, a);
    assert Live([bs[i]], at) == [] by { assert [bs[i]][1..] == []; }
    var before, after := Live(bs[..i], a), Live(bs[i + 1..], at + Span(bs[i]));
    assert Live(bs, a) == before + after;
    LiveApart(bs[..i], a);
    LiveApart(bs[i + 1..], at + Span(bs[i]));
    forall k | 0 <= k < |Live(bs, a)|
      ensures Outside(at, Span(bs[i]), Live(bs, a)[k])
    {
      if k < |before| { assert Live(bs, a)[k] == before[k]; } else { assert Live(bs, a)[k] == after[k - |before|]; }
    }
  }

  /** First fit fails exactly when no gap between the live allocations can hold the request and its header. */
  lemma NoFit(bs: seq<Block>, size: nat, a: nat, asize: nat)
    requires HeapOk(bs, size)
    ensures var n := HEADER + asize; Fit(bs, asize) == |bs| <==> forall x :: !Gap(bs, a, x, n)
  {
    var i, n := Fit(bs, asize), HEADER + asize;
    if i < |bs| {
      BlockIsGap(bs, a, i);
      assert Gap(bs, a, a + Total(bs[..i]), n);
    } else {
      forall x | Gap(bs, a, x, n)
        ensures false
      {
        var k := GapInBlock(bs, a, x, n);
      }
    }
  }

  // --- Release ---

  /** The coalescing pass. */
  function Merge(bs: seq<Block>): seq<Block>
    decreases |bs|
  {
    if |bs| < 2 then bs
    else if bs[0].free && bs[1].free then Merge([Join(bs[0], bs[1])] + bs[2..])
    else [bs[0]] + Merge(bs[1..])
  }

  function Join(b: Block, c: Block): Block {
    Block(b.size + Span(c), true)
  }

  /** Joining the first two blocks changes neither what they cover nor what is live. */
  lemma JoinKeeps(bs: seq<Block>, a: nat)
    requires |bs| >= 2 && bs[0].free && bs[1].free
    ensures var r := [Join(bs[0], bs[1])] + bs[2..]; Total(r) == Total(bs) && Live(r, a) == Live(bs, a)
    ensures Aligned(bs) ==> Aligned([Join(bs[0], bs[1])] + bs[2..])
  {
    var r := [Join(bs[0], bs[1])] + bs[2..];
    assert r[1..] == bs[2..] && bs[1..][1..] == bs[2..] && bs[1..][0] == bs[1];
    assert forall i :: 1 <= i < |r| ==> r[i] == bs[i + 1];
  }

  /** Whatever it is given, the pass leaves merged blocks that cover the same bytes with the same live allocations. */
  lemma {:induction false} MergeKeeps(bs: seq<Block>, a: nat)
    ensures Total(Merge(bs)) == Total(bs) && Live(Merge(bs), a) == Live(bs, a) && Merged(Merge(bs))
    ensures Aligned(bs) ==> Aligned(Merge(bs))
    ensures bs != [] ==> Merge(bs) != [] && Merge(bs)[0].free == bs[0].free
    decreases |bs|
  {
    if |bs| >= 2 {
      if bs[0].free && bs[1].free {
        JoinKeeps(bs, a);
        MergeKeeps([Join(bs[0], bs[1])] + bs[2..], a);
      } else {
        var t := Merge(bs[1..]);
        MergeKeeps(bs[1..], a + Span(bs[0]));
        assert ([bs[0]] + t)[1..] == t;
        assert forall i :: 1 <= i < |[bs[0]] + t| ==> ([bs[0]] + t)[i] == t[i - 1];
      }
    }
  }

  /** Block `i` given back. */
  function Release(bs: seq<Block>, i: nat): seq<Block>
    requires i < |bs|
  {
    Merge(bs[i := Block(bs[i].size, true)])
  }

  /** Releasing a block keeps the heap tiled and merged and removes exactly its allocation. */
  lemma ReleaseKeeps(bs: seq<Block>, size: nat, i: nat, a: nat)
    requires HeapOk(bs, size) && i < |bs| && !bs[i].free
    ensures HeapOk(Release(bs, i), size)
    ensures var at := a + Total(bs[..i]);
            var before, after := Live(bs[..i], a), Live(bs[i + 1..], at + Span(bs[i]));
            && Live(bs, a) == before + [Chunk(at + HEADER, bs[i].size)] + after
            && Live(Release(bs, i), a) == before + after
  {
    var freed := bs[i := Block(bs[i].size, true)];
    FreedLive(bs, i, a, freed);
    MergeKeeps(freed, a);
  }

  /** Before the coalescing pass. */
  lemma FreedLive(bs: seq<Block>, i: nat, a: nat, freed: seq<Block>)
    requires i < |bs| && !bs[i].free && freed == bs[i := Block(bs[i].size, true)]
    ensures Total(freed) == Total(bs) && (Aligned(bs) ==> Aligned(freed))
    ensures var at := a + Total(bs[..i]);
            var before, after := Live(bs[..i], a), Live(bs[i + 1..], at + Span(bs[i]));
            Live(bs, a) == before + [Chunk(at + HEADER, bs[i].size)] + after && Live(freed, a) == before + after
  {
    TotalAround(bs, i);
    TotalAround(freed, i);
    assert freed[..i] == bs[..i] && freed[i + 1..] == bs[i + 1..];
    var before, after := Live(bs[..i], a), Live(bs[i + 1..], a + Total(bs[..i]) + Span(bs[i]));
    LiveWith(bs, i, a, before, after);
    LiveWith(freed, i, a, before, after);
  }

  /** What is live before block `i`, in it and behind it. */
  lemma LiveWith(bs: seq<Block>, i: nat, a: nat, before: seq<Chunk>, after: seq<Chunk>)
    requires i < |bs| && before == Live(bs[..i], a) && after == Live(bs[i + 1..], a + Total(bs[..i]) + Span(bs[i]))
    ensures Live(bs, a) == if bs[i].free then before + after
                           else before + [Chunk(a + Total(bs[..i]) + HEADER, bs[i].size)] + after
  {
    LiveAround(bs, i, a);
    LiveOne(bs[i], a + Total(bs[..i]));
    Between(before, Chunk(a + Total(bs[..i]) + HEADER, bs[i].size), after);
  }

  lemma Between(x: seq<Chunk>, c: Chunk, y: seq<Chunk>)
    ensures x + ([c] + y) == x + [c] + y && x + ([] + y) == x + y
  {
  }

  lemma LiveOne(b: Block, a: nat)
    ensures Live([b], a) == if b.free then [] else [Chunk(a + HEADER, b.size)]
  {
    assert [b][1..] == [];
  }

  /** Releasing what was just taken gives back the heap as it was. */
  lemma ReleaseUndoesTake(bs: seq<Block>, size: nat, i: nat, asize: nat, a: nat)
    requires HeapOk(bs, size) && i < |bs| && bs[i].free && asize <= bs[i].size && asize % 16 == 0
    ensures i < |Take(bs, i, asize)| && Release(Take(bs, i, asize), i) == bs
  {
    var taken := Take(bs, i, asize);
    TakenBlock(bs, i, asize);
    TakeKeeps(bs, size, i, asize, a);
    ReleaseKeeps(taken, size, i, a);
    assert taken[..i] == bs[..i];
    LiveAround(taken, i, a);
    TakeRest(bs, i, asize, a);
    LiveDetermines(Release(taken, i), bs, a);
  }

  /** Behind the taken block nothing but free space is new. */
  lemma TakeRest(bs: seq<Block>, i: nat, asize: nat, a: nat)
    requires i < |bs| && bs[i].free && asize <= bs[i].size
    ensures var taken, at := Take(bs, i, asize), a + Total(bs[..i]);
            Live(taken[i + 1..], at + Span(taken[i])) == Live(bs[i + 1..], at + Span(bs[i]))
  {
    var c := Carve(bs[i], asize);
    var taken, at := Take(bs, i, asize), a + Total(bs[..i]);
    if |c| == 2 {
      assert taken[i + 1..] == [c[1]] + bs[i + 1..];
      LiveSplit([c[1]], bs[i + 1..], at + Span(c[0]));
      assert [c[1]][1..] == [];
      assert Total([c[1]]) == Span(c[1]) && Live([c[1]], at + Span(c[0])) == [];
    } else {
      assert taken[i + 1..] == bs[i + 1..];
    }
  }
}

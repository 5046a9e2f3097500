/** The kernel heap as headers in memory, linked into a list (mm/kmalloc.c). */
module Kmalloc {
  import opened Bytes
  import opened HeapBlocks

  /** A block header; `next` is 0 at the end of the list. */
  datatype Header = Header(size: nat, free: bool, next: nat)

  /** A request rounded up to 16 bytes, in 64 bits. */
  function AlignUp(size: nat): (r: nat)
    ensures r % 16 == 0 && r < TWO64
  {
    W64(size + 15) / 16 * 16
  }

  /** Rounding covers the request exactly when it does not wrap. */
  lemma AlignUpCovers(size: nat)
    requires size < TWO64
    ensures size <= AlignUp(size) <==> size <= TWO64 - 16
    ensures size <= TWO64 - 16 ==> AlignUp(size) < size + 16
  {
  }

  /** The payload that start-up gives the first block, a 64-bit difference, makes it cover the heap exactly when
      the heap is no smaller than a header. */
  lemma FirstBlockFitsIff(bytes: nat)
    requires bytes < TWO64
    ensures HEADER + W64(bytes + TWO64 - HEADER) == bytes <==> HEADER <= bytes
  {
  }

  /** A heap of 16 bytes begins with a block of nearly 2^64. */
  lemma TinyHeap()
    ensures W64(16 + TWO64 - HEADER) == TWO64 - 16
  {
  }

  /** The headers from address `a` on are those of `bs`; with `last`, the last of them ends the list. */
  ghost predicate Headers(h: map<nat, Header>, a: nat, bs: seq<Block>, last: bool)
    decreases |bs|
  {
    bs == [] || (
      && a in h && h[a] == Header(bs[0].size, bs[0].free, if last && |bs| == 1 then 0 else a + Span(bs[0]))
      && Headers(h, a + Span(bs[0]), bs[1..], last))
  }

  lemma {:induction false} HeadersSplit(h: map<nat, Header>, a: nat, xs: seq<Block>, ys: seq<Block>, last: bool)
    ensures Headers(h, a, xs + ys, last) <==> Headers(h, a, xs, last && ys == []) && Headers(h, a + Total(xs), ys, last)
    decreases |xs|
  {
    if xs == [] {
      assert xs + ys == ys;
    } else {
      assert (xs + ys)[1..] == xs[1..] + ys && (xs + ys)[0] == xs[0];
      HeadersSplit(h, a + Span(xs[0]), xs[1..], ys, last);
    }
  }

  /** A header written elsewhere changes nothing here. */
  lemma {:induction false} HeadersFrame(h: map<nat, Header>, a: nat, bs: seq<Block>, last: bool, x: nat, v: Header)
    requires Headers(h, a, bs, last) && (x < a || a + Total(bs) <= x)
    ensures Headers(h[x := v], a, bs, last)
    decreases |bs|
  {
    if bs != [] { HeadersFrame(h, a + Span(bs[0]), bs[1..], last, x, v); }
  }

  /** Rewriting the header of one block in the middle. */
  lemma HeadersSet(h: map<nat, Header>, a: nat, xs: seq<Block>, b: Block, b': Block, ys: seq<Block>, at: nat, v: Header)
    requires Headers(h, a, xs + ([b] + ys), true) && at == a + Total(xs) && Span(b') <= Span(b)
    requires v == Header(b'.size, b'.free, if ys == [] then 0 else at + Span(b))
    requires ys == [] || b'.size == b.size
    ensures Headers(h[at := v], a, xs + ([b'] + ys), true)
  {
    HeadersSplit(h, a, xs, [b] + ys, true);
    HeadersCons(h, at, b, ys);
    HeadersFrame(h, a, xs, false, at, v);
    HeadersFrame(h, at + Span(b), ys, true, at, v);
    HeadersCons(h[at := v], at, b', ys);
    HeadersSplit(h[at := v], a, xs, [b'] + ys, true);
  }

  lemma HeadersCons(h: map<nat, Header>, a: nat, b: Block, ys: seq<Block>)
    ensures Headers(h, a, [b] + ys, true) <==>
            && a in h && h[a] == Header(b.size, b.free, if ys == [] then 0 else a + Span(b))
            && Headers(h, a + Span(b), ys, true)
  {
    assert ([b] + ys)[1..] == ys;
  }

  /** Block `b` cut in two: a new header inside it and its own header rewritten. */
  lemma HeadersCut(h: map<nat, Header>, a: nat, xs: seq<Block>, b: Block, p: Block, q: Block, ys: seq<Block>, at: nat,
                   v: Header, w: Header)
    requires Headers(h, a, xs + ([b] + ys), true) && at == a + Total(xs) && Span(p) + Span(q) == Span(b)
    requires v == Header(q.size, q.free, if ys == [] then 0 else at + Span(b))
             && w == Header(p.size, p.free, at + Span(p))
    ensures Headers(h[at + Span(p) := v][at := w], a, xs + ([p, q] + ys), true)
  {
    var h2 := h[at + Span(p) := v][at := w];
    HeadersSplit(h, a, xs, [b] + ys, true);
    HeadersCons(h, at, b, ys);
    HeadersFrameTwice(h, a, xs, false, at + Span(p), v, at, w);
    HeadersFrameTwice(h, at + Span(b), ys, true, at + Span(p), v, at, w);
    HeadersTwo(h2, at, p, q, ys);
    HeadersSplit(h2, a, xs, [p, q] + ys, true);
  }

  lemma HeadersFrameTwice(h: map<nat, Header>, a: nat, bs: seq<Block>, last: bool, x: nat, v: Header, y: nat, w: Header)
    requires Headers(h, a, bs, last) && (x < a || a + Total(bs) <= x) && (y < a || a + Total(bs) <= y)
    ensures Headers(h[x := v][y := w], a, bs, last)
  {
    HeadersFrame(h, a, bs, last, x, v);
    HeadersFrame(h[x := v], a, bs, last, y, w);
  }

  lemma HeadersTwo(h: map<nat, Header>, a: nat, p: Block, q: Block, ys: seq<Block>)
    requires a in h && h[a] == Header(p.size, p.free, a + Span(p)) && Headers(h, a + Span(p) + Span(q), ys, true)
    requires a + Span(p) in h && h[a + Span(p)] == Header(q.size, q.free, if ys == [] then 0 else a + Span(p) + Span(q))
    ensures Headers(h, a, [p, q] + ys, true)
  {
    HeadersCons(h, a + Span(p), q, ys);
    HeadersCons(h, a, p, [q] + ys);
    assert [p, q] + ys == [p] + ([q] + ys);
  }

  /** Two free neighbours joined in the first one's header. */
  lemma HeadersJoin(h: map<nat, Header>, a: nat, xs: seq<Block>, p: Block, q: Block, ys: seq<Block>, at: nat, v: Header)
    requires Headers(h, a, xs + ([p, q] + ys), true) && at == a + Total(xs)
    requires v == Header(Join(p, q).size, true, if ys == [] then 0 else at + Span(p) + Span(q))
    ensures Headers(h[at := v], a, xs + ([Join(p, q)] + ys), true)
  {
    HeadersSplit(h, a, xs, [p, q] + ys, true);
    assert [p, q] + ys == [p] + ([q] + ys);
    HeadersCons(h, at, p, [q] + ys);
    HeadersCons(h, at + Span(p), q, ys);
    HeadersFrame(h, a, xs, false, at, v);
    HeadersFrame(h, at + Span(p) + Span(q), ys, true, at, v);
    HeadersCons(h[at := v], at, Join(p, q), ys);
    HeadersSplit(h[at := v], a, xs, [Join(p, q)] + ys, true);
  }

  /** What the headers of the first two blocks behind `xs` say. */
  lemma HeaderAt(h: map<nat, Header>, a: nat, xs: seq<Block>, ys: seq<Block>)
    requires Headers(h, a, xs + ys, true) && ys != []
    ensures var at := a + Total(xs);
            && at in h && h[at] == Header(ys[0].size, ys[0].free, if |ys| == 1 then 0 else at + Span(ys[0]))
            && (|ys| > 1 ==> at + Span(ys[0]) in h &&
                             h[at + Span(ys[0])] == Header(ys[1].size, ys[1].free, if |ys| == 2 then 0
                               else at + Span(ys[0]) + Span(ys[1])))
  {
    HeadersSplit(h, a, xs, ys, true);
    if |ys| > 1 { assert ys[1..][0] == ys[1]; }
  }

  lemma HeaderOf(h: map<nat, Header>, a: nat, bs: seq<Block>, i: nat)
    requires Headers(h, a, bs, true) && i < |bs|
    ensures var at, next := a + Total(bs[..i]), a + Total(bs[..i + 1]);
            at in h && h[at] == Header(bs[i].size, bs[i].free, if i + 1 == |bs| then 0 else next)
  {
    assert bs == bs[..i] + bs[i..];
    HeaderAt(h, a, bs[..i], bs[i..]);
    assert bs[..i + 1] == bs[..i] + [bs[i]];
    TotalSplit(bs[..i], [bs[i]]);
    assert [bs[i]][1..] == [];
  }

  /** Block `i` cut for `asize` bytes, but not yet marked used. */
  ghost function Opened(bs: seq<Block>, i: nat, asize: nat): seq<Block>
    requires i < |bs|
  {
    if |Carve(bs[i], asize)| == 2 then bs[..i] + ([Block(asize, true), Carve(bs[i], asize)[1]] + bs[i + 1..]) else bs
  }

  lemma OpenedIs(bs: seq<Block>, i: nat, asize: nat)
    requires i < |bs| && bs[i].free
    ensures var r := Opened(bs, i, asize);
            && i < |r| && r[..i] == bs[..i] && r[i].free
            && r[..i] + ([Block(r[i].size, false)] + r[i + 1..]) == Take(bs, i, asize)
  {
    var r, c := Opened(bs, i, asize), Carve(bs[i], asize);
    if |c| == 2 {
      assert r[i + 1..] == [c[1]] + bs[i + 1..];
      assert [Block(asize, false)] + ([c[1]] + bs[i + 1..]) == c + bs[i + 1..];
    }
  }

  lemma OpenedBlock(bs: seq<Block>, i: nat, asize: nat)
    requires i < |bs| && bs[i].free && asize <= bs[i].size
    ensures var r := Opened(bs, i, asize); i < |r| && r[i].free && Granted(bs[i].size, asize, r[i].size)
  {
    OpenedIs(bs, i, asize);
    TakenBlock(bs, i, asize);
    var r := Opened(bs, i, asize);
    assert (r[..i] + ([Block(r[i].size, false)] + r[i + 1..]))[i] == Block(r[i].size, false);
  }

  /** Where the first two blocks cannot be joined, the pass moves on. */
  lemma MergeMovesOn(xs: seq<Block>, ys: seq<Block>)
    requires |ys| > 1 && !(ys[0].free && ys[1].free)
    ensures xs + ys == (xs + [ys[0]]) + ys[1..] && xs + Merge(ys) == (xs + [ys[0]]) + Merge(ys[1..])
    ensures Total(xs + [ys[0]]) == Total(xs) + Span(ys[0])
  {
    assert ys == [ys[0]] + ys[1..];
    MoveOne(xs, ys[0], ys[1..]);
    MoveOne(xs, ys[0], Merge(ys[1..]));
    assert [ys[0]][1..] == [];
    TotalSplit(xs, [ys[0]]);
  }

  lemma MoveOne(xs: seq<Block>, b: Block, ys: seq<Block>)
    ensures xs + ([b] + ys) == (xs + [b]) + ys
  {
  }

  class Heap {
    var base: nat
    var size: nat
    /** The first block's header, or 0 before the heap is set up. */
    var head: nat
    var hdr: map<nat, Header>
    ghost var blocks: seq<Block>

    constructor ()
      ensures Valid() && head == 0
    {
      base, size, head, hdr, blocks := 0, 0, 0, map[], [];
    }

    ghost predicate Valid()
      reads this
    {
      head != 0 ==>
        && head == base && base + size + 16 <= TWO64
        && HeapOk(blocks, size) && blocks != [] && Headers(hdr, base, blocks, true)
    }

    /** `kmalloc_init`: one free block. */
    method Init(start: nat, bytes: nat)
      requires 0 < start && HEADER <= bytes && start + bytes + 16 <= TWO64
      modifies this
      ensures Valid() && head == base == start && size == bytes && blocks == [Block(bytes - HEADER, true)]
    {
      base, size, head := start, bytes, start;
      hdr := hdr[head := Header(bytes - HEADER, true, 0)];
      blocks := [Block(bytes - HEADER, true)];
      assert blocks[1..] == [] && Total(blocks[1..]) == 0;
    }

    /** `split_block` on block `i`, at address `blk`. */
    method SplitBlock(blk: nat, asize: nat, ghost i: nat)
      requires Valid() && head != 0 && i < |blocks| && blk == base + Total(blocks[..i]) && blocks[i].free
      requires asize <= blocks[i].size
      modifies this`hdr, this`blocks
      ensures Headers(hdr, base, blocks, true)
      ensures blocks == Opened(old(blocks), i, asize)
      ensures i < |blocks| && blocks[i].free && Granted(old(blocks)[i].size, asize, blocks[i].size)
    {
      OpenedBlock(blocks, i, asize);
      HeaderOf(hdr, base, blocks, i);
      TotalAround(blocks, i);
      Unwrapped(asize + HEADER + 16);
      var total := hdr[blk].size;
      if total >= W64(asize + HEADER + 16) { CutBlock(blk, asize, total, i); }
    }

    /** Write a header for what is left behind `asize` bytes, and the block's own. */
    method CutBlock(blk: nat, asize: nat, total: nat, ghost i: nat)
      requires i < |blocks| && blk == base + Total(blocks[..i]) && blocks[i].free && total == blocks[i].size
      requires Headers(hdr, base, blocks, true) && asize + HEADER + 16 <= total
      modifies this`hdr, this`blocks
      ensures Headers(hdr, base, blocks, true) && blocks == Opened(old(blocks), i, asize)
    {
      ghost var h, b, xs, ys := hdr, blocks[i], blocks[..i], blocks[i + 1..];
      TotalAround(blocks, i);
      HeaderAt(h, base, xs, [b] + ys);
      var at := blk + HEADER + asize;
      hdr := hdr[at := Header(total - asize - HEADER, true, hdr[blk].next)];
      hdr := hdr[blk := Header(asize, hdr[blk].free, at)];
      ghost var p, q := Block(asize, true), Block(total - asize - HEADER, true);
      HeadersCut(h, base, xs, b, p, q, ys, blk, hdr[at], hdr[blk]);
      blocks := xs + ([p, q] + ys);
    }

    /** `kmalloc`: first fit. */
    method Kmalloc(n: nat) returns (ptr: nat)
      requires Valid() && n < TWO64
      modifies this`hdr, this`blocks
      ensures Valid()
      ensures var i, asize := Fit(old(blocks), AlignUp(n)), AlignUp(n);
              if n == 0 || head == 0 || i == |old(blocks)| then ptr == 0 && blocks == old(blocks) && hdr == old(hdr)
              else
                && ptr == base + Total(old(blocks)[..i]) + HEADER && blocks == Take(old(blocks), i, asize)
                && i < |blocks| && !blocks[i].free && Granted(old(blocks)[i].size, asize, blocks[i].size)
    {
      if n == 0 || head == 0 { return 0; }
      var asize := AlignUp(n);
      var cur := head;
      ghost var i := 0;
      assert blocks[..0] == [];
      while cur != 0
        invariant i <= |blocks| && Valid() && hdr == old(hdr) && blocks == old(blocks)
        invariant cur == if i < |blocks| then base + Total(blocks[..i]) else 0
        invariant Fit(blocks, asize) >= i
        decreases |blocks| - i
      {
        HeaderOf(hdr, base, blocks, i);
        if hdr[cur].free && hdr[cur].size >= asize {
          TakeBlock(cur, asize, i);
          return cur + HEADER;
        }
        cur := hdr[cur].next;
        i := i + 1;
      }
      return 0;
    }

    /** Split block `i` if it is large enough and mark it used. */
    method TakeBlock(cur: nat, asize: nat, ghost i: nat)
      requires Valid() && head != 0 && i < |blocks| && cur == base + Total(blocks[..i]) && blocks[i].free
      requires asize <= blocks[i].size && asize % 16 == 0
      modifies this`hdr, this`blocks
      ensures Valid() && blocks == Take(old(blocks), i, asize)
      ensures i < |blocks| && !blocks[i].free && Granted(old(blocks)[i].size, asize, blocks[i].size)
    {
      ghost var bs := blocks;
      TakenBlock(bs, i, asize);
      TakeKeeps(bs, size, i, asize, base);
      SplitBlock(cur, asize, i);
      OpenedIs(bs, i, asize);
      MarkBlock(cur, false, i);
    }

    /** Set the `free` field of block `i`, at address `at`. */
    method MarkBlock(at: nat, free: bool, ghost i: nat)
      requires i < |blocks| && at == base + Total(blocks[..i]) && Headers(hdr, base, blocks, true)
      modifies this`hdr, this`blocks
      ensures Headers(hdr, base, blocks, true) && blocks == old(blocks)[i := Block(old(blocks)[i].size, free)]
      ensures blocks == old(blocks)[..i] + ([Block(old(blocks)[i].size, free)] + old(blocks)[i + 1..])
    {
      ghost var h, b, xs, ys := hdr, blocks[i], blocks[..i], blocks[i + 1..];
      TotalAround(blocks, i);
      HeaderAt(h, base, xs, [b] + ys);
      hdr := hdr[at := hdr[at].(free := free)];
      HeadersSet(h, base, xs, b, Block(b.size, free), ys, at, hdr[at]);
      blocks := xs + ([Block(b.size, free)] + ys);
    }

    /** `kfree`: `i` is the block that `ptr` was allocated from. */
    method Kfree(ptr: nat, ghost i: nat)
      requires Valid()
      requires ptr != 0 ==> head != 0 && i < |blocks| && !blocks[i].free && ptr == base + Total(blocks[..i]) + HEADER
      modifies this`hdr, this`blocks
      ensures Valid() && blocks == if ptr == 0 then old(blocks) else Release(old(blocks), i)
    {
      if ptr == 0 { return; }
      ghost var bs := blocks;
      ReleaseKeeps(bs, size, i, base);
      MarkBlock(ptr - HEADER, true, i);
      MergeKeeps(blocks, base);
      Coalesce();
    }

    /** The pass of `kfree` over the list. */
    method Coalesce()
      requires head != 0 && head == base && base + Total(blocks) <= TWO64 && blocks != []
               && Headers(hdr, base, blocks, true)
      modifies this`hdr, this`blocks
      ensures blocks == Merge(old(blocks)) && Headers(hdr, base, blocks, true)
    {
      var cur := head;
      ghost var xs, ys := [], blocks;
      assert blocks == xs + ys;
      HeaderAt(hdr, base, xs, ys);
      while cur != 0 && hdr[cur].next != 0
        invariant blocks == xs + ys && ys != [] && Headers(hdr, base, blocks, true)
        invariant cur == base + Total(xs) && cur in hdr
        invariant hdr[cur] == Header(ys[0].size, ys[0].free, if |ys| == 1 then 0 else cur + Span(ys[0]))
        invariant xs + Merge(ys) == Merge(old(blocks))
        decreases |ys|
      {
        HeaderAt(hdr, base, xs, ys);
        var next := hdr[cur].next;
        var end := cur + HEADER + hdr[cur].size;
        if hdr[cur].free && hdr[next].free && end == next {
          ghost var h, p, q, zs := hdr, ys[0], ys[1], ys[2..];
          assert ys == [p, q] + zs;
          hdr := hdr[cur := Header(hdr[cur].size + (HEADER + hdr[next].size), hdr[cur].free, hdr[next].next)];
          HeadersJoin(h, base, xs, p, q, zs, cur, hdr[cur]);
          ys := [Join(p, q)] + zs;
          blocks := xs + ys;
        } else {
          cur := next;
          MergeMovesOn(xs, ys);
          xs, ys := xs + [ys[0]], ys[1..];
          HeaderAt(hdr, base, xs, ys);
        }
      }
      assert Merge(ys) == ys;
    }

    /** `kmalloc_usable_size`. */
    method UsableSize(ptr: nat, ghost i: nat) returns (n: nat)
      requires Valid()
      requires ptr != 0 ==> head != 0 && i < |blocks| && ptr == base + Total(blocks[..i]) + HEADER
      ensures n == if ptr == 0 then 0 else blocks[i].size
    {
      if ptr == 0 { return 0; }
      HeaderOf(hdr, base, blocks, i);
      n := hdr[ptr - HEADER].size;
    }
  }
}

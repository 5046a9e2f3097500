/** Runs of the kernel heap's operations (mm/kmalloc.c). */
module HeapRuns {
  import opened Bytes
  import opened HeapBlocks
  import opened Kmalloc

  datatype Op = Malloc(size: nat) | Free(ptr: nat)

  /** The heap at address `base`, and the size asked for by each allocation that is still live. */
  datatype State = State(bs: seq<Block>, asked: map<nat, nat>)

  /** The used block whose payload is at `ptr`. */
  function IndexOf(bs: seq<Block>, a: nat, ptr: nat): (i: nat)
    ensures i <= |bs|
    ensures i < |bs| ==> !bs[i].free && ptr == a + Total(bs[..i]) + HEADER
  {
    if bs == [] then 0
    else if !bs[0].free && ptr == a + HEADER then 0
    else
      var i := IndexOf(bs[1..], a + Span(bs[0]), ptr);
      assert i < |bs[1..]| ==> bs[..i + 1][1..] == bs[1..][..i];
      i + 1
  }

  /** `kmalloc` and `kfree`. */
  function Step(s: State, base: nat, op: Op): State {
    match op
    case Malloc(n) =>
      var i := Fit(s.bs, AlignUp(n));
      if n == 0 || i == |s.bs| then s
      else State(Take(s.bs, i, AlignUp(n)), s.asked[base + Total(s.bs[..i]) + HEADER := n])
    case Free(ptr) =>
      var i := IndexOf(s.bs, base, ptr);
      if ptr == 0 || i == |s.bs| then s else State(Release(s.bs, i), s.asked - {ptr})
  }

  /** Sizes are 64-bit; only live pointers, or 0, are freed. */
  ghost predicate OpOk(s: State, op: Op) {
    match op
    case Malloc(n) => n < TWO64
    case Free(ptr) => ptr == 0 || ptr in s.asked
  }

  ghost function Addrs(live: seq<Chunk>): set<nat> {
    set k | 0 <= k < |live| :: live[k].addr
  }

  /** The allocation is large enough, unless the request was so large that rounding it up wrapped, and less than 48
      bytes larger than the rounded request. */
  ghost predicate Enough(c: Chunk, asked: map<nat, nat>) {
    c.addr in asked && Serves(c.size, asked[c.addr])
  }

  ghost predicate Serves(size: nat, n: nat) {
    (n <= size <==> n <= TWO64 - 16) && AlignUp(n) <= size < AlignUp(n) + HEADER + 16
  }

  /** The heap is tiled and merged, its used blocks are exactly the live allocations, and each is large enough. */
  ghost predicate Inv(s: State, base: nat, size: nat) {
    && HeapOk(s.bs, size) && size + 16 <= TWO64
    && s.asked.Keys == Addrs(Live(s.bs, base))
    && forall k {:trigger Live(s.bs, base)[k]} :: 0 <= k < |Live(s.bs, base)| ==> Enough(Live(s.bs, base)[k], s.asked)
  }

  lemma Begin(base: nat, size: nat)
    requires HEADER <= size && size + 16 <= TWO64
    ensures Inv(State([Block(size - HEADER, true)], map[]), base, size)
  {
    var bs := [Block(size - HEADER, true)];
    assert bs[1..] == [] && Total(bs[1..]) == 0 && Live(bs[1..], base + Span(bs[0])) == [];
  }

  lemma MallocKeeps(s: State, base: nat, size: nat, n: nat)
    requires Inv(s, base, size) && n < TWO64
    ensures Inv(Step(s, base, Malloc(n)), base, size)
  {
    var i, asize := Fit(s.bs, AlignUp(n)), AlignUp(n);
    if n != 0 && i < |s.bs| {
      TakeKeeps(s.bs, size, i, asize, base);
      var at := base + Total(s.bs[..i]);
      var before, after := Live(s.bs[..i], base), Live(s.bs[i + 1..], at + Span(s.bs[i]));
      var c :| && Granted(s.bs[i].size, asize, c)
               && Live(Take(s.bs, i, asize), base) == before + [Chunk(at + HEADER, c)] + after;
      GrantServes(s.bs, size, i, n, c);
      LiveApart(Take(s.bs, i, asize), base);
      Inserted(before, Chunk(at + HEADER, c), after, s.asked, n, Live(s.bs, base), Live(Take(s.bs, i, asize), base));
    }
  }

  lemma FreeKeeps(s: State, base: nat, size: nat, ptr: nat)
    requires Inv(s, base, size)
    ensures Inv(Step(s, base, Free(ptr)), base, size)
  {
    var i := IndexOf(s.bs, base, ptr);
    if ptr != 0 && i < |s.bs| {
      ReleaseKeeps(s.bs, size, i, base);
      var at := base + Total(s.bs[..i]);
      LiveApart(s.bs, base);
      Removed(Live(s.bs[..i], base), Chunk(ptr, s.bs[i].size), Live(s.bs[i + 1..], at + Span(s.bs[i])), s.asked,
              Live(s.bs, base), Live(Release(s.bs, i), base));
    }
  }

  lemma GrantServes(bs: seq<Block>, size: nat, i: nat, n: nat, c: nat)
    requires Total(bs) == size && size + 16 <= TWO64 && n < TWO64 && i < |bs| && AlignUp(n) <= bs[i].size
    requires Granted(bs[i].size, AlignUp(n), c)
    ensures Serves(c, n)
  {
    AlignUpCovers(n);
    TotalAround(bs, i);
  }

  ghost predicate Apart(live: seq<Chunk>) {
    forall i, j :: 0 <= i < j < |live| ==> InOrder(live[i], live[j])
  }

  lemma OnlyThere(before: seq<Chunk>, c: Chunk, after: seq<Chunk>, live: seq<Chunk>)
    requires live == before + [c] + after && Apart(live)
    ensures forall k {:trigger (before + after)[k]} :: 0 <= k < |before + after| ==> (before + after)[k].addr != c.addr
  {
    forall k | 0 <= k < |before + after|
      ensures (before + after)[k].addr != c.addr
    {
      var m := |before|;
      assert live[m] == c;
      if k < m {
        assert InOrder(live[k], live[m]);
      } else {
        assert InOrder(live[m], live[k + 1]);
      }
    }
  }

  lemma Inserted(before: seq<Chunk>, c: Chunk, after: seq<Chunk>, asked: map<nat, nat>, n: nat, live: seq<Chunk>,
                 live': seq<Chunk>)
    requires live == before + after && live' == before + [c] + after && asked.Keys == Addrs(live)
    requires forall k {:trigger live[k]} :: 0 <= k < |live| ==> Enough(live[k], asked)
    requires Serves(c.size, n) && Apart(live')
    ensures asked[c.addr := n].Keys == Addrs(live')
    ensures forall k {:trigger live'[k]} :: 0 <= k < |live'| ==> Enough(live'[k], asked[c.addr := n])
  {
    var m := |before|;
    OnlyThere(before, c, after, live');
    assert c.addr !in asked;
    forall k | 0 <= k < |live'|
      ensures Enough(live'[k], asked[c.addr := n])
    {
      if k < m { assert live'[k] == live[k]; } else if k > m { assert live'[k] == live[k - 1]; }
    }
    forall p | p in asked[c.addr := n].Keys
      ensures p in Addrs(live')
    {
      if p == c.addr {
        assert live'[m] == c;
      } else {
        var k :| 0 <= k < |live| && live[k].addr == p;
        assert live'[if k < m then k else k + 1] == live[k];
      }
    }
  }

  lemma Removed(before: seq<Chunk>, c: Chunk, after: seq<Chunk>, asked: map<nat, nat>, live: seq<Chunk>,
                live': seq<Chunk>)
    requires live == before + [c] + after && live' == before + after && asked.Keys == Addrs(live)
    requires forall k {:trigger live[k]} :: 0 <= k < |live| ==> Enough(live[k], asked)
    requires Apart(live)
    ensures (asked - {c.addr}).Keys == Addrs(live')
    ensures forall k {:trigger live'[k]} :: 0 <= k < |live'| ==> Enough(live'[k], asked - {c.addr})
  {
    var m := |before|;
    OnlyThere(before, c, after, live);
    forall k | 0 <= k < |live'|
      ensures Enough(live'[k], asked - {c.addr})
    {
      assert live'[k] == live[if k < m then k else k + 1];
    }
    forall p | p in (asked - {c.addr}).Keys
      ensures p in Addrs(live')
    {
      var k :| 0 <= k < |live| && live[k].addr == p;
      assert live[m] == c;
      assert live'[if k < m then k else k - 1] == live[k];
    }
  }

  lemma StepKeeps(s: State, base: nat, size: nat, op: Op)
    requires Inv(s, base, size) && OpOk(s, op)
    ensures Inv(Step(s, base, op), base, size)
  {
    match op
    case Malloc(n) => MallocKeeps(s, base, size, n);
    case Free(ptr) => FreeKeeps(s, base, size, ptr);
  }

  function Run(s: State, base: nat, ops: seq<Op>): State
    decreases |ops|
  {
    if ops == [] then s else Run(Step(s, base, ops[0]), base, ops[1..])
  }

  ghost predicate RunOk(s: State, base: nat, ops: seq<Op>)
    decreases |ops|
  {
    ops == [] || (OpOk(s, ops[0]) && RunOk(Step(s, base, ops[0]), base, ops[1..]))
  }

  /** Over every run the blocks tile the heap exactly, free neighbours are merged, the used blocks are
      exactly the live allocations, and each is at least as large as asked for unless rounding wrapped, and less
      than 48 bytes larger than the rounded request. */
  lemma {:induction false} RunKeeps(s: State, base: nat, size: nat, ops: seq<Op>)
    requires Inv(s, base, size) && RunOk(s, base, ops)
    ensures Inv(Run(s, base, ops), base, size)
    decreases |ops|
  {
    if ops != [] {
      StepKeeps(s, base, size, ops[0]);
      RunKeeps(Step(s, base, ops[0]), base, size, ops[1..]);
    }
  }

  /** A live pointer has a block, and what `kfree` releases is that block. */
  lemma {:induction false} IndexOfLive(bs: seq<Block>, a: nat, k: nat)
    requires k < |Live(bs, a)|
    ensures var i := IndexOf(bs, a, Live(bs, a)[k].addr); i < |bs| && bs[i].size == Live(bs, a)[k].size
  {
    LiveApart(bs, a);
    var c := Live(bs, a)[k];
    if !bs[0].free && c.addr == a + HEADER {
      assert k == 0 || InOrder(Live(bs, a)[0], Live(bs, a)[k]);
    } else {
      var k' := if bs[0].free then k else k - 1;
      assert Live(bs[1..], a + Span(bs[0]))[k'] == c;
      IndexOfLive(bs[1..], a + Span(bs[0]), k');
    }
  }

  /** The payload of a live allocation, as `kmalloc_usable_size` sees it. */
  ghost function Usable(s: State, base: nat, ptr: nat): nat {
    var i := IndexOf(s.bs, base, ptr);
    if i < |s.bs| then s.bs[i].size else 0
  }

  /** In every state that satisfies the invariant, and so after every run: live payloads are as far from a
      multiple of 16 as the heap's start, so 16-aligned exactly when that is; they are inside the heap, large
      enough exactly when the request did not wrap, less than 48 bytes larger than the rounded request, and any
      two are disjoint. */
  lemma LivePayloads(s: State, base: nat, size: nat, p: nat, q: nat)
    requires Inv(s, base, size) && p in s.asked && q in s.asked
    ensures p % 16 == base % 16 && base + HEADER <= p && p + Usable(s, base, p) <= base + size
    ensures s.asked[p] <= Usable(s, base, p) <==> s.asked[p] <= TWO64 - 16
    ensures AlignUp(s.asked[p]) <= Usable(s, base, p) < AlignUp(s.asked[p]) + HEADER + 16
    ensures p != q ==> p + Usable(s, base, p) <= q || q + Usable(s, base, q) <= p
  {
    var live := Live(s.bs, base);
    var j := ChunkOf(s, base, size, p);
    var k := ChunkOf(s, base, size, q);
    assert Enough(live[j], s.asked);
    LiveApart(s.bs, base);
    LiveAligned(s.bs, base);
    assert j == k || (if j < k then InOrder(live[j], live[k]) else InOrder(live[k], live[j]));
  }

  lemma ChunkOf(s: State, base: nat, size: nat, p: nat) returns (j: nat)
    requires Inv(s, base, size) && p in s.asked
    ensures j < |Live(s.bs, base)| && Live(s.bs, base)[j] == Chunk(p, Usable(s, base, p))
  {
    j :| 0 <= j < |Live(s.bs, base)| && Live(s.bs, base)[j].addr == p;
    IndexOfLive(s.bs, base, j);
  }

  /** Once every allocation has been freed, the heap is the single free block it began as. */
  lemma AllFreedIsInitial(base: nat, size: nat, ops: seq<Op>)
    requires HEADER <= size && size + 16 <= TWO64
    requires var s0 := State([Block(size - HEADER, true)], map[]);
             RunOk(s0, base, ops) && Run(s0, base, ops).asked == map[]
    ensures var s0 := State([Block(size - HEADER, true)], map[]); Run(s0, base, ops) == s0
  {
    var s0 := State([Block(size - HEADER, true)], map[]);
    Begin(base, size);
    RunKeeps(s0, base, size, ops);
    var s := Run(s0, base, ops);
    assert Live(s.bs, base) == [] || Live(s.bs, base)[0].addr in s.asked;
    AllFreed(s.bs, size, base);
  }

  /** After every run, `kmalloc` fails exactly when no gap between live allocations holds the rounded
      request and its header. */
  lemma MallocFailsIff(s: State, base: nat, size: nat, n: nat)
    requires Inv(s, base, size) && 0 < n < TWO64
    ensures var need := HEADER + AlignUp(n); Step(s, base, Malloc(n)) == s <==> forall x :: !Gap(s.bs, base, x, need)
  {
    NoFit(s.bs, size, base, AlignUp(n));
    var i := Fit(s.bs, AlignUp(n));
    if i < |s.bs| {
      TakenBlock(s.bs, i, AlignUp(n));
    }
  }

  /** A request within 15 bytes of 2^64 gets a block that does not hold it. */
  lemma WrappedRequest()
    ensures var s := Step(State([Block(1000, true)], map[]), 4096, Malloc(TWO64 - 1));
            s.bs == [Block(0, false), Block(968, true)] && s.asked == map[4096 + HEADER := TWO64 - 1]
  {
    assert AlignUp(TWO64 - 1) == 0;
    var bs := [Block(1000, true)];
    assert bs[..0] == [] && bs[1..] == [];
  }
}

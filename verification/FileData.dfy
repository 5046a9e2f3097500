/** A file's bytes as the concatenation of its clusters, and the cluster-by-cluster read and write
    loops as one slice and one splice of it (fs/exfat.c). */
module FileData {
  import opened Bytes
  import opened FatChain

  ghost predicate Held(heap: seq<seq<byte>>, ch: seq<nat>, csz: nat) {
    forall i :: 0 <= i < |ch| ==> ch[i] < |heap| && |heap[ch[i]]| == csz
  }

  function Content(heap: seq<seq<byte>>, ch: seq<nat>): seq<byte>
    requires forall i :: 0 <= i < |ch| ==> ch[i] < |heap|
  {
    if ch == [] then [] else heap[ch[0]] + Content(heap, ch[1..])
  }

  lemma {:induction false} ContentLength(heap: seq<seq<byte>>, ch: seq<nat>, csz: nat)
    requires Held(heap, ch, csz)
    ensures |Content(heap, ch)| == Times(|ch|, csz)
  {
    if ch != [] {
      ContentLength(heap, ch[1..], csz);
    }
  }

  lemma {:induction false} ContentAppend(heap: seq<seq<byte>>, a: seq<nat>, b: seq<nat>)
    requires forall i :: 0 <= i < |a| ==> a[i] < |heap|
    requires forall i :: 0 <= i < |b| ==> b[i] < |heap|
    ensures Content(heap, a + b) == Content(heap, a) + Content(heap, b)
  {
    if a == [] {
      assert a + b == b;
    } else {
      assert (a + b)[1..] == a[1..] + b;
      ContentAppend(heap, a[1..], b);
    }
  }

  /** Clusters off the chain do not matter. */
  lemma {:induction false} ContentFrame(heap: seq<seq<byte>>, heap': seq<seq<byte>>, ch: seq<nat>)
    requires |heap| == |heap'|
    requires forall i :: 0 <= i < |ch| ==> ch[i] < |heap| && heap'[ch[i]] == heap[ch[i]]
    ensures Content(heap', ch) == Content(heap, ch)
  {
    if ch != [] {
      ContentFrame(heap, heap', ch[1..]);
    }
  }

  lemma {:induction false} ContentOfZeros(heap: seq<seq<byte>>, ch: seq<nat>, csz: nat)
    requires forall i :: 0 <= i < |ch| ==> ch[i] < |heap| && heap[ch[i]] == Zeros(csz)
    ensures Content(heap, ch) == Zeros(Times(|ch|, csz))
  {
    if ch != [] {
      ContentOfZeros(heap, ch[1..], csz);
    }
  }

  /** Cluster `k` of the chain holds the bytes from `k * csz` on. */
  lemma {:induction false} ClusterSlice(heap: seq<seq<byte>>, ch: seq<nat>, csz: nat, k: nat)
    requires Held(heap, ch, csz) && k < |ch|
    ensures Times(k, csz) + csz <= |Content(heap, ch)|
    ensures Content(heap, ch)[Times(k, csz)..Times(k, csz) + csz] == heap[ch[k]]
  {
    ContentLength(heap, ch, csz);
    TimesMono(k, |ch| - 1, csz);
    if k > 0 {
      ClusterSlice(heap, ch[1..], csz, k - 1);
      var rest := Content(heap, ch[1..]);
      assert Content(heap, ch)[Times(k, csz)..Times(k, csz) + csz] == rest[Times(k - 1, csz)..Times(k - 1, csz) + csz];
    }
  }

  /** Bytes `skip .. skip + n` of cluster `k`, as a slice of the whole content. */
  lemma PartSlice(heap: seq<seq<byte>>, ch: seq<nat>, csz: nat, k: nat, skip: nat, off: nat, n: nat)
    requires Held(heap, ch, csz) && k < |ch| && skip + n <= csz && off == Times(k, csz) + skip
    ensures off + n <= |Content(heap, ch)|
    ensures heap[ch[k]][skip..skip + n] == Content(heap, ch)[off..off + n]
  {
    ClusterSlice(heap, ch, csz, k);
    SliceSlice(Content(heap, ch), Times(k, csz), csz, skip, n);
  }

  /** Replacing cluster `k` replaces the bytes from `k * csz` on, and no others. */
  lemma {:induction false} ClusterUpdate(heap: seq<seq<byte>>, ch: seq<nat>, csz: nat, k: nat, x: seq<byte>)
    requires Held(heap, ch, csz) && NoDup(ch) && k < |ch| && |x| == csz
    ensures Times(k, csz) + csz <= |Content(heap, ch)|
    ensures Content(heap[ch[k] := x], ch) == Splice(Content(heap, ch), Times(k, csz), x)
  {
    ClusterSlice(heap, ch, csz, k);
    var first, rest, heap' := heap[ch[0]], ch[1..], heap[ch[k] := x];
    if k == 0 {
      ContentFrame(heap, heap', rest);
      SpliceLeft(first, Content(heap, rest), x);
    } else {
      assert rest[k - 1] == ch[k] && heap'[ch[0]] == first;
      ClusterUpdate(heap, rest, csz, k - 1, x);
      Behind(first, Content(heap, rest), Content(heap', rest), Times(k - 1, csz), Times(k, csz), x);
    }
  }

  lemma Behind(first: seq<byte>, c: seq<byte>, c': seq<byte>, at: nat, mark: nat, x: seq<byte>)
    requires at + |x| <= |c| && c' == Splice(c, at, x) && mark == |first| + at
    ensures first + c' == Splice(first + c, mark, x)
  {
    SpliceRight(first, c, at, x);
  }

  /** Changing bytes `skip .. skip + |d|` of cluster `k` changes those bytes of the content. */
  lemma PartUpdate(heap: seq<seq<byte>>, ch: seq<nat>, csz: nat, k: nat, skip: nat, off: nat, d: seq<byte>)
    requires Held(heap, ch, csz) && NoDup(ch) && k < |ch| && skip + |d| <= csz && off == Times(k, csz) + skip
    ensures off + |d| <= |Content(heap, ch)|
    ensures Content(heap[ch[k] := Splice(heap[ch[k]], skip, d)], ch) == Splice(Content(heap, ch), off, d)
  {
    ClusterSlice(heap, ch, csz, k);
    ClusterUpdate(heap, ch, csz, k, Splice(heap[ch[k]], skip, d));
    SpliceWindow(Content(heap, ch), Times(k, csz), csz, skip, d);
  }

  /** The write loop: put `data` at `skip` of cluster `k`, going on in the next cluster of the chain. */
  function Spread(heap: seq<seq<byte>>, ch: seq<nat>, csz: nat, k: nat, skip: nat, data: seq<byte>): (h: seq<seq<byte>>)
    requires Held(heap, ch, csz) && skip < csz && k <= |ch|
    requires Times(k, csz) + skip + |data| <= Times(|ch|, csz)
    ensures Held(h, ch, csz) && |h| == |heap|
    decreases |data|
  {
    if data == [] then heap else
      SpreadRoom(|ch|, csz, k, skip, |data|);
      var take := Min(|data|, csz - skip);
      var h1 := heap[ch[k] := Splice(heap[ch[k]], skip, data[..take])];
      if take == |data| then h1 else
        Spread(h1, ch, csz, k + 1, 0, data[take..])
  }

  lemma SpreadRoom(n: nat, csz: nat, k: nat, skip: nat, len: nat)
    requires 0 < len && Times(k, csz) + skip + len <= Times(n, csz) && k <= n
    ensures k < n
  {
  }

  /** The write loop changes clusters of the chain only, and keeps their size. */
  lemma {:induction false} SpreadFrame(heap: seq<seq<byte>>, ch: seq<nat>, csz: nat, k: nat, skip: nat, data: seq<byte>)
    requires Held(heap, ch, csz) && skip < csz && k <= |ch|
    requires Times(k, csz) + skip + |data| <= Times(|ch|, csz)
    ensures SameOff(heap, Spread(heap, ch, csz, k, skip, data), ch)
    decreases |data|
  {
    if data != [] {
      SpreadRoom(|ch|, csz, k, skip, |data|);
      var take := Min(|data|, csz - skip);
      if take < |data| {
        SpreadFrame(heap[ch[k] := Splice(heap[ch[k]], skip, data[..take])], ch, csz, k + 1, 0, data[take..]);
      }
    }
  }

  /** Two heaps agree off the chain, and everywhere in cluster sizes. */
  ghost predicate SameOff(heap: seq<seq<byte>>, heap': seq<seq<byte>>, ch: seq<nat>) {
    && |heap'| == |heap|
    && forall c :: 0 <= c < |heap| ==> |heap'[c]| == |heap[c]| && (c !in ch ==> heap'[c] == heap[c])
  }

  /** The write loop from byte `off` of the file is one splice of the file's content. */
  lemma {:induction false} SpreadIsSplice(heap: seq<seq<byte>>, ch: seq<nat>, csz: nat, k: nat, skip: nat, off: nat,
                                          data: seq<byte>)
    requires Held(heap, ch, csz) && NoDup(ch) && skip < csz && k <= |ch|
    requires off == Times(k, csz) + skip && off + |data| <= Times(|ch|, csz)
    ensures |Content(heap, ch)| == Times(|ch|, csz)
    ensures Content(Spread(heap, ch, csz, k, skip, data), ch) == Splice(Content(heap, ch), off, data)
    decreases |data|
  {
    ContentLength(heap, ch, csz);
    if data != [] {
      SpreadRoom(|ch|, csz, k, skip, |data|);
      var take := Min(|data|, csz - skip);
      var d, e := data[..take], data[take..];
      var h1 := heap[ch[k] := Splice(heap[ch[k]], skip, d)];
      PartUpdate(heap, ch, csz, k, skip, off, d);
      if take == |data| {
        assert d == data;
      } else {
        SpreadIsSplice(h1, ch, csz, k + 1, 0, off + take, e);
        TwoPieces(Content(heap, ch), Content(h1, ch), off, data, take);
      }
    }
  }

  lemma TwoPieces(c: seq<byte>, c1: seq<byte>, off: nat, data: seq<byte>, take: nat)
    requires take <= |data| && off + |data| <= |c| && c1 == Splice(c, off, data[..take])
    ensures Splice(c1, off + take, data[take..]) == Splice(c, off, data)
  {
    assert data[..take] + data[take..] == data;
    SpliceSplice(c, off, data[..take], data[take..]);
  }

  /** The file a caller expects after writing `data` at `off`: zero-filled up to `off` if it was shorter. */
  function Written(f: seq<byte>, off: nat, data: seq<byte>): (g: seq<byte>) {
    var n := if off + |data| > |f| then off + |data| else |f|;
    Splice(f + Zeros(n - |f|), off, data)
  }

  function NewSize(size: nat, off: nat, data: seq<byte>): nat {
    if off + |data| > size then off + |data| else size
  }

  /** The file that a write makes of the `size` bytes at the front of a chain's `content`: the chain grows by
      zeros if it is too short, `data` goes over its bytes, and the file ends behind `data` if that is later. */
  function Overlaid(content: seq<byte>, size: nat, off: nat, data: seq<byte>): (g: seq<byte>)
    requires size <= |content|
  {
    var long := content + Zeros(if off + |data| > |content| then off + |data| - |content| else 0);
    Splice(long, off, data)[..NewSize(size, off, data)]
  }

  /** Byte by byte. */
  lemma OverlaidAt(content: seq<byte>, size: nat, off: nat, data: seq<byte>)
    requires size <= |content|
    ensures var g := Overlaid(content, size, off, data);
            && |g| == NewSize(size, off, data) && g[off..off + |data|] == data
            && forall p :: 0 <= p < |g| && !(off <= p < off + |data|) ==>
                 g[p] == if p < |content| then content[p] else 0
  {
    var g := Overlaid(content, size, off, data);
    assert forall p :: off <= p < off + |data| ==> g[p] == data[p - off];
  }

  ghost predicate ZeroFrom(s: seq<byte>, n: nat) {
    forall p :: n <= p < |s| ==> s[p] == 0
  }

  /** The bytes from `lo` to `hi`, as far as there are any, are zero. */
  ghost predicate ZeroBetween(s: seq<byte>, lo: nat, hi: nat) {
    forall p :: lo <= p < hi && p < |s| ==> s[p] == 0
  }

  /** A write makes the file that the caller expects exactly when the chain's bytes between the old end of the
      file and the offset are zero. */
  lemma OverlaidIsWrittenIff(content: seq<byte>, size: nat, off: nat, data: seq<byte>)
    requires size <= |content| && data != []
    ensures Overlaid(content, size, off, data) == Written(content[..size], off, data)
            <==> ZeroBetween(content, size, off)
  {
    var o, w := Overlaid(content, size, off, data), Written(content[..size], off, data);
    assert |o| == |w| == NewSize(size, off, data);
    if o == w {
      forall p | size <= p < off && p < |content|
        ensures content[p] == 0
      {
        assert o[p] == content[p] && w[p] == 0;
      }
    }
  }

  /** Zeros behind the content make no difference. */
  lemma OverlaidGrown(content: seq<byte>, m: nat, size: nat, off: nat, data: seq<byte>)
    requires size <= |content|
    ensures Overlaid(content + Zeros(m), size, off, data) == Overlaid(content, size, off, data)
  {
  }

  /** On a chain that is long enough a write is one splice. */
  lemma SpliceIsOverlaid(content: seq<byte>, size: nat, off: nat, data: seq<byte>)
    requires size <= |content| && off + |data| <= |content|
    ensures Splice(content, off, data)[..NewSize(size, off, data)] == Overlaid(content, size, off, data)
    ensures ZeroFrom(content, size) ==> ZeroFrom(Splice(content, off, data), NewSize(size, off, data))
  {
    assert content + Zeros(0) == content;
  }
}

/** The exFAT driver (fs/exfat.c): the operations on sectors, each proved against its effect on the
    volume's FAT, clusters and file list. */
module ExFat {
  import opened Bytes
  import opened Block
  import opened FatChain
  import opened FileData
  import opened Directory
  import opened FileStore
  import opened Layout
  import opened DirBuffer

  /** An open file: what the driver keeps of the file's directory entry. */
  class Node {
    const isDir: bool
    var first: nat
    var size: nat

    constructor (d: Dirent)
      ensures isDir == d.isDir && first == d.first && size == d.size
    {
      isDir, first, size := d.isDir, d.first, d.size;
    }
  }

  class Volume {
    const dev: BlockDevice
    const l: Layout
    const root: nat
    /** The chain of each listed file. */
    ghost var chains: seq<seq<nat>>

    constructor (dev: BlockDevice, l: Layout, root: nat, ghost chains: seq<seq<nat>>)
      ensures this.dev == dev && this.l == l && this.root == root && this.chains == chains
    {
      this.dev, this.l, this.root, this.chains := dev, l, root, chains;
    }

    ghost predicate Ready() {
      && dev.Valid() && dev.Inside() && dev.sectorSize == 512 && dev.data.Length < TWO64
      && l.Ok(dev.sectorCount * 512)
    }

    ghost function View(): (v: Vol)
      requires Ready()
      reads dev.data
      ensures |v.fat| == |v.heap| == l.Entries() && Sized(v, l.csz)
    {
      VolSized(l, dev.Contents());
      VolOf(l, dev.Contents())
    }

    // ----- sectors, FAT entries, clusters -----

    method ReadSector(lba: nat) returns (sec: array<byte>)
      requires Ready() && 512 * lba + 512 <= |dev.Contents()|
      ensures fresh(sec) && sec[..] == dev.Contents()[512 * lba..512 * lba + 512]
    {
      sec := new byte[512];
      dev.ReadInside(lba, sec, 0, 1);
    }

    method WriteSector(lba: nat, sec: array<byte>)
      requires Ready() && 512 * lba + 512 <= |dev.Contents()| && sec != dev.data && sec.Length == 512
      modifies dev.data
      ensures dev.Contents() == Splice(old(dev.Contents()), 512 * lba, sec[..])
    {
      dev.WriteInside(lba, sec, 0, 1);
      assert sec[..][0..512] == sec[..];
    }

    method FatGet(cl: nat) returns (val: nat)
      requires Ready() && cl < l.Entries()
      ensures val == View().fat[cl]
    {
      FatSectorBounds(l, dev.sectorCount * 512, cl);
      var sec := ReadSector(l.fatOffset + cl * 4 / 512);
      val := U32(sec[..], cl * 4 % 512);
      FatReadSector(l, dev.Contents(), cl, sec[..]);
    }

    method FatSet(cl: nat, val: nat)
      requires Ready() && cl < l.Entries() && val < TWO32
      modifies dev.data
      ensures View() == old(View()).(fat := old(View()).fat[cl := val])
    {
      FatWriteSector(l, dev.Contents(), cl, val);
      var sector, at := l.fatOffset + cl * 4 / 512, cl * 4 % 512;
      var sec := ReadSector(sector);
      Store(sec, at, Le32(val));
      WriteSector(sector, sec);
    }

    /** Read a cluster into a new scratch buffer. */
    method ReadCluster(cl: nat) returns (buf: array<byte>)
      requires Ready() && 2 <= cl < l.Entries()
      ensures fresh(buf) && buf[..] == View().heap[cl] && buf.Length == l.csz
    {
      ClusterLbaPos(l, dev.sectorCount * 512, cl);
      var lba := l.heapOffset + (cl - 2) * l.spc;
      buf := new byte[l.csz];
      dev.ReadInside(lba, buf, 0, l.spc);
      VolAt(l, dev.Contents(), cl);
      assert buf[..] == dev.Contents()[l.ClusterPos(cl)..l.ClusterPos(cl) + l.csz];
    }

    method WriteCluster(cl: nat, buf: array<byte>)
      requires Ready() && 2 <= cl < l.Entries() && buf != dev.data && buf.Length == l.csz
      modifies dev.data
      ensures View() == old(View()).(heap := old(View()).heap[cl := buf[..]])
    {
      ClusterLbaPos(l, dev.sectorCount * 512, cl);
      ClusterWrite(l, dev.Contents(), cl, buf[..]);
      var lba := l.heapOffset + (cl - 2) * l.spc;
      dev.WriteInside(lba, buf, 0, l.spc);
      assert buf[..][0..l.csz] == buf[..];
    }

    /** Take the lowest free cluster, mark it as a chain of its own and zero it; 0 when none is free. */
    method FatAlloc() returns (cl: nat)
      requires Ready()
      modifies dev.data
      ensures (View(), cl) == Alloc(old(View()), l.csz)
    {
      var entries := l.Entries();
      cl := 2;
      while cl < entries
        invariant 2 <= cl && View() == old(View())
        invariant FirstFree(old(View()).fat, cl) == FirstFree(old(View()).fat, 2)
      {
        var v := FatGet(cl);
        if v == 0 {
          FatSet(cl, EOC);
          var zero := new byte[l.csz](_ => 0);
          assert zero[..] == Zeros(l.csz);
          WriteCluster(cl, zero);
          return;
        }
        cl := cl + 1;
      }
      return 0;
    }

    // ----- chains -----

    /** Walk the chain from `first` to its end. */
    method CountChain(first: nat, ghost ch: seq<nat>) returns (count: nat, last: nat)
      requires Ready() && IsChain(View().fat, ch) && ch[0] == first
      ensures count == |ch| && last == Last(ch)
    {
      count, last := 1, first;
      var next := FatGet(last);
      NextOnChain(View().fat, ch, 0);
      while next != EOC && next != 0
        invariant 1 <= count <= |ch| && last == ch[count - 1]
        invariant next == if count == |ch| then EOC else ch[count]
        decreases |ch| - count
      {
        last := next;
        next := FatGet(last);
        NextOnChain(View().fat, ch, count);
        count := count + 1;
      }
    }

    /** Take a free cluster and hang it after `cur`; 0 when none is free. */
    method LinkCluster(cur: nat) returns (ncl: nat)
      requires Ready() && cur < l.Entries()
      modifies dev.data
      ensures ncl == FirstFree(old(View()).fat, 2)
      ensures View() == if ncl == 0 then old(View()) else Link(old(View()), l.csz, cur)
    {
      ncl := FatAlloc();
      if ncl != 0 {
        FatSet(cur, ncl);
        FatSet(ncl, EOC);
      }
    }

    /** Append `k` clusters after `last`; the new last cluster is returned, or 0 when the volume is full. */
    method AppendClusters(last: nat, k: nat) returns (cur: nat, ghost x: Extension)
      requires Ready() && 2 <= last < l.Entries()
      modifies dev.data
      ensures x == Extend(old(View()), l.csz, last, k) && View() == x.v
      ensures cur == (if x.ok then EndOf(last, x) else 0) && (x.ok ==> cur != 0)
    {
      x := Extend(View(), l.csz, last, k);
      cur := last;
      for i := 0 to k
        invariant 2 <= cur < l.Entries()
        invariant SameEnd(last, x, cur, Extend(View(), l.csz, cur, k - i))
      {
        ExtendOnce(View(), l.csz, cur, k - i);
        var ncl := LinkCluster(cur);
        if ncl == 0 { return 0, x; }
        cur := ncl;
      }
    }

    /** Bring the chain from `first` to `needed` clusters, starting one if there is none; the last
        cluster is returned, or 0 when the volume is full. */
    method EnsureChainLength(first: nat, needed: nat, ghost ch: seq<nat>)
      returns (first': nat, last: nat, ghost x: Extension)
      requires Ready() && (first < 2 || (IsChain(View().fat, ch) && ch[0] == first))
      modifies dev.data
      ensures (first', x) == Ensured(old(View()), l.csz, first, ch, needed) && View() == x.v
      ensures last != 0 <==> x.ok
    {
      first' := first;
      ghost var chain := ch;
      if first < 2 {
        var cl := FatAlloc();
        if cl == 0 { return first, 0, Extension(View(), [], false); }
        first', chain := cl, [cl];
      }
      var count, end := CountChain(first', chain);
      last, x := AppendClusters(end, if needed > count then needed - count else 0);
      assert x.ok ==> last != 0;
    }

    /** Follow the chain from `first` for `k` steps, inside the chain: the early exit of `read` cannot happen. */
    method Seek(first: nat, k: nat, ghost ch: seq<nat>) returns (cl: nat)
      requires Ready() && IsChain(View().fat, ch) && ch[0] == first && k < |ch|
      ensures cl == ch[k]
    {
      cl := first;
      for i := 0 to k
        invariant cl == ch[i]
      {
        var next := FatGet(cl);
        NextOnChain(View().fat, ch, i);
        if next == EOC || next == 0 { assert false; } else { cl := next; }
      }
    }

    /** The search of `write` for its first cluster: at the end of the chain it appends a cluster and goes on,
        and it gives up when none is free. */
    method SeekGrow(first: nat, k: nat, ghost ch: seq<nat>) returns (ok: bool, cl: nat, ghost x: Extension)
      requires Ready() && IsChain(View().fat, ch) && ch[0] == first
      modifies dev.data
      ensures k < |ch| ==> ok && cl == ch[k] && View() == old(View())
      ensures k >= |ch| ==> x == Extend(old(View()), l.csz, Last(ch), k + 1 - |ch|) && View() == x.v && ok == x.ok
    {
      ghost var v0 := View();
      x := Extend(v0, l.csz, Last(ch), if k >= |ch| then k + 1 - |ch| else 0);
      cl := first;
      for i := 0 to k
        invariant Sought(v0, View(), l.csz, ch, k, i, cl, x)
      {
        if i < |ch| - 1 { WalkOn(v0, l.csz, ch, k, i, x); }
        var next := FatGet(cl);
        if next == EOC || next == 0 {
          var ncl := AppendOne(cl, v0, ch, k, i, x);
          if ncl == 0 { return false, cl, x; }
          cl := ncl;
        } else {
          cl := next;
        }
      }
      ok := true;
    }

    /** One step of the search behind the end of the chain; 0 when no cluster is free. */
    method AppendOne(cl: nat, ghost v0: Vol, ghost ch: seq<nat>, ghost k: nat, ghost i: nat, ghost x: Extension)
      returns (ncl: nat)
      requires Ready() && Sought(v0, View(), l.csz, ch, k, i, cl, x) && |ch| - 1 <= i < k
      modifies dev.data
      ensures ncl == 0 ==> View() == x.v && !x.ok
      ensures ncl != 0 ==> Sought(v0, View(), l.csz, ch, k, i + 1, ncl, x)
    {
      ExtendOnce(View(), l.csz, cl, k - i);
      ncl := LinkCluster(cl);
      assert k - i - 1 == k - (i + 1);
    }

    // ----- file data -----

    /** Copy `n` bytes from byte `skip` of cluster `cl` to `buf` at `at`. */
    method ReadPart(cl: nat, skip: nat, buf: array<byte>, at: nat, n: nat)
      requires Ready() && 2 <= cl < l.Entries() && buf != dev.data
      requires skip + n <= l.csz && at + n <= buf.Length
      modifies buf
      ensures buf[..] == Splice(old(buf[..]), at, View().heap[cl][skip..skip + n])
    {
      var tmp := ReadCluster(cl);
      ghost var was, got := buf[..], tmp[..];
      SpliceEmpty(was, at, got, skip);
      for i := 0 to n
        invariant tmp[..] == got && buf[..] == Splice(was, at, got[skip..skip + i])
      {
        SpliceStep(was, at, got, skip, skip + i);
        buf[at + i] := tmp[skip + i];
      }
    }

    /** `ReadPart` in terms of the file: bytes `pos .. pos + n` lie in its cluster `i`. */
    method ReadPiece(cl: nat, at: nat, buf: array<byte>, done: nat, n: nat, ghost ch: seq<nat>, ghost i: nat,
                     ghost pos: nat)
      requires Ready() && IsChain(View().fat, ch) && i < |ch| && cl == ch[i] && buf != dev.data
      requires at + n <= l.csz && done + n <= buf.Length && pos == Times(i, l.csz) + at
      modifies buf
      ensures pos + n <= |Content(View().heap, ch)|
      ensures buf[..] == Splice(old(buf[..]), done, Content(View().heap, ch)[pos..pos + n])
    {
      ChainHeld(ch);
      PartSlice(View().heap, ch, l.csz, i, at, pos, n);
      ReadPart(cl, at, buf, done, n);
    }

    /** Read `len` bytes along the chain, from byte `pos` of the file, which is byte `skip` of cluster `k`. */
    method ReadAlong(start: nat, ghost k: nat, skip: nat, ghost pos: nat, buf: array<byte>, len: nat,
                     ghost ch: seq<nat>)
      requires Ready() && IsChain(View().fat, ch) && k < |ch| && start == ch[k] && buf != dev.data
      requires 0 < len <= buf.Length && skip < l.csz && pos == Times(k, l.csz) + skip
      requires pos + len <= |Content(View().heap, ch)|
      modifies buf
      ensures buf[..] == Splice(old(buf[..]), 0, Content(View().heap, ch)[pos..pos + len])
    {
      ghost var all, was := Content(View().heap, ch), buf[..];
      ghost var i: nat := k;
      var cl: nat, at: nat, done: nat := start, skip, 0;
      SpliceEmpty(was, 0, all, pos);
      while true
        invariant done < len && i < |ch| && cl == ch[i] && at < l.csz && Times(i, l.csz) + at == pos + done
        invariant buf[..] == Splice(was, 0, all[pos..pos + done])
        decreases len - done
      {
        var take := ReadTurn(cl, at, buf, done, len, ch, i, pos, was);
        done := done + take;
        if done >= len { break; }
        MoreClusters(ch, i, at, pos + done);
        NextOnChain(View().fat, ch, i);
        cl := FatGet(cl);
        at, i := 0, i + 1;
      }
    }

    /** One turn of the reading loop. */
    method ReadTurn(cl: nat, at: nat, buf: array<byte>, done: nat, len: nat, ghost ch: seq<nat>, ghost i: nat,
                    ghost pos: nat, ghost was: seq<byte>) returns (take: nat)
      requires Ready() && IsChain(View().fat, ch) && i < |ch| && cl == ch[i] && buf != dev.data
      requires done < len <= buf.Length == |was| && at < l.csz && pos + done == Times(i, l.csz) + at
      requires pos + len <= |Content(View().heap, ch)|
      requires buf[..] == Splice(was, 0, Content(View().heap, ch)[pos..pos + done])
      modifies buf
      ensures take == Min(len - done, l.csz - at)
      ensures buf[..] == Splice(was, 0, Content(View().heap, ch)[pos..pos + done + take])
    {
      take := Min(len - done, l.csz - at);
      ghost var cur := buf[..];
      ReadPiece(cl, at, buf, done, take, ch, i, pos + done);
      SpliceChunk(was, cur, buf[..], 0, Content(View().heap, ch), pos, pos + done, pos + done + take, done);
    }

    /** Behind cluster `i` the chain goes on if the file has more bytes. */
    lemma MoreClusters(ch: seq<nat>, i: nat, at: nat, pos: nat)
      requires Ready() && IsChain(View().fat, ch) && at < l.csz && i < |ch|
      requires pos < |Content(View().heap, ch)| && pos == Times(i, l.csz) + at + (l.csz - at)
      ensures i + 1 < |ch| && pos == Times(i + 1, l.csz)
    {
      ChainHeld(ch);
      ContentLength(View().heap, ch, l.csz);
      TimesLess(|ch|, i + 1, l.csz);
    }

    lemma ChainHeld(ch: seq<nat>)
      requires Ready() && IsChain(View().fat, ch)
      ensures Held(View().heap, ch, l.csz)
    {
    }

    /** Put bytes `at .. at + n` of `src` at `skip` of cluster `cl`. */
    method WritePart(cl: nat, skip: nat, src: array<byte>, at: nat, n: nat)
      requires Ready() && 2 <= cl < l.Entries() && src != dev.data
      requires skip + n <= l.csz && at + n <= src.Length
      modifies dev.data
      ensures View().fat == old(View()).fat
      ensures View().heap == old(View()).heap[cl := Splice(old(View()).heap[cl], skip, src[at..at + n])]
    {
      var tmp := ReadCluster(cl);
      ghost var was, data := tmp[..], src[..];
      SpliceEmpty(was, skip, data, at);
      for i := 0 to n
        modifies tmp
        invariant tmp[..] == Splice(was, skip, data[at..at + i])
      {
        SpliceStep(was, skip, data, at, at + i);
        tmp[skip + i] := src[at + i];
      }
      assert src[at..at + n] == data[at..at + n];
      WriteCluster(cl, tmp);
    }

    /** The room that writing along a chain needs. */
    ghost predicate Room(ch: seq<nat>, i: nat, at: nat, n: nat)
      requires Ready()
      reads dev.data
    {
      && IsChain(View().fat, ch) && Held(View().heap, ch, l.csz)
      && i <= |ch| && at < l.csz && Times(i, l.csz) + at + n <= Times(|ch|, l.csz)
    }

    /** Writing `rest` from byte `at` of the chain's cluster `i` on would make the clusters `goal`. */
    ghost predicate LeftToWrite(ch: seq<nat>, i: nat, at: nat, rest: seq<byte>, goal: seq<seq<byte>>)
      requires Ready()
      reads dev.data
    {
      Room(ch, i, at, |rest|) && i < |ch| && Spread(View().heap, ch, l.csz, i, at, rest) == goal
    }

    /** One turn of the write loop: fill up cluster `cl` and find the next one if bytes are left. */
    method WriteTurn(cl: nat, at: nat, src: array<byte>, done: nat, len: nat,
                     ghost ch: seq<nat>, ghost i: nat, ghost goal: seq<seq<byte>>)
      returns (take: nat, next: nat)
      requires src != dev.data && done < len <= src.Length
      requires Ready() && LeftToWrite(ch, i, at, src[done..len], goal) && cl == ch[i]
      modifies dev.data
      ensures View().fat == old(View()).fat && 0 < take <= len - done
      ensures done + take == len ==> View().heap == goal
      ensures done + take < len ==> LeftToWrite(ch, i + 1, 0, src[done + take..len], goal) && next == ch[i + 1]
    {
      ghost var rest, h := src[done..len], View().heap;
      take, next := Min(len - done, l.csz - at), 0;
      SpreadStep(h, ch, l.csz, i, at, rest, take);
      assert rest[..take] == src[done..done + take] && rest[take..] == src[done + take..len];
      WritePart(cl, at, src, done, take);
      if done + take < len { next := NextCluster(cl, ch, i); }
    }

    /** The cluster after a cluster that is not the chain's last: the extra allocation of `write` cannot happen. */
    method NextCluster(cl: nat, ghost ch: seq<nat>, ghost i: nat) returns (next: nat)
      requires Ready() && IsChain(View().fat, ch) && i + 1 < |ch| && cl == ch[i]
      ensures next == ch[i + 1]
    {
      NextOnChain(View().fat, ch, i);
      next := FatGet(cl);
      if next == EOC || next == 0 { assert false; }
    }

    /** Write `len` bytes along the chain, from byte `skip` of its cluster `k`. */
    method WriteAlong(start: nat, skip: nat, src: array<byte>, len: nat,
                      ghost ch: seq<nat>, ghost k: nat, ghost goal: seq<seq<byte>>)
      requires src != dev.data && 0 < len <= src.Length
      requires Ready() && LeftToWrite(ch, k, skip, src[0..len], goal) && start == ch[k]
      modifies dev.data
      ensures View() == Vol(old(View()).fat, goal)
    {
      ghost var i: nat := k;
      var cl: nat, at: nat, done: nat := start, skip, 0;
      while true
        invariant done < len && View().fat == old(View()).fat
        invariant LeftToWrite(ch, i, at, src[done..len], goal) && cl == ch[i]
        decreases len - done
      {
        var take, next := WriteTurn(cl, at, src, done, len, ch, i, goal);
        done := done + take;
        if done >= len { break; }
        cl, at, i := next, 0, i + 1;
      }
    }

    // ----- files -----

    ghost function G(): Geo {
      Geo(l.csz, root)
    }

    ghost function State(): FS
      requires Ready()
      reads this, dev.data
    {
      FS(View(), chains)
    }

    ghost predicate Valid()
      reads this, dev.data
    {
      Ready() && Good(G(), State())
    }

    /** `node` is an up-to-date handle of the `k`-th listed file. */
    ghost predicate Handle(node: Node, k: nat)
      requires Valid()
      reads this, dev.data, node
    {
      && k < |chains|
      && var r := Listing(G(), View())[k];
         node.first == r.first && node.size == r.size && node.isDir == r.isDir
    }

    /** The directory bit in the root directory entry of the `k`-th listed file. */
    ghost predicate IsDirectory(k: nat)
      requires Valid() && k < |chains|
      reads this, dev.data
    {
      var es, r := Cut(View().heap[root]), Listing(G(), View())[k];
      r.slot < |es| && DirBit(es[r.slot])
    }

    lemma HandleDirectory(node: Node, k: nat)
      requires Valid() && Handle(node, k)
      ensures node.isDir <==> IsDirectory(k)
    {
      ListedFields(Cut(View().heap[root]), k);
    }

    /** The file's own clusters, found from the handle. */
    lemma HandleChain(node: Node, k: nat)
      requires Valid() && Handle(node, k)
      ensures IsChain(View().fat, chains[k]) && chains[k][0] == node.first
      ensures node.size <= |Content(View().heap, chains[k])|
      ensures Files(G(), State())[k].data == Content(View().heap, chains[k])[..node.size]
    {
      assert FileOk(G(), View(), Listing(G(), View())[k], chains[k]);
    }

    /** Open a file by its path, or the root directory; only the first 32 files can be found. */
    method Open(path: seq<byte>) returns (node: Node?, ghost k: nat)
      requires Valid()
      ensures path == [] || path == [47] ==>
                node != null && fresh(node) && node.isDir && node.first == root && node.size == 0
      ensures forall name :: Names(path, name) && name != [] ==>
                               && Found(name, node, k)
                               && (node != null ==> fresh(node) && (node.isDir <==> IsDirectory(k)))
    {
      var name := Strip(path);
      NamesIff(path);
      if name == [] {
        k := 0;
        node := new Node(Dirent(root, 0, true, []));
        return;
      }
      node, k := OpenNamed(name);
      if node != null { HandleDirectory(node, k); }
    }

    /** `node` is a handle of the first file called `name` among the first 32, or null if there is none. */
    ghost predicate Found(name: seq<byte>, node: Node?, k: nat)
      requires Valid()
      reads this, dev.data, if node == null then {} else {node}
    {
      var recs := Listing(G(), View());
      if node == null then forall i :: 0 <= i < Min(32, |recs|) ==> recs[i].name != name
      else Handle(node, k) && k < 32 && recs[k].name == name && forall i :: 0 <= i < k ==> recs[i].name != name
    }

    method OpenNamed(name: seq<byte>) returns (node: Node?, ghost k: nat)
      requires Valid()
      ensures Found(name, node, k) && (node != null ==> fresh(node))
    {
      var dir := ReadCluster(root);
      var ents := Scan(dir, 32);
      ghost var recs := Listing(G(), View());
      node, k := null, 0;
      ListedAtIndex(recs, 32, 0);
      for i := 0 to |ents|
        invariant forall j :: 0 <= j < i ==> recs[j].name != name
      {
        ListedAtIndex(recs, 32, i);
        if ents[i].name == name {
          k := i;
          node := new Node(ents[i]);
          assert Handle(node, k);
          return;
        }
      }
    }

    /** Read up to `len` bytes from byte `off` of the file. */
    method Read(node: Node, off: nat, buf: array<byte>, len: nat, ghost k: nat) returns (rc: int)
      requires Valid() && Handle(node, k) && buf != dev.data
      requires |Slice(Files(G(), State())[k].data, off, len)| <= buf.Length
      modifies buf
      ensures IsDirectory(k) ==> rc == -1 && buf[..] == old(buf[..])
      ensures !IsDirectory(k) ==>
                var got := Slice(Files(G(), State())[k].data, off, len);
                rc == Int32(|got|) && |got| <= buf.Length && buf[..] == Splice(old(buf[..]), 0, got)
    {
      HandleDirectory(node, k);
      if node.isDir { return -1; }
      HandleChain(node, k);
      rc := ReadFile(node.first, node.size, off, buf, len, chains[k]);
    }

    /** The body of `Read`, for a file of `size` bytes on chain `ch`. */
    method ReadFile(first: nat, size: nat, off: nat, buf: array<byte>, len: nat, ghost ch: seq<nat>) returns (rc: int)
      requires Ready() && IsChain(View().fat, ch) && ch[0] == first && buf != dev.data
      requires size <= |Content(View().heap, ch)| && |Slice(Content(View().heap, ch)[..size], off, len)| <= buf.Length
      modifies buf
      ensures var got := Slice(Content(View().heap, ch)[..size], off, len);
              rc == Int32(|got|) && |got| <= buf.Length && buf[..] == Splice(old(buf[..]), 0, got)
    {
      if off >= size { return 0; }
      var n := Min(len, size - off);
      SliceIs(Content(View().heap, ch), size, off, len, n);
      if n > 0 { ReadFrom(first, off, buf, n, ch); }
      return Int32(n);
    }

    /** Find the cluster that holds byte `off`, and read along the chain from there. */
    method ReadFrom(first: nat, off: nat, buf: array<byte>, n: nat, ghost ch: seq<nat>)
      requires Ready() && IsChain(View().fat, ch) && ch[0] == first && buf != dev.data
      requires 0 < n <= buf.Length && off + n <= |Content(View().heap, ch)|
      modifies buf
      ensures buf[..] == Splice(old(buf[..]), 0, Content(View().heap, ch)[off..off + n])
    {
      ChainHeld(ch);
      ContentLength(View().heap, ch, l.csz);
      var q, skip := Locate(off, l.csz);
      TimesLess(|ch|, q, l.csz);
      var cl := Seek(first, q, ch);
      ReadAlong(cl, q, skip, off, buf, n, ch);
    }

    /** Rewrite the size in the root directory entry of the `k`-th file, found by its first cluster. */
    method UpdateStream(first: nat, newFirst: nat, size: nat, ghost k: nat, ghost slot: nat) returns (rc: int)
      requires Ready() && 2 <= root < l.Entries()
      requires k == FindCluster(Recs(Cut(View().heap[root]), 0), first, 0)
      requires k < |Recs(Cut(View().heap[root]), 0)| ==> slot == Recs(Cut(View().heap[root]), 0)[k].slot
      modifies dev.data
      ensures k < |Recs(Cut(old(View()).heap[root]), 0)| ==>
                && rc == 0 && slot + 1 < |Cut(old(View()).heap[root])|
                && OnlyDir(root, old(View()), View())
                && Cut(View().heap[root]) == SetStream(Cut(old(View()).heap[root]), slot, first, newFirst, size)
      ensures k == |Recs(Cut(old(View()).heap[root]), 0)| ==> rc == -1 && View() == old(View())
    {
      var dir := ReadCluster(root);
      var found, s := FindStream(dir, first);
      if !found { return -1; }
      StreamAt(Es(dir), first, k);
      PutStream(dir, s, first, newFirst, size);
      WriteCluster(root, dir);
      return 0;
    }

    /** Bring the file's chain to `needed` clusters. */
    method GrowFile(node: Node, needed: nat, ghost k: nat) returns (ok: bool)
      requires Valid() && Handle(node, k)
      modifies dev.data, node, `chains
      ensures Ready() && State() == GrownFS(G(), old(State()), k, needed) && ok == Grow(G(), old(State()), k, needed).ok
      ensures node.first == old(node.first) && node.size == old(node.size)
    {
      HandleChain(node, k);
      ghost var x;
      var first, last;
      first, last, x := EnsureChainLength(node.first, needed, chains[k]);
      node.first := first;
      chains := chains[k := chains[k] + x.added];
      ok := last != 0;
    }

    /** Write the bytes along the file's chain, from cluster `cl` on. */
    method PutBytes(cl: nat, skip: nat, off: nat, src: array<byte>, len: nat,
                    ghost data: seq<byte>, ghost k: nat, ghost r: Rec, ghost ch: seq<nat>)
      requires src != dev.data && len <= src.Length && data == src[..len]
      requires Ready() && IsChain(View().fat, ch)
      requires ClusterNo(off, l.csz) < |ch| && cl == ch[ClusterNo(off, l.csz)] && skip == InCluster(off, l.csz)
      requires Fits(G(), View(), k, r, ch, off, ClusterNo(off, l.csz), InCluster(off, l.csz), data)
      modifies dev.data
      ensures View().fat == old(View()).fat
      ensures View().heap == Spread(old(View()).heap, ch, l.csz, ClusterNo(off, l.csz), InCluster(off, l.csz), data)
      ensures View().heap[root] == old(View()).heap[root]
    {
      ghost var q := ClusterNo(off, l.csz);
      SpreadFrame(View().heap, ch, l.csz, q, skip, data);
      SpreadRoom(|ch|, l.csz, q, skip, len);
      assert src[0..len] == data;
      WriteAlong(cl, skip, src, len, ch, q, Spread(View().heap, ch, l.csz, q, skip, data));
    }

    /** Write the bytes and the file's new size. */
    method PutData(node: Node, cl: nat, skip: nat, off: nat, src: array<byte>, len: nat,
                   ghost data: seq<byte>, ghost k: nat, ghost r: Rec, ghost ch: seq<nat>)
      requires src != dev.data && len <= src.Length && data == src[..len]
      requires Ready() && IsChain(View().fat, ch) && ch[0] == node.first
      requires ClusterNo(off, l.csz) < |ch| && cl == ch[ClusterNo(off, l.csz)] && skip == InCluster(off, l.csz)
      requires Fits(G(), View(), k, r, ch, off, ClusterNo(off, l.csz), InCluster(off, l.csz), data)
      requires node.size == r.size && k < |Listing(G(), View())| && r == Listing(G(), View())[k]
      requires k == FindCluster(Listing(G(), View()), node.first, 0)
      modifies dev.data, node
      ensures View() == Put(G(), old(View()), k, r, ch, off, ClusterNo(off, l.csz), InCluster(off, l.csz), data)
      ensures node.first == old(node.first) && node.size == NewSize(r.size, off, data)
    {
      ghost var v := View();
      PutBytes(cl, skip, off, src, len, data, k, r, ch);
      if off + len > node.size { node.size := off + len; }
      ghost var h, size := View().heap, NewSize(r.size, off, data);
      assert node.size == size && View() == Vol(v.fat, h);
      var rc := UpdateStream(node.first, node.first, node.size, k, r.slot);
      PutInSteps(G(), v, k, r, ch, off, ClusterNo(off, l.csz), InCluster(off, l.csz), data, h, View());
    }

    /** The body of `Write`, for a file and a non-empty buffer. */
    method WriteSome(node: Node, off: nat, src: array<byte>, len: nat, ghost data: seq<byte>, ghost k: nat)
      returns (rc: int)
      requires Valid() && Handle(node, k) && src != dev.data && 0 < len <= src.Length && data == src[..len]
      requires off < TWO64 && len < TWO63
      modifies dev.data, node, `chains
      ensures (State(), rc) == FileStore.Write(G(), old(State()), k, off, data)
      ensures node.first == old(node.first)
      ensures node.size == if rc > 0 then NewSize(old(node.size), off, data) else old(node.size)
    {
      ghost var was := State();
      var needed := Needed(off, len, l.csz);
      var ok := GrowFile(node, needed, k);
      if !ok {
        NotEnsured(G(), was, k, off, data);
        return -1;
      }
      rc := WriteEnsured(node, off, src, len, data, k, was);
    }

    /** The rest of it, once the chain has been ensured. */
    method WriteEnsured(node: Node, off: nat, src: array<byte>, len: nat,
                        ghost data: seq<byte>, ghost k: nat, ghost was: FS) returns (rc: int)
      requires Ready() && Good(G(), was) && k < |was.chains| && src != dev.data && 0 < len <= src.Length
               && data == src[..len]
      requires off < TWO64 && len < TWO63 && Reaches(G(), was, k, off, data)
               && State() == EnsuredFS(G(), was, k, off, data)
      requires node.first == Listing(G(), was.v)[k].first && node.size == Listing(G(), was.v)[k].size
      modifies dev.data, node, `chains
      ensures (State(), rc) == FileStore.Write(G(), was, k, off, data)
      ensures node.first == old(node.first)
      ensures node.size == if rc > 0 then NewSize(old(node.size), off, data) else old(node.size)
    {
      ghost var fs1 := State();
      EnsuredHandle(G(), was, k, off, data, fs1);
      var q, skip := Locate(off, l.csz);
      ghost var x;
      var found, cl;
      found, cl, x := SeekGrow(node.first, q, fs1.chains[k]);
      if !found {
        WrappedEnd(G(), was, k, off, data, fs1, x);
        chains := chains[k := chains[k] + x.added];
        return -1;
      }
      NotWrapped(G(), was, k, off, data, fs1, x);
      ghost var r := Listing(G(), was.v)[k];
      GrownHandle(G(), was, k, off, data, fs1);
      PutData(node, cl, skip, off, src, len, data, k, r, fs1.chains[k]);
      WriteInSteps(G(), was, k, off, data, fs1, State());
      return len;
    }

    /** Write `len` bytes at byte `off` of the file: the length, or -1 when the volume is too full. */
    method Write(node: Node, off: nat, src: array<byte>, len: nat, ghost k: nat) returns (rc: int)
      requires Valid() && Handle(node, k) && src != dev.data && len <= src.Length
      requires off < TWO64 && len < TWO63
      modifies dev.data, node, `chains
      ensures old(IsDirectory(k)) ==> rc == -1 && State() == old(State())
      ensures !old(IsDirectory(k)) ==>
                var (fs', n) := FileStore.Write(G(), old(State()), k, off, old(src[..len]));
                State() == fs' && rc == Int32(n)
      ensures Valid() && Handle(node, k)
    {
      HandleDirectory(node, k);
      if node.isDir { return -1; }
      if len == 0 { return 0; }
      ghost var data := src[..len];
      WriteSplices(G(), State(), k, off, data);
      WriteKeepsEntry(G(), State(), k, off, data);
      var n := WriteSome(node, off, src, len, data, k);
      rc := Int32(n);
    }

    /** Create an empty file: -1 for an empty name, a full directory or a full volume. */
    method Create(path: seq<byte>) returns (rc: int)
      requires Valid() && NonZero(path)
      modifies dev.data, `chains
      ensures Valid()
      ensures forall name :: Names(path, name) ==> (State(), rc) == FileStore.Create(G(), old(State()), name)
    {
      var name := Strip(path);
      NamesIff(path);
      CreateAppends(G(), State(), name);
      if name == [] { return -1; }
      rc := CreateNamed(name);
    }

    method CreateNamed(name: seq<byte>) returns (rc: int)
      requires Ready() && GoodGeo(G(), View()) && name != []
      modifies dev.data, `chains
      ensures (State(), rc) == FileStore.Create(G(), old(State()), name)
    {
      ghost var was := State();
      var dir := ReadCluster(root);
      var d := FindEnd(dir);
      var n := CountNameEntries(name);
      NameEntryCount(name);
      if 32 * (d + 2 + n) > l.csz { return -1; }
      var cl := FatAlloc();
      if cl == 0 { return -1; }
      PutFile(dir, d, name, cl);
      WriteCluster(root, dir);
      CreateInSteps(G(), was, name, View());
      chains := chains + [[cl]];
      return 0;
    }

    /** Give back the clusters of a chain, one after the other. */
    method FreeChain(first: nat, ghost ch: seq<nat>)
      requires Ready() && IsChain(View().fat, ch) && ch[0] == first
      modifies dev.data
      ensures View() == Vol(Release(old(View()).fat, ch), old(View()).heap)
    {
      ghost var v := View();
      ghost var i: nat := 0;
      ChainIsAcyclic(v.fat, ch);
      assert ch[0..] == ch;
      var cl := first;
      while cl >= 2
        invariant i < |ch| && cl == ch[i] && View().heap == v.heap
        invariant forall j :: i <= j < |ch| ==> View().fat[ch[j]] == v.fat[ch[j]]
        invariant Release(View().fat, ch[i..]) == Release(v.fat, ch)
        decreases |ch| - i
      {
        var next := FatGet(cl);
        NextOnChain(v.fat, ch, i);
        ReleaseOne(View().fat, ch, i);
        FatSet(cl, 0);
        if next == 0 || next == EOC { break; }
        cl, i := next, i + 1;
      }
    }

    /** Remove a file: -1 when there is none of that name. */
    method Unlink(path: seq<byte>) returns (rc: int)
      requires Valid()
      modifies dev.data, `chains
      ensures Valid()
      ensures forall name :: Names(path, name) ==> (State(), rc) == FileStore.Unlink(G(), old(State()), name)
    {
      var name := Strip(path);
      NamesIff(path);
      UnlinkCutsOff(G(), State(), name);
      if name == [] { return -1; }
      rc := UnlinkNamed(name);
    }

    method UnlinkNamed(name: seq<byte>) returns (rc: int)
      requires Valid() && name != []
      modifies dev.data, `chains
      ensures (State(), rc) == FileStore.Unlink(G(), old(State()), name)
    {
      ghost var was := State();
      var dir := ReadCluster(root);
      var found, s, first, end := FindFile(dir, name);
      if !found { return -1; }
      ghost var k := Find(Listing(G(), was.v), name, 0);
      UnlinkFits(G(), was, k);
      assert FileOk(G(), was.v, Listing(G(), was.v)[k], chains[k]);
      FreeChain(first, chains[k]);
      Erase(dir, s, end);
      WriteCluster(root, dir);
      UnlinkInSteps(G(), was, name, k, View());
      chains := chains[..k];
      return 0;
    }
  }

  /** A path without its leading slash. */
  function Strip(path: seq<byte>): seq<byte> {
    if path != [] && path[0] == 47 then path[1..] else path
  }

  /** `path` is `name` behind a slash, or `name` itself if that begins with none. */
  ghost predicate Names(path: seq<byte>, name: seq<byte>) {
    path == [47] + name || (path == name && (name == [] || name[0] != 47))
  }

  /** Every path names exactly one file, with a slash or without. */
  lemma NamesIff(path: seq<byte>)
    ensures forall name :: Names(path, name) <==> name == Strip(path)
    ensures Strip([47] + path) == path && (path == [] || path[0] != 47 ==> Strip(path) == path)
  {
    if path != [] && path[0] == 47 { assert path == [47] + path[1..]; }
    assert ([47] + path)[1..] == path;
    forall name
      ensures Names(path, name) <==> name == Strip(path)
    {
      if path == [47] + name { assert path[1..] == name; }
    }
  }

  lemma CreateInSteps(g: Geo, fs: FS, name: seq<byte>, v': Vol)
    requires GoodGeo(g, fs.v) && name != [] && CreateRoom(Cut(fs.v.heap[g.root]), name) && FirstFree(fs.v.fat, 2) != 0
    requires OnlyDir(g.root, Alloc(fs.v, g.csz).0, v') && |v'.heap[g.root]| == g.csz
    requires var es, cl := Cut(fs.v.heap[g.root]), FirstFree(fs.v.fat, 2);
             && EndSlot(es, 0) + |FileSet(name, cl)| <= |es|
             && Cut(v'.heap[g.root]) == AddAt(es, EndSlot(es, 0), FileSet(name, cl))
    ensures (FS(v', fs.chains + [[FirstFree(fs.v.fat, 2)]]), 0) == FileStore.Create(g, fs, name)
  {
    NameEntryCount(name);
    PasteCut(v'.heap[g.root]);
  }

  lemma UnlinkInSteps(g: Geo, fs: FS, name: seq<byte>, k: nat, v': Vol)
    requires Good(g, fs) && name != [] && k == Find(Listing(g, fs.v), name, 0) && k < |fs.chains|
    requires IsChain(fs.v.fat, fs.chains[k]) && HasStream(Cut(fs.v.heap[g.root]), Listing(g, fs.v)[k].slot)
    requires OnlyDir(g.root, Vol(Release(fs.v.fat, fs.chains[k]), fs.v.heap), v') && |v'.heap[g.root]| == g.csz
    requires Cut(v'.heap[g.root]) == EraseAt(Cut(fs.v.heap[g.root]), Listing(g, fs.v)[k].slot)
    ensures (FS(v', fs.chains[..k]), 0) == FileStore.Unlink(g, fs, name)
  {
    PasteCut(v'.heap[g.root]);
  }

  lemma StreamAt(es: seq<Entry>, first: nat, k: nat)
    requires k == FindCluster(Recs(es, 0), first, 0) && k < |Recs(es, 0)|
    ensures var s := Recs(es, 0)[k].slot; HasStream(es, s) && U32(es[s + 1], 20) == first
  {
    RecsAreListed(es, 0, k);
  }

  lemma ReleaseOne(fat: seq<nat>, ch: seq<nat>, i: nat)
    requires i < |ch| && forall j :: 0 <= j < |ch| ==> ch[j] < |fat|
    ensures Release(fat, ch[i..]) == Release(fat[ch[i] := 0], ch[i + 1..])
  {
    assert ch[i..][1..] == ch[i + 1..];
  }

  lemma SliceIs(content: seq<byte>, size: nat, off: nat, len: nat, n: nat)
    requires off < size <= |content| && n == Min(len, size - off)
    ensures Slice(content[..size], off, len) == content[off..off + n]
  {
  }

  /** The first cluster and the extension that bringing a chain to `needed` clusters gives. */
  ghost function Ensured(v: Vol, csz: nat, first: nat, ch: seq<nat>, needed: nat): (nat, Extension)
    requires |v.heap| == |v.fat| && (first < 2 || IsChain(v.fat, ch))
  {
    if first >= 2 then (first, Extend(v, csz, Last(ch), if needed > |ch| then needed - |ch| else 0))
    else
      var (v1, cl) := Alloc(v, csz);
      if cl == 0 then (first, Extension(v, [], false))
      else (cl, Extend(v1, csz, cl, if needed > 1 then needed - 1 else 0))
  }

  ghost predicate SameEnd(last: nat, x: Extension, cur: nat, y: Extension) {
    x.v == y.v && x.ok == y.ok && EndOf(last, x) == EndOf(cur, y)
  }

  /** Where the search is after `i` of `k` steps: on the chain, or behind it with the rest of `x` to append. */
  ghost predicate Sought(v0: Vol, v: Vol, csz: nat, ch: seq<nat>, k: nat, i: nat, cl: nat, x: Extension) {
    && 0 < |ch| && |v.heap| == |v.fat| && 2 <= cl < |v.fat| && i <= k
    && if i < |ch| - 1 then cl == ch[i] && v == v0
       else v.fat[cl] == EOC && SameEnd(Last(ch), x, cl, Extend(v, csz, cl, k - i))
  }

  lemma WalkOn(v0: Vol, csz: nat, ch: seq<nat>, k: nat, i: nat, x: Extension)
    requires |v0.heap| == |v0.fat| < EOC && IsChain(v0.fat, ch) && i < |ch| - 1 && i < k
    requires x == Extend(v0, csz, Last(ch), if k >= |ch| then k + 1 - |ch| else 0)
    ensures v0.fat[ch[i]] == ch[i + 1] && 2 <= ch[i + 1] < EOC && Sought(v0, v0, csz, ch, k, i + 1, ch[i + 1], x)
  {
    NextOnChain(v0.fat, ch, i);
    NextOnChain(v0.fat, ch, |ch| - 1);
  }

  lemma ExtendOnce(v: Vol, csz: nat, cur: nat, k: nat)
    requires |v.heap| == |v.fat| && cur < |v.fat| && 0 < k
    ensures var cl, x := FirstFree(v.fat, 2), Extend(v, csz, cur, k);
            if cl == 0 then x == Extension(v, [], false)
            else SameEnd(cur, x, cl, Extend(Link(v, csz, cur), csz, cl, k - 1))
  {
  }

  /** One turn of the write loop. */
  lemma SpreadStep(h: seq<seq<byte>>, ch: seq<nat>, csz: nat, i: nat, at: nat, rest: seq<byte>, take: nat)
    requires Held(h, ch, csz) && at < csz && i < |ch| && 0 < |rest|
    requires Times(i, csz) + at + |rest| <= Times(|ch|, csz) && take == Min(|rest|, csz - at)
    ensures var h1 := h[ch[i] := Splice(h[ch[i]], at, rest[..take])];
            && Held(h1, ch, csz)
            && (take == |rest| ==> Spread(h, ch, csz, i, at, rest) == h1)
            && (take < |rest| ==>
                  && i + 1 < |ch| && Times(i + 1, csz) + (|rest| - take) <= Times(|ch|, csz)
                  && Spread(h, ch, csz, i, at, rest) == Spread(h1, ch, csz, i + 1, 0, rest[take..]))
  {
    TimesLess(|ch|, i + 1, csz);
  }

  /** The number of clusters that a write asks for. */
  method Needed(off: nat, len: nat, csz: nat) returns (r: nat)
    requires 0 < csz
    ensures r == NeededFor(off, len, csz)
  {
    var end := W64(off + len);
    r := W64(end + csz - 1) / csz;
  }

  /** When the chain cannot be brought to length, the write has failed as it should. */
  lemma NotEnsured(g: Geo, fs: FS, k: nat, off: nat, data: seq<byte>)
    requires Good(g, fs) && k < |fs.chains| && data != [] && |data| < TWO63 && !Reaches(g, fs, k, off, data)
    ensures (EnsuredFS(g, fs, k, off, data), -1) == FileStore.Write(g, fs, k, off, data)
  {
    if Wraps(off, |data|, g.csz) {
      WrappedWriteFills(g, fs, k, off, data);
    } else {
      NeededWithoutWrap(off, |data|, g.csz);
    }
  }

  lemma EnsuredHandle(g: Geo, fs: FS, k: nat, off: nat, data: seq<byte>, fs1: FS)
    requires Good(g, fs) && k < |fs.chains| && fs1 == EnsuredFS(g, fs, k, off, data)
    ensures Good(g, fs1) && |fs1.chains| == |fs.chains| && Listing(g, fs1.v) == Listing(g, fs.v)
    ensures FileOk(g, fs1.v, Listing(g, fs1.v)[k], fs1.chains[k])
  {
    GrowKeepsFiles(g, fs, k, NeededFor(off, |data|, g.csz));
    assert FileOk(g, fs1.v, Listing(g, fs1.v)[k], fs1.chains[k]);
  }

  /** A search that gives up has wrapped. */
  lemma WrappedEnd(g: Geo, fs: FS, k: nat, off: nat, data: seq<byte>, fs1: FS, x: Extension)
    requires Good(g, fs) && k < |fs.chains| && data != [] && |data| < TWO63 && Reaches(g, fs, k, off, data)
    requires fs1 == EnsuredFS(g, fs, k, off, data) && k < |fs1.chains| && 0 < |fs1.chains[k]|
    requires ClusterNo(off, g.csz) >= |fs1.chains[k]| && Last(fs1.chains[k]) < |fs1.v.fat| == |fs1.v.heap|
    requires x == Extend(fs1.v, g.csz, Last(fs1.chains[k]), ClusterNo(off, g.csz) + 1 - |fs1.chains[k]|)
    ensures !x.ok
    ensures (FS(x.v, fs1.chains[k := fs1.chains[k] + x.added]), -1) == FileStore.Write(g, fs, k, off, data)
  {
    ExtraAllocationIff(g, fs, k, off, data);
    WrappedWriteFills(g, fs, k, off, data);
  }

  /** A search that arrives has not. */
  lemma NotWrapped(g: Geo, fs: FS, k: nat, off: nat, data: seq<byte>, fs1: FS, x: Extension)
    requires Good(g, fs) && k < |fs.chains| && data != [] && |data| < TWO63 && Reaches(g, fs, k, off, data)
    requires fs1 == EnsuredFS(g, fs, k, off, data) && Good(g, fs1) && k < |fs1.chains|
    requires FileOk(g, fs1.v, Listing(g, fs1.v)[k], fs1.chains[k])
    requires ClusterNo(off, g.csz) >= |fs1.chains[k]| ==>
               && x == Extend(fs1.v, g.csz, Last(fs1.chains[k]), ClusterNo(off, g.csz) + 1 - |fs1.chains[k]|)
               && x.ok
    ensures ClusterNo(off, g.csz) < |fs1.chains[k]| && NeededFor(off, |data|, g.csz) == ClustersFor(off + |data|, g.csz)
  {
    ExtraAllocationIff(g, fs, k, off, data);
    if Wraps(off, |data|, g.csz) {
      NoRoom(g, fs1, k, off, data, x);
    } else {
      NeededWithoutWrap(off, |data|, g.csz);
    }
  }

  lemma PutInSteps(g: Geo, v: Vol, k: nat, r: Rec, ch: seq<nat>, off: nat, q: nat, skip: nat, data: seq<byte>,
                   h: seq<seq<byte>>, v': Vol)
    requires Fits(g, v, k, r, ch, off, q, skip, data)
    requires h == Spread(v.heap, ch, g.csz, q, skip, data) && h[g.root] == v.heap[g.root]
    requires r.slot + 1 < |Cut(h[g.root])| && OnlyDir(g.root, Vol(v.fat, h), v') && |v'.heap[g.root]| == g.csz
    requires Cut(v'.heap[g.root]) == SetSize(Cut(h[g.root]), r.slot, NewSize(r.size, off, data))
    ensures v' == Put(g, v, k, r, ch, off, q, skip, data)
  {
    PasteCut(v'.heap[g.root]);
  }

  lemma WriteInSteps(g: Geo, fs: FS, k: nat, off: nat, data: seq<byte>, fs1: FS, fs2: FS)
    requires Good(g, fs) && k < |fs.chains| && data != [] && Grow(g, fs, k, ClustersFor(off + |data|, g.csz)).ok
    requires fs1 == GrownFS(g, fs, k, ClustersFor(off + |data|, g.csz)) && k < |Listing(g, fs.v)|
    requires g.root < |fs1.v.heap| && Listing(g, fs1.v) == Listing(g, fs.v)
    requires var r, q, skip := Listing(g, fs.v)[k], ClusterNo(off, g.csz), InCluster(off, g.csz);
             && Fits(g, fs1.v, k, r, fs1.chains[k], off, q, skip, data)
             && fs2 == FS(Put(g, fs1.v, k, r, fs1.chains[k], off, q, skip, data), fs1.chains)
    ensures (fs2, |data|) == FileStore.Write(g, fs, k, off, data)
  {
  }

  /** Two volumes differ in the directory cluster only. */
  ghost predicate OnlyDir(root: nat, v: Vol, v': Vol) {
    root < |v.heap| == |v'.heap| && v'.fat == v.fat && v'.heap == v.heap[root := v'.heap[root]]
  }

  /** After its chain has grown, the file is still the one the handle stands for. */
  lemma GrownHandle(g: Geo, fs: FS, k: nat, off: nat, data: seq<byte>, fs1: FS)
    requires Good(g, fs) && k < |fs.chains| && data != []
    requires Grow(g, fs, k, ClustersFor(off + |data|, g.csz)).ok
             && fs1 == GrownFS(g, fs, k, ClustersFor(off + |data|, g.csz))
    ensures Good(g, fs1) && Listing(g, fs1.v) == Listing(g, fs.v)
    ensures IsChain(fs1.v.fat, fs1.chains[k]) && fs1.chains[k][0] == Listing(g, fs.v)[k].first
    ensures k == FindCluster(Listing(g, fs1.v), Listing(g, fs.v)[k].first, 0)
    ensures Fits(g, fs1.v, k, Listing(g, fs1.v)[k], fs1.chains[k], off, ClusterNo(off, g.csz), InCluster(off, g.csz),
            data)
  {
    var needed := ClustersFor(off + |data|, g.csz);
    GrowKeepsFiles(g, fs, k, needed);
    GrownFits(g, fs, k, off, data);
    FirstClusterFinds(g, fs1, k);
    assert FileOk(g, fs1.v, Listing(g, fs1.v)[k], fs1.chains[k]);
  }

  /** A write changes nothing of the listed file but its size. */
  lemma WriteKeepsEntry(g: Geo, fs: FS, k: nat, off: nat, data: seq<byte>)
    requires Good(g, fs) && k < |fs.chains| && data != []
    ensures var (fs', rc) := FileStore.Write(g, fs, k, off, data);
            var r := Listing(g, fs.v)[k];
            && g.root < |fs'.v.heap| && k < |Listing(g, fs'.v)| && |fs'.chains| == |fs.chains|
            && Listing(g, fs'.v)[k] == if rc > 0 then r.(size := NewSize(r.size, off, data)) else r
  {
    var needed := ClustersFor(off + |data|, g.csz);
    GrowKeepsFiles(g, fs, k, needed);
    if Grow(g, fs, k, needed).ok {
      var fs1 := GrownFS(g, fs, k, needed);
      GrownFits(g, fs, k, off, data);
      PutShape(g, fs1.v, k, Listing(g, fs1.v)[k], fs1.chains[k], off, ClusterNo(off, g.csz), InCluster(off, g.csz),
        data);
    }
  }

  /** The cluster of a file that holds byte `off`, and the byte's place in it. */
  method Locate(off: nat, csz: nat) returns (q: nat, skip: nat)
    requires 0 < csz
    ensures q == ClusterNo(off, csz) && skip == InCluster(off, csz) && off == Times(q, csz) + skip
  {
    q, skip := off / csz, off % csz;
    ClusterArithmetic(off, csz);
    Placed(off, csz);
  }

  /** An empty volume on a new RAM disk, for any layout that fits: well formed, with no files. */
  method EmptyDisk(l: Layout, sectors: nat) returns (v: Volume)
    requires 0 < sectors && l.Ok(512 * sectors)
    ensures fresh(v) && fresh(v.dev.data) && v.l == l && v.Valid() && v.chains == [] && Files(v.G(), v.State()) == []
  {
    var dev := new BlockDevice.RamDisk(512 * sectors);
    v := new Volume(dev, l, 2, []);
    ghost var dir := v.View().heap[2];
    ZeroDisk(l, dev.Contents());
    v.FatSet(2, EOC);
    assert v.View().heap[2] == dir;
    MarkedGeo(l, 512 * sectors, v.View());
    EmptyIsGood(v.G(), v.State());
  }

  /** On a zeroed disk the root directory lists nothing. */
  lemma ZeroDisk(l: Layout, d: seq<byte>)
    requires l.Ok(|d|) && forall i :: 0 <= i < |d| ==> d[i] == 0
    ensures Recs(Cut(VolOf(l, d).heap[2]), 0) == []
  {
    VolAt(l, d, 2);
    ClusterBounds(l, |d|, 2);
    CutAt(VolOf(l, d).heap[2], 0);
  }

  lemma MarkedGeo(l: Layout, bytes: nat, v: Vol)
    requires l.Ok(bytes) && Sized(v, l.csz) && |v.fat| == l.Entries() && v.fat[2] != 0
    ensures GoodGeo(Geo(l.csz, 2), v)
  {
    assert Times(|v.fat| + 1, l.csz) <= TWO63 by { Capacity(l, bytes); }
    assert l.csz % 32 == 0 by { Multiple(16 * l.spc); }
  }

  lemma Multiple(n: nat)
    ensures 32 * n % 32 == 0
  {
  }

  lemma EmptyIsGood(g: Geo, fs: FS)
    requires GoodGeo(g, fs.v) && Listing(g, fs.v) == [] && fs.chains == []
    ensures Good(g, fs) && Files(g, fs) == []
  {
  }

  /** Such a layout: one FAT sector, then clusters of one sector each, on 128 sectors. */
  lemma SmallLayoutOk()
    ensures Layout(1, 1, 2, 1, 512).Ok(512 * 128)
  {
    var l := Layout(1, 1, 2, 1, 512);
    ClusterPosIs(l, 128);
    TimesIsMul(126, 512);
  }
}

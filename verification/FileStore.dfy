/** The file store as a list of named byte sequences: what create, write, read and unlink do to a
    well-formed volume, and over every run of them (fs/exfat.c). */
module FileStore {
  import opened Bytes
  import opened FatChain
  import opened FileData
  import opened Directory

  /** Bytes per cluster, and the root directory's cluster. */
  datatype Geo = Geo(csz: nat, root: nat)

  /** A volume, with the chain of each listed file. */
  datatype FS = FS(v: Vol, chains: seq<seq<nat>>)

  /** A file as a user sees it. */
  datatype File = File(name: seq<byte>, data: seq<byte>)

  function Listing(g: Geo, v: Vol): seq<Rec>
    requires g.root < |v.heap|
  {
    Recs(Cut(v.heap[g.root]), 0)
  }

  ghost predicate Apart(a: seq<nat>, b: seq<nat>) {
    forall i, j :: 0 <= i < |a| && 0 <= j < |b| ==> a[i] != b[j]
  }

  /** The root directory's cluster is marked as taken; all clusters together are smaller than 2^63 bytes. */
  ghost predicate GoodGeo(g: Geo, v: Vol) {
    && 0 < g.csz && g.csz % 32 == 0 && 2 <= g.root < |v.fat|
    && Sized(v, g.csz) && v.fat[g.root] != 0 && Times(|v.fat| + 1, g.csz) <= TWO63
  }

  /** File `r` lies on chain `ch`, which holds its bytes. */
  ghost predicate FileOk(g: Geo, v: Vol, r: Rec, ch: seq<nat>)
    requires GoodGeo(g, v)
  {
    && r.stream && r.name == r.uname && IsChain(v.fat, ch) && ch[0] == r.first && g.root !in ch
    && r.size <= |Content(v.heap, ch)|
  }

  /** The volume is well formed: listed files lie on pairwise disjoint chains off the root directory. */
  ghost predicate Good(g: Geo, fs: FS) {
    && GoodGeo(g, fs.v)
    && var recs := Listing(g, fs.v);
    && |fs.chains| == |recs|
    && (forall k {:trigger FileOk(g, fs.v, recs[k], fs.chains[k])} ::
          0 <= k < |recs| ==> FileOk(g, fs.v, recs[k], fs.chains[k]))
    && (forall j, k {:trigger Apart(fs.chains[j], fs.chains[k])} ::
          0 <= j < k < |recs| ==> Apart(fs.chains[j], fs.chains[k]))
  }

  ghost function FileOf(v: Vol, r: Rec, ch: seq<nat>): File
    requires forall i :: 0 <= i < |ch| ==> ch[i] < |v.heap|
    requires r.size <= |Content(v.heap, ch)|
  {
    File(r.name, Content(v.heap, ch)[..r.size])
  }

  /** The abstract file list of a volume. */
  ghost function Files(g: Geo, fs: FS): (r: seq<File>)
    requires Good(g, fs)
    ensures |r| == |fs.chains|
  {
    var recs := Listing(g, fs.v);
    seq(|recs|, k requires 0 <= k < |recs| =>
      assert FileOk(g, fs.v, recs[k], fs.chains[k]); FileOf(fs.v, recs[k], fs.chains[k]))
  }

  /** All bytes on the chain of file `k`, those behind the file's end included. */
  ghost function Stored(g: Geo, fs: FS, k: nat): (s: seq<byte>)
    requires Good(g, fs) && k < |fs.chains|
    ensures |Files(g, fs)[k].data| <= |s| && s[..|Files(g, fs)[k].data|] == Files(g, fs)[k].data
  {
    assert FileOk(g, fs.v, Listing(g, fs.v)[k], fs.chains[k]);
    Content(fs.v.heap, fs.chains[k])
  }

  /** Behind the end of every file its chain holds zeros. */
  ghost predicate Clean(g: Geo, fs: FS)
    requires Good(g, fs)
  {
    forall k {:trigger Stored(g, fs, k)} :: 0 <= k < |fs.chains| ==> ZeroFrom(Stored(g, fs, k), |Files(g, fs)[k].data|)
  }

  /** The same file, on the same chain, in two volumes. */
  ghost predicate SameFile(g: Geo, v: Vol, v': Vol, r: Rec, ch: seq<nat>)
    requires GoodGeo(g, v) && GoodGeo(g, v')
  {
    FileOk(g, v, r, ch) && FileOk(g, v', r, ch) && Content(v'.heap, ch) == Content(v.heap, ch)
  }

  /** A volume change that spares a file's clusters spares the file. */
  lemma FileFrame(g: Geo, v: Vol, v': Vol, r: Rec, ch: seq<nat>)
    requires GoodGeo(g, v) && GoodGeo(g, v') && |v'.fat| == |v.fat| && FileOk(g, v, r, ch)
    requires forall i :: 0 <= i < |ch| ==> v'.fat[ch[i]] == v.fat[ch[i]] && v'.heap[ch[i]] == v.heap[ch[i]]
    ensures SameFile(g, v, v', r, ch)
  {
    ChainFrame(v.fat, v'.fat, ch);
    ContentFrame(v.heap, v'.heap, ch);
  }

  /** The root directory's own cluster is handed out - and zeroed - exactly when its FAT entry is zero and no
      cluster below it is free. */
  lemma RootIsTakenIff(g: Geo, v: Vol)
    requires 2 <= g.root < |v.fat| == |v.heap|
    ensures Alloc(v, g.csz).1 == g.root <==> v.fat[g.root] == 0 && forall c :: 2 <= c < g.root ==> v.fat[c] != 0
    ensures Alloc(v, g.csz).1 == g.root ==> Alloc(v, g.csz).0.heap[g.root] == Zeros(g.csz)
  {
    var cl := FirstFree(v.fat, 2);
    if cl == g.root {
      assert forall c :: 2 <= c < g.root ==> v.fat[c] != 0;
    }
  }

  /** So it is over a whole extension: the root directory becomes part of the file exactly when its FAT entry
      is zero and the file wants more clusters than are free below it. */
  lemma RootJoinsFileIff(g: Geo, v: Vol, last: nat, k: nat)
    requires 2 <= g.root < |v.fat| == |v.heap| && last < |v.fat| && v.fat[last] != 0
    ensures g.root in Extend(v, g.csz, last, k).added <==> v.fat[g.root] == 0 && k > |FreeBelow(v.fat, g.root)|
  {
    ExtendTakesIff(v, g.csz, last, k, g.root);
  }

  // ----- create -----

  function CreateRoom(es: seq<Entry>, name: seq<byte>): bool {
    EndSlot(es, 0) + 2 + (|name| + 14) / 15 <= |es|
  }

  /** `exfat_create`: -1 for an empty name, a full directory or a full volume. */
  function Create(g: Geo, fs: FS, name: seq<byte>): (r: (FS, int))
    requires g.root < |fs.v.fat| == |fs.v.heap|
  {
    var es := Cut(fs.v.heap[g.root]);
    var cl := FirstFree(fs.v.fat, 2);
    if name == [] || !CreateRoom(es, name) || cl == 0 then (fs, -1)
    else
      NameEntryCount(name);
      var v1 := Alloc(fs.v, g.csz).0;
      var dir := Paste(AddAt(es, EndSlot(es, 0), FileSet(name, cl)));
      (FS(v1.(heap := v1.heap[g.root := dir]), fs.chains + [[cl]]), 0)
  }

  /** `v'` is `v` with free cluster `cl` taken and zeroed and the root directory rewritten. */
  ghost predicate Took(g: Geo, v: Vol, v': Vol, cl: nat)
    requires GoodGeo(g, v) && GoodGeo(g, v')
  {
    && |v'.fat| == |v.fat| && 2 <= cl < |v.fat| && v.fat[cl] == 0 && cl != g.root
    && v'.fat == v.fat[cl := EOC] && v'.heap[cl] == Zeros(g.csz)
    && forall c :: 0 <= c < |v.heap| && c != cl && c != g.root ==> v'.heap[c] == v.heap[c]
  }

  lemma CreateShape(g: Geo, fs: FS, name: seq<byte>)
    requires GoodGeo(g, fs.v) && NonZero(name) && Create(g, fs, name).1 == 0
    ensures var v' := Create(g, fs, name).0.v;
            var cl, d := FirstFree(fs.v.fat, 2), EndSlot(Cut(fs.v.heap[g.root]), 0);
            && GoodGeo(g, v') && Took(g, fs.v, v', cl)
            && Listing(g, v') == Listing(g, fs.v) + [Rec(d, true, false, cl, 0, Shown(name), Shown(name))]
  {
    var es := Cut(fs.v.heap[g.root]);
    var cl := FirstFree(fs.v.fat, 2);
    NameEntryCount(name);
    AddListsFile(es, name, cl);
    CutPaste(AddAt(es, EndSlot(es, 0), FileSet(name, cl)));
  }

  /** Creating a file appends an empty one to the list, and changes nothing when it fails. */
  lemma CreateAppends(g: Geo, fs: FS, name: seq<byte>)
    requires Good(g, fs) && NonZero(name)
    ensures var (fs', rc) := Create(g, fs, name);
            && Good(g, fs')
            && Files(g, fs') == (if rc == 0 then Files(g, fs) + [File(Shown(name), [])] else Files(g, fs))
            && (rc != 0 ==> fs' == fs) && (Clean(g, fs) ==> Clean(g, fs'))
  {
    var (fs', rc) := Create(g, fs, name);
    if rc == 0 {
      CreateShape(g, fs, name);
      var recs' := Listing(g, fs'.v);
      AppendFile(g, fs, fs', FirstFree(fs.v.fat, 2), recs'[|recs'| - 1]);
    }
  }

  /** Creating a file succeeds exactly when it has a name, its entry set fits in front of the directory's
      end and a cluster is free. */
  lemma CreateSucceeds(g: Geo, fs: FS, name: seq<byte>)
    requires Good(g, fs)
    ensures Create(g, fs, name).1 == 0 <==>
            && name != [] && FreeClusters(fs.v.fat) != {}
            && EndSlot(Cut(fs.v.heap[g.root]), 0) + |FileSet(name, 2)| <= |Cut(fs.v.heap[g.root])|
  {
    NameEntryCount(name);
    var cl := FirstFree(fs.v.fat, 2);
    if cl != 0 { assert cl in FreeClusters(fs.v.fat); }
  }

  lemma AppendFile(g: Geo, fs: FS, fs': FS, cl: nat, r: Rec)
    requires Good(g, fs) && GoodGeo(g, fs'.v) && Took(g, fs.v, fs'.v, cl)
    requires Listing(g, fs'.v) == Listing(g, fs.v) + [r] && fs'.chains == fs.chains + [[cl]]
    requires r.stream && r.name == r.uname && r.first == cl && r.size == 0
    ensures Good(g, fs') && Files(g, fs') == Files(g, fs) + [File(r.name, [])]
    ensures Clean(g, fs) ==> Clean(g, fs')
  {
    var recs := Listing(g, fs.v);
    forall k | 0 <= k < |recs|
      ensures SameFile(g, fs.v, fs'.v, recs[k], fs.chains[k]) && Apart(fs.chains[k], [cl])
    {
      assert FileOk(g, fs.v, recs[k], fs.chains[k]);
      TookSpares(g, fs.v, fs'.v, cl, recs[k], fs.chains[k]);
    }
    NewFile(g, fs'.v, cl, r);
    forall k | 0 <= k < |fs'.chains| && Clean(g, fs)
      ensures ZeroFrom(Stored(g, fs', k), |Files(g, fs')[k].data|)
    {
      if k < |recs| { assert Stored(g, fs', k) == Stored(g, fs, k); }
    }
  }

  lemma TookSpares(g: Geo, v: Vol, v': Vol, cl: nat, r: Rec, ch: seq<nat>)
    requires GoodGeo(g, v) && GoodGeo(g, v') && FileOk(g, v, r, ch) && Took(g, v, v', cl)
    ensures SameFile(g, v, v', r, ch) && Apart(ch, [cl])
  {
    forall i | 0 <= i < |ch|
      ensures ch[i] != cl && ch[i] != g.root
    {
      ChainInUse(v.fat, ch, i);
    }
    FileFrame(g, v, v', r, ch);
  }

  lemma NewFile(g: Geo, v: Vol, cl: nat, r: Rec)
    requires GoodGeo(g, v) && 2 <= cl < |v.fat| && cl != g.root && v.fat[cl] == EOC && v.heap[cl] == Zeros(g.csz)
    requires r.stream && r.name == r.uname && r.first == cl && r.size == 0
    ensures FileOk(g, v, r, [cl]) && FileOf(v, r, [cl]) == File(r.name, []) && ZeroFrom(Content(v.heap, [cl]), 0)
  {
    ContentOfZeros(v.heap, [cl], g.csz);
  }

  // ----- write -----

  /** The number of clusters that `n` bytes take. */
  function ClustersFor(n: nat, csz: nat): nat
    requires 0 < csz
  {
    if n == 0 then 0 else if n <= csz then 1 else 1 + ClustersFor(n - csz, csz)
  }

  /** The cluster of a file that holds byte `off`, counting from 0. */
  function ClusterNo(off: nat, csz: nat): nat
    requires 0 < csz
  {
    if off < csz then 0 else 1 + ClusterNo(off - csz, csz)
  }

  /** The place of byte `off` in that cluster. */
  function InCluster(off: nat, csz: nat): (r: nat)
    requires 0 < csz
    ensures r < csz
  {
    if off < csz then off else InCluster(off - csz, csz)
  }

  lemma {:induction false} Placed(off: nat, csz: nat)
    requires 0 < csz
    ensures off == Times(ClusterNo(off, csz), csz) + InCluster(off, csz)
  {
    if off >= csz {
      Placed(off - csz, csz);
    }
  }

  lemma {:induction false} ClustersHold(n: nat, csz: nat)
    requires 0 < csz
    ensures n <= Times(ClustersFor(n, csz), csz) < n + csz
  {
    if n > csz {
      ClustersHold(n - csz, csz);
    }
  }

  /** These are the source's divisions. */
  lemma ClusterArithmetic(n: nat, csz: nat)
    requires 0 < csz
    ensures ClusterNo(n, csz) == n / csz && InCluster(n, csz) == n % csz
    ensures ClustersFor(n, csz) == (n + csz - 1) / csz
  {
    Placed(n, csz);
    TimesIsMul(ClusterNo(n, csz), csz);
    DivModUnique(ClusterNo(n, csz), InCluster(n, csz), csz);
    ClustersHold(n, csz);
    TimesIsMul(ClustersFor(n, csz), csz);
    DivModUnique(ClustersFor(n, csz), n + csz - 1 - ClustersFor(n, csz) * csz, csz);
  }

  /** The chain of file `k` brought to `needed` clusters, as far as free clusters go. */
  ghost function Grow(g: Geo, fs: FS, k: nat, needed: nat): Extension
    requires Good(g, fs) && k < |fs.chains|
  {
    var ch := fs.chains[k];
    assert FileOk(g, fs.v, Listing(g, fs.v)[k], ch);
    Extend(fs.v, g.csz, Last(ch), if needed > |ch| then needed - |ch| else 0)
  }

  ghost function GrownFS(g: Geo, fs: FS, k: nat, needed: nat): FS
    requires Good(g, fs) && k < |fs.chains|
  {
    var x := Grow(g, fs, k, needed);
    FS(x.v, fs.chains[k := fs.chains[k] + x.added])
  }

  lemma GrowExtends(g: Geo, fs: FS, k: nat, needed: nat)
    requires Good(g, fs) && k < |fs.chains|
    ensures var ch, x := fs.chains[k], Grow(g, fs, k, needed);
            && FileOk(g, fs.v, Listing(g, fs.v)[k], ch)
            && Extended(fs.v, g.csz, ch, if needed > |ch| then needed - |ch| else 0, x)
            && g.root !in x.added && GoodGeo(g, x.v) && x.v.heap[g.root] == fs.v.heap[g.root]
            && (x.ok ==> needed <= |ch + x.added|)
  {
    var ch, x := fs.chains[k], Grow(g, fs, k, needed);
    assert FileOk(g, fs.v, Listing(g, fs.v)[k], ch);
    ExtendChain(fs.v, g.csz, ch, if needed > |ch| then needed - |ch| else 0);
    assert g.root != Last(ch);
  }

  /** Bringing a chain to length, whether or not it succeeds, leaves every file as it was; what is new on the
      chain is zero. */
  lemma GrowKeepsFiles(g: Geo, fs: FS, k: nat, needed: nat)
    requires Good(g, fs) && k < |fs.chains|
    ensures var fs' := GrownFS(g, fs, k, needed);
            && Good(g, fs') && Listing(g, fs'.v) == Listing(g, fs.v) && Files(g, fs') == Files(g, fs)
            && (Clean(g, fs) ==> Clean(g, fs'))
            && |Stored(g, fs, k)| <= |Stored(g, fs', k)|
            && Stored(g, fs', k) == Stored(g, fs, k) + Zeros(|Stored(g, fs', k)| - |Stored(g, fs, k)|)
  {
    var recs := Listing(g, fs.v);
    var ch, x := fs.chains[k], Grow(g, fs, k, needed);
    var fs' := GrownFS(g, fs, k, needed);
    GrowExtends(g, fs, k, needed);
    assert FileOk(g, fs.v, recs[k], ch);
    GrownFile(g, fs.v, x.v, recs[k], ch, x.added);
    forall j | 0 <= j < |recs| && j != k
      ensures SameFile(g, fs.v, x.v, recs[j], fs.chains[j])
      ensures Apart(fs.chains[j], ch + x.added) && Apart(ch + x.added, fs.chains[j])
    {
      assert FileOk(g, fs.v, recs[j], fs.chains[j]);
      assert Apart(fs.chains[j], ch) by {
        if j < k { assert Apart(fs.chains[j], fs.chains[k]); } else { assert Apart(fs.chains[k], fs.chains[j]); }
      }
      GrowSpares(g, fs.v, x.v, ch, x.added, recs[j], fs.chains[j]);
    }
    assert Good(g, fs');
    forall j | 0 <= j < |fs'.chains| && Clean(g, fs)
      ensures ZeroFrom(Stored(g, fs', j), |Files(g, fs')[j].data|)
    {
      assert ZeroFrom(Stored(g, fs, j), |Files(g, fs)[j].data|);
      if j != k { assert Stored(g, fs', j) == Stored(g, fs, j); }
    }
  }

  lemma GrownFile(g: Geo, v: Vol, v': Vol, r: Rec, ch: seq<nat>, added: seq<nat>)
    requires GoodGeo(g, v) && GoodGeo(g, v') && FileOk(g, v, r, ch)
    requires IsChain(v'.fat, ch + added) && Grown(v, v', g.csz, Last(ch), added) && g.root !in added
    ensures FileOk(g, v', r, ch + added) && FileOf(v', r, ch + added) == FileOf(v, r, ch)
    ensures Content(v'.heap, ch + added) == Content(v.heap, ch) + Zeros(Times(|added|, g.csz))
  {
    forall i | 0 <= i < |ch|
      ensures ch[i] !in added
    {
      ChainInUse(v.fat, ch, i);
    }
    ContentFrame(v.heap, v'.heap, ch);
    ContentAppend(v'.heap, ch, added);
    ContentOfZeros(v'.heap, added, g.csz);
  }

  lemma GrowSpares(g: Geo, v: Vol, v': Vol, ch: seq<nat>, added: seq<nat>, r: Rec, other: seq<nat>)
    requires GoodGeo(g, v) && GoodGeo(g, v') && IsChain(v.fat, ch) && FileOk(g, v, r, other) && Apart(other, ch)
    requires Grown(v, v', g.csz, Last(ch), added)
    ensures SameFile(g, v, v', r, other)
    ensures Apart(other, ch + added) && Apart(ch + added, other)
  {
    forall i | 0 <= i < |other|
      ensures other[i] !in added && other[i] !in ch
    {
      ChainInUse(v.fat, other, i);
    }
    FileFrame(g, v, v', r, other);
  }

  /** Byte `off` of the `k`-th file `r` is byte `skip` of cluster `q` of its chain `ch`, and from there
      the chain has room for `data`. */
  ghost predicate Fits(g: Geo, v: Vol, k: nat, r: Rec, ch: seq<nat>, off: nat, q: nat, skip: nat, data: seq<byte>) {
    && GoodGeo(g, v) && Held(v.heap, ch, g.csz) && NoDup(ch) && g.root !in ch
    && data != [] && skip < g.csz && q <= |ch| && off == Times(q, g.csz) + skip && off + |data| <= Times(|ch|, g.csz)
    && ListedAt(Cut(v.heap[g.root]), 0, k, r) && HasStream(Cut(v.heap[g.root]), r.slot)
  }

  /** The write loop and the size update. */
  ghost function Put(g: Geo, v: Vol, k: nat, r: Rec, ch: seq<nat>, off: nat, q: nat, skip: nat, data: seq<byte>): Vol
    requires Fits(g, v, k, r, ch, off, q, skip, data)
  {
    var h := Spread(v.heap, ch, g.csz, q, skip, data);
    SpreadFrame(v.heap, ch, g.csz, q, skip, data);
    Vol(v.fat, h[g.root := Paste(SetSize(Cut(h[g.root]), r.slot, NewSize(r.size, off, data)))])
  }

  /** What `Put` does to the volume: the file's content is spliced, its listed size updated, and every
      cluster that is neither the file's nor the root directory's is left alone. */
  ghost predicate PutResult(g: Geo, v: Vol, k: nat, r: Rec, ch: seq<nat>, off: nat, data: seq<byte>, v': Vol)
    requires GoodGeo(g, v) && Held(v.heap, ch, g.csz)
  {
    && GoodGeo(g, v') && v'.fat == v.fat && Held(v'.heap, ch, g.csz)
    && (forall c :: 0 <= c < |v.heap| && c !in ch && c != g.root ==> v'.heap[c] == v.heap[c])
    && k < |Listing(g, v)| && Listing(g, v') == Listing(g, v)[k := r.(size := NewSize(r.size, off, data))]
    && off + |data| <= |Content(v.heap, ch)|
    && Content(v'.heap, ch) == Splice(Content(v.heap, ch), off, data)
  }

  lemma PutShape(g: Geo, v: Vol, k: nat, r: Rec, ch: seq<nat>, off: nat, q: nat, skip: nat, data: seq<byte>)
    requires Fits(g, v, k, r, ch, off, q, skip, data) && off + |data| < TWO64 && r.size < TWO64
    ensures PutResult(g, v, k, r, ch, off, data, Put(g, v, k, r, ch, off, q, skip, data))
  {
    var h := Spread(v.heap, ch, g.csz, q, skip, data);
    SpreadIsSplice(v.heap, ch, g.csz, q, skip, off, data);
    SpreadFrame(v.heap, ch, g.csz, q, skip, data);
    var dir := Paste(SetSize(Cut(v.heap[g.root]), r.slot, NewSize(r.size, off, data)));
    PutDirectory(g, h, v.heap[g.root], dir, ch, k, r, NewSize(r.size, off, data));
    PutParts(g, v, k, r, ch, off, data, h, dir);
  }

  lemma PutParts(g: Geo, v: Vol, k: nat, r: Rec, ch: seq<nat>, off: nat, data: seq<byte>, h: seq<seq<byte>>,
                 dir: seq<byte>)
    requires GoodGeo(g, v) && Held(v.heap, ch, g.csz) && Held(h, ch, g.csz) && g.root !in ch && |h| == |v.heap|
    requires SameOff(v.heap, h, ch)
    requires off + |data| <= |Content(v.heap, ch)| && Content(h, ch) == Splice(Content(v.heap, ch), off, data)
    requires |dir| == g.csz && k < |Listing(g, v)|
    requires Recs(Cut(dir), 0) == Listing(g, v)[k := r.(size := NewSize(r.size, off, data))]
    requires Content(h[g.root := dir], ch) == Content(h, ch)
    ensures PutResult(g, v, k, r, ch, off, data, Vol(v.fat, h[g.root := dir]))
  {
    var h' := h[g.root := dir];
    forall c | 0 <= c < |v.heap|
      ensures c !in ch && c != g.root ==> h'[c] == v.heap[c]
      ensures 2 <= c ==> |h'[c]| == g.csz
    {
    }
    assert GoodGeo(g, Vol(v.fat, h'));
  }

  lemma PutDirectory(g: Geo, h: seq<seq<byte>>, dir: seq<byte>, dir': seq<byte>, ch: seq<nat>, k: nat, r: Rec,
                     size: nat)
    requires g.root < |h| && h[g.root] == dir && |dir| % 32 == 0 && g.root !in ch && size < TWO64
    requires forall i :: 0 <= i < |ch| ==> ch[i] < |h|
    requires ListedAt(Cut(dir), 0, k, r) && HasStream(Cut(dir), r.slot)
             && dir' == Paste(SetSize(Cut(dir), r.slot, size))
    ensures |dir'| == |dir| && k < |Recs(Cut(dir), 0)|
    ensures Recs(Cut(dir'), 0) == Recs(Cut(dir), 0)[k := r.(size := size)]
    ensures Content(h[g.root := dir'], ch) == Content(h, ch)
  {
    var es' := SetSize(Cut(dir), r.slot, size);
    CutPaste(es');
    SetSizeLists(Cut(dir), 0, r.slot, size);
    ContentFrame(h, h[g.root := Paste(es')], ch);
  }

  /** Writing replaces one file, and no other. */
  lemma PutWrites(g: Geo, fs: FS, k: nat, off: nat, data: seq<byte>, v': Vol)
    requires Good(g, fs) && k < |fs.chains| && Held(fs.v.heap, fs.chains[k], g.csz)
    requires PutResult(g, fs.v, k, Listing(g, fs.v)[k], fs.chains[k], off, data, v')
    ensures var fs', f := FS(v', fs.chains), Files(g, fs)[k];
            && Good(g, fs')
            && Files(g, fs') == Files(g, fs)[k := File(f.name, Overlaid(Stored(g, fs, k), |f.data|, off, data))]
            && (Clean(g, fs) ==> Clean(g, fs'))
  {
    var recs, ch, fs' := Listing(g, fs.v), fs.chains[k], FS(v', fs.chains);
    assert FileOk(g, fs.v, recs[k], ch);
    SpliceIsOverlaid(Content(fs.v.heap, ch), recs[k].size, off, data);
    forall j | 0 <= j < |recs| && j != k
      ensures SameFile(g, fs.v, v', recs[j], fs.chains[j])
    {
      assert FileOk(g, fs.v, recs[j], fs.chains[j]);
      assert Apart(fs.chains[j], ch) by {
        if j < k { assert Apart(fs.chains[j], fs.chains[k]); } else { assert Apart(fs.chains[k], fs.chains[j]); }
      }
      FileFrame(g, fs.v, v', recs[j], fs.chains[j]);
    }
    assert Good(g, fs');
    forall j | 0 <= j < |fs'.chains| && Clean(g, fs)
      ensures ZeroFrom(Stored(g, fs', j), |Files(g, fs')[j].data|)
    {
      assert ZeroFrom(Stored(g, fs, j), |Files(g, fs)[j].data|);
    }
  }

  /** On a well-formed volume, a chain of enough clusters has room. */
  lemma GoodFits(g: Geo, fs: FS, k: nat, off: nat, data: seq<byte>)
    requires Good(g, fs) && k < |fs.chains| && data != []
    requires ClustersFor(off + |data|, g.csz) <= |fs.chains[k]|
    ensures Fits(g, fs.v, k, Listing(g, fs.v)[k], fs.chains[k], off, ClusterNo(off, g.csz), InCluster(off, g.csz), data)
    ensures Listing(g, fs.v)[k].size < TWO64
  {
    var r, ch := Listing(g, fs.v)[k], fs.chains[k];
    assert FileOk(g, fs.v, r, ch);
    assert NoDup(ch) by { ChainIsAcyclic(fs.v.fat, ch); }
    RoomAt(off, |data|, g.csz, |ch|);
    assert ListedAt(Cut(fs.v.heap[g.root]), 0, k, r) by { RecsAreListed(Cut(fs.v.heap[g.root]), 0, k); }
  }

  lemma RoomAt(off: nat, n: nat, csz: nat, clusters: nat)
    requires 0 < csz && ClustersFor(off + n, csz) <= clusters
    ensures off == Times(ClusterNo(off, csz), csz) + InCluster(off, csz) && ClusterNo(off, csz) <= clusters
    ensures off + n <= Times(clusters, csz)
  {
    Placed(off, csz);
    ClustersHold(off + n, csz);
    TimesMono(ClustersFor(off + n, csz), clusters, csz);
    TimesLess(ClusterNo(off, csz), clusters, csz);
  }

  /** `exfat_write` through a handle of file `k`: -1 when the volume is too full, else the length. */
  ghost function Write(g: Geo, fs: FS, k: nat, off: nat, data: seq<byte>): (r: (FS, int))
    requires Good(g, fs) && k < |fs.chains|
  {
    if data == [] then (fs, 0)
    else
      var needed := ClustersFor(off + |data|, g.csz);
      var fs1 := GrownFS(g, fs, k, needed);
      if !Grow(g, fs, k, needed).ok then (fs1, -1)
      else
        GrownFits(g, fs, k, off, data);
        var r, q, skip := Listing(g, fs1.v)[k], ClusterNo(off, g.csz), InCluster(off, g.csz);
        (FS(Put(g, fs1.v, k, r, fs1.chains[k], off, q, skip, data), fs1.chains), |data|)
  }

  lemma GrownFits(g: Geo, fs: FS, k: nat, off: nat, data: seq<byte>)
    requires Good(g, fs) && k < |fs.chains| && data != []
    requires Grow(g, fs, k, ClustersFor(off + |data|, g.csz)).ok
    ensures var fs1 := GrownFS(g, fs, k, ClustersFor(off + |data|, g.csz));
            && Good(g, fs1) && k < |Listing(g, fs1.v)| && Listing(g, fs1.v)[k].size < TWO64 && off + |data| < TWO63
            && Fits(g, fs1.v, k, Listing(g, fs1.v)[k], fs1.chains[k], off, ClusterNo(off, g.csz),
               InCluster(off, g.csz), data)
  {
    var needed := ClustersFor(off + |data|, g.csz);
    GrowKeepsFiles(g, fs, k, needed);
    GrowExtends(g, fs, k, needed);
    GoodFits(g, GrownFS(g, fs, k, needed), k, off, data);
    ChainRoom(g, GrownFS(g, fs, k, needed), k);
  }

  /** What fits on a chain is smaller than 2^63 bytes. */
  lemma ChainRoom(g: Geo, fs: FS, k: nat)
    requires Good(g, fs) && k < |fs.chains|
    ensures Times(|fs.chains[k]|, g.csz) <= Times(|fs.v.fat|, g.csz) < TWO63
  {
    assert FileOk(g, fs.v, Listing(g, fs.v)[k], fs.chains[k]);
    ChainBound(fs.v.fat, fs.chains[k]);
    TimesMono(|fs.chains[k]|, |fs.v.fat|, g.csz);
  }

  /** `exfat_write` keeps the volume well formed; when it succeeds the buffer lies over the bytes on the file's
      chain, and no other file changes; when it fails no file changes. */
  lemma WriteSplices(g: Geo, fs: FS, k: nat, off: nat, data: seq<byte>)
    requires Good(g, fs) && k < |fs.chains|
    ensures var (fs', rc) := Write(g, fs, k, off, data);
            var f := Files(g, fs)[k];
            && Good(g, fs')
            && (rc > 0 ==>
                  Files(g, fs') == Files(g, fs)[k := File(f.name, Overlaid(Stored(g, fs, k), |f.data|, off, data))])
            && (rc <= 0 ==> Files(g, fs') == Files(g, fs))
            && (Clean(g, fs) ==> Clean(g, fs'))
  {
    if data != [] {
      var needed := ClustersFor(off + |data|, g.csz);
      GrowKeepsFiles(g, fs, k, needed);
      if Grow(g, fs, k, needed).ok {
        var fs1 := GrownFS(g, fs, k, needed);
        GrownFits(g, fs, k, off, data);
        PutOnGood(g, fs1, k, off, data);
        var s := Stored(g, fs, k);
        OverlaidGrown(s, |Stored(g, fs1, k)| - |s|, |Files(g, fs)[k].data|, off, data);
      }
    }
  }

  /** A successful write makes the file that the caller expects - the old bytes, zero-filled up to `off`, with
      `data` spliced in - exactly when the chain's bytes between the old end of the file and `off` are zero. */
  lemma WriteIsExpectedIff(g: Geo, fs: FS, k: nat, off: nat, data: seq<byte>)
    requires Good(g, fs) && k < |fs.chains| && Write(g, fs, k, off, data).1 > 0
    ensures Good(g, Write(g, fs, k, off, data).0)
    ensures var f := Files(g, fs)[k];
            Files(g, Write(g, fs, k, off, data).0) == Files(g, fs)[k := File(f.name, Written(f.data, off, data))] <==>
            ZeroBetween(Stored(g, fs, k), |f.data|, off)
  {
    var f, fs' := Files(g, fs)[k], Write(g, fs, k, off, data).0;
    WriteSplices(g, fs, k, off, data);
    OverlaidIsWrittenIff(Stored(g, fs, k), |f.data|, off, data);
    assert Files(g, fs')[k].data == Overlaid(Stored(g, fs, k), |f.data|, off, data);
    assert Files(g, fs)[k := File(f.name, Written(f.data, off, data))][k].data == Written(f.data, off, data);
  }

  lemma PutOnGood(g: Geo, fs: FS, k: nat, off: nat, data: seq<byte>)
    requires Good(g, fs) && k < |fs.chains| && off + |data| < TWO64 && Listing(g, fs.v)[k].size < TWO64
    requires Fits(g, fs.v, k, Listing(g, fs.v)[k], fs.chains[k], off, ClusterNo(off, g.csz), InCluster(off, g.csz),
             data)
    ensures var r := Listing(g, fs.v)[k];
            var v' := Put(g, fs.v, k, r, fs.chains[k], off, ClusterNo(off, g.csz), InCluster(off, g.csz), data);
            var fs', f := FS(v', fs.chains), Files(g, fs)[k];
            && Good(g, fs')
            && Files(g, fs') == Files(g, fs)[k := File(f.name, Overlaid(Stored(g, fs, k), |f.data|, off, data))]
            && (Clean(g, fs) ==> Clean(g, fs'))
  {
    var r, ch, q, skip := Listing(g, fs.v)[k], fs.chains[k], ClusterNo(off, g.csz), InCluster(off, g.csz);
    PutShape(g, fs.v, k, r, ch, off, q, skip, data);
    PutWrites(g, fs, k, off, data, Put(g, fs.v, k, r, ch, off, q, skip, data));
  }

  /** `exfat_write` of an empty buffer does nothing. Otherwise it succeeds exactly when the missing clusters are
      free; then the chain has as many clusters as the bytes take, or as it had if those are more. If it fails, no
      cluster is left free. */
  lemma WriteSucceeds(g: Geo, fs: FS, k: nat, off: nat, data: seq<byte>)
    requires Good(g, fs) && k < |fs.chains|
    ensures var (fs', rc) := Write(g, fs, k, off, data);
            var had, needed := |fs.chains[k]|, ClustersFor(off + |data|, g.csz);
            if data == [] then fs' == fs && rc == 0
            else
              && rc == (if needed <= had + |FreeClusters(fs.v.fat)| then |data| else -1)
              && k < |fs'.chains| && (rc > 0 ==> |fs'.chains[k]| == if had < needed then needed else had)
              && (rc < 0 ==> FirstFree(fs'.v.fat, 2) == 0)
  {
    var ch, needed := fs.chains[k], ClustersFor(off + |data|, g.csz);
    assert FileOk(g, fs.v, Listing(g, fs.v)[k], ch);
    ExtendSucceeds(fs.v, g.csz, Last(ch), if needed > |ch| then needed - |ch| else 0);
    GrowExtends(g, fs, k, needed);
  }

  // ----- offsets whose end wraps -----

  /** The clusters that `exfat_write` asks for: the end and the rounding are 64-bit sums. */
  function NeededFor(off: nat, len: nat, csz: nat): nat
    requires 0 < csz
  {
    W64(W64(off + len) + csz - 1) / csz
  }

  ghost predicate Wraps(off: nat, len: nat, csz: nat) {
    off + len + csz > TWO64
  }

  lemma NeededWithoutWrap(off: nat, len: nat, csz: nat)
    requires 0 < csz && !Wraps(off, len, csz)
    ensures NeededFor(off, len, csz) == ClustersFor(off + len, csz)
  {
    Unwrapped(off + len);
    Unwrapped(off + len + csz - 1);
    ClusterArithmetic(off + len, csz);
  }

  /** An offset whose end wraps is further out than all clusters of the volume. */
  lemma WrapsBeyond(g: Geo, v: Vol, off: nat, len: nat)
    requires GoodGeo(g, v) && 0 < len < TWO63 && Wraps(off, len, g.csz)
    ensures |v.fat| <= ClusterNo(off, g.csz) && |v.fat| < ClustersFor(off + len, g.csz)
  {
    assert off > TWO63 - g.csz;
    BeyondCluster(off, g.csz, |v.fat|);
    ClustersHold(off + len, g.csz);
    TimesLess(ClustersFor(off + len, g.csz), |v.fat|, g.csz);
  }

  lemma BeyondCluster(off: nat, csz: nat, n: nat)
    requires 0 < csz && Times(n, csz) <= off
    ensures n <= ClusterNo(off, csz)
  {
    Placed(off, csz);
    TimesLess(n, ClusterNo(off, csz) + 1, csz);
    TimesLess(ClusterNo(off, csz) + 1, n, csz);
  }

  /** The cluster of a byte inside the first `n` clusters is one of them. */
  lemma InsideCluster(off: nat, len: nat, csz: nat)
    requires 0 < csz && 0 < len
    ensures ClusterNo(off, csz) < ClustersFor(off + len, csz)
  {
    Placed(off, csz);
    ClustersHold(off + len, csz);
    TimesLess(ClustersFor(off + len, csz), ClusterNo(off, csz), csz);
  }

  /** The chain that `ensure_chain_length` leaves, in 64-bit arithmetic. */
  ghost function EnsuredFS(g: Geo, fs: FS, k: nat, off: nat, data: seq<byte>): FS
    requires Good(g, fs) && k < |fs.chains|
  {
    GrownFS(g, fs, k, NeededFor(off, |data|, g.csz))
  }

  ghost predicate Reaches(g: Geo, fs: FS, k: nat, off: nat, data: seq<byte>)
    requires Good(g, fs) && k < |fs.chains|
  {
    Grow(g, fs, k, NeededFor(off, |data|, g.csz)).ok
  }

  /** The extra allocation in the search for the first cluster runs - the search gets to the end of the chain
      that was just ensured - exactly when the end of the write wraps. */
  lemma ExtraAllocationIff(g: Geo, fs: FS, k: nat, off: nat, data: seq<byte>)
    requires Good(g, fs) && k < |fs.chains| && data != [] && |data| < TWO63 && Reaches(g, fs, k, off, data)
    ensures ClusterNo(off, g.csz) >= |EnsuredFS(g, fs, k, off, data).chains[k]| <==> Wraps(off, |data|, g.csz)
  {
    var needed, fs1 := NeededFor(off, |data|, g.csz), EnsuredFS(g, fs, k, off, data);
    GrowKeepsFiles(g, fs, k, needed);
    GrowExtends(g, fs, k, needed);
    if Wraps(off, |data|, g.csz) {
      WrapsBeyond(g, fs1.v, off, |data|);
      assert FileOk(g, fs1.v, Listing(g, fs1.v)[k], fs1.chains[k]);
      ChainBound(fs1.v.fat, fs1.chains[k]);
    } else {
      NeededWithoutWrap(off, |data|, g.csz);
      InsideCluster(off, |data|, g.csz);
    }
  }

  /** Such a write fails and links every free cluster behind the file, as one that asks for too many does. */
  lemma WrappedWriteFills(g: Geo, fs: FS, k: nat, off: nat, data: seq<byte>)
    requires Good(g, fs) && k < |fs.chains| && data != [] && |data| < TWO63 && Wraps(off, |data|, g.csz)
    ensures Write(g, fs, k, off, data).1 == -1 && FirstFree(Write(g, fs, k, off, data).0.v.fat, 2) == 0
    ensures !Reaches(g, fs, k, off, data) ==> EnsuredFS(g, fs, k, off, data) == Write(g, fs, k, off, data).0
    ensures Reaches(g, fs, k, off, data) ==>
              var fs1 := EnsuredFS(g, fs, k, off, data);
              && k < |fs1.chains| && 0 < |fs1.chains[k]| && Last(fs1.chains[k]) < |fs1.v.fat| == |fs1.v.heap|
              && var ch, q := fs1.chains[k], ClusterNo(off, g.csz);
              && |ch| <= q
              && var y := Extend(fs1.v, g.csz, Last(ch), q + 1 - |ch|);
              !y.ok && FS(y.v, fs1.chains[k := ch + y.added]) == Write(g, fs, k, off, data).0
  {
    var ch, needed, big := fs.chains[k], NeededFor(off, |data|, g.csz), ClustersFor(off + |data|, g.csz);
    var x := Grow(g, fs, k, big);
    GrowExtends(g, fs, k, big);
    WrapsBeyond(g, fs.v, off, |data|);
    if x.ok { ChainBound(x.v.fat, ch + x.added); }
    if Reaches(g, fs, k, off, data) {
      WrappedSearch(g, fs, k, off, data, big);
    } else {
      ExtendSaturates(fs.v, g.csz, Last(ch), needed - |ch|, big - |ch|);
    }
  }

  lemma WrappedSearch(g: Geo, fs: FS, k: nat, off: nat, data: seq<byte>, big: nat)
    requires Good(g, fs) && k < |fs.chains| && data != [] && |data| < TWO63 && Wraps(off, |data|, g.csz)
    requires Reaches(g, fs, k, off, data) && !Grow(g, fs, k, big).ok
    ensures var fs1 := EnsuredFS(g, fs, k, off, data);
            && k < |fs1.chains| && 0 < |fs1.chains[k]| && Last(fs1.chains[k]) < |fs1.v.fat| == |fs1.v.heap|
            && var ch, q := fs1.chains[k], ClusterNo(off, g.csz);
            && |ch| <= q
            && var y := Extend(fs1.v, g.csz, Last(ch), q + 1 - |ch|);
            !y.ok && FS(y.v, fs1.chains[k := ch + y.added]) == GrownFS(g, fs, k, big)
  {
    var ch, needed, q := fs.chains[k], NeededFor(off, |data|, g.csz), ClusterNo(off, g.csz);
    var x, fs1 := Grow(g, fs, k, needed), EnsuredFS(g, fs, k, off, data);
    GrownGood(g, fs, k, needed);
    ExtraAllocationIff(g, fs, k, off, data);
    var ch1 := fs1.chains[k];
    assert fs1.v == x.v && ch1 == ch + x.added;
    var y, z := Extend(fs1.v, g.csz, Last(ch1), q + 1 - |ch1|), Grow(g, fs, k, big);
    NoRoom(g, fs1, k, off, data, y);
    TwoExtensions(fs.v, g.csz, ch, if needed > |ch| then needed - |ch| else 0, q + 1 - |ch1|, big - |ch|, x, ch1, y, z);
  }

  lemma GrownGood(g: Geo, fs: FS, k: nat, needed: nat)
    requires Good(g, fs) && k < |fs.chains|
    ensures var fs1 := GrownFS(g, fs, k, needed);
            && Good(g, fs1) && FileOk(g, fs1.v, Listing(g, fs1.v)[k], fs1.chains[k])
            && |fs.chains[k]| > 0 && Last(fs.chains[k]) < |fs.v.fat|
  {
    GrowKeepsFiles(g, fs, k, needed);
    assert FileOk(g, fs.v, Listing(g, fs.v)[k], fs.chains[k]);
    assert FileOk(g, GrownFS(g, fs, k, needed).v, Listing(g, fs.v)[k], GrownFS(g, fs, k, needed).chains[k]);
  }

  /** Two extensions, the second of which runs out of clusters, end where any extension that does ends. */
  lemma TwoExtensions(v: Vol, csz: nat, ch: seq<nat>, a: nat, b: nat, big: nat, x: Extension, ch1: seq<nat>,
                      y: Extension, z: Extension)
    requires |v.heap| == |v.fat| && 0 < |ch| && Last(ch) < |v.fat| && x == Extend(v, csz, Last(ch), a) && x.ok
    requires ch1 == ch + x.added && Last(ch1) < |x.v.fat| && y == Extend(x.v, csz, Last(ch1), b) && !y.ok
    requires z == Extend(v, csz, Last(ch), big) && !z.ok
    ensures z.v == y.v && ch + z.added == ch1 + y.added
  {
    assert Last(ch1) == EndOf(Last(ch), x);
    ExtendTwice(v, csz, Last(ch), a, b);
    ExtendSaturates(v, csz, Last(ch), a + b, big);
    assert ch + (x.added + y.added) == ch1 + y.added;
  }

  /** A chain cannot get as long as such a search wants. */
  lemma NoRoom(g: Geo, fs: FS, k: nat, off: nat, data: seq<byte>, y: Extension)
    requires Good(g, fs) && k < |fs.chains| && 0 < |data| < TWO63 && Wraps(off, |data|, g.csz)
    requires |fs.chains[k]| <= ClusterNo(off, g.csz)
    requires FileOk(g, fs.v, Listing(g, fs.v)[k], fs.chains[k])
    requires y == Extend(fs.v, g.csz, Last(fs.chains[k]), ClusterNo(off, g.csz) + 1 - |fs.chains[k]|)
    ensures !y.ok
  {
    var ch := fs.chains[k];
    ExtendChain(fs.v, g.csz, ch, ClusterNo(off, g.csz) + 1 - |ch|);
    WrapsBeyond(g, fs.v, off, |data|);
    ChainBound(y.v.fat, ch + y.added);
  }

  /** An input of this kind: one byte at the last 64-bit offset. */
  lemma LastOffsetWraps(csz: nat)
    requires 0 < csz
    ensures Wraps(TWO64 - 1, 1, csz) && (csz < TWO64 ==> NeededFor(TWO64 - 1, 1, csz) == 0)
  {
    if csz < TWO64 {
      Unwrapped(csz - 1);
      assert W64(TWO64 - 1 + 1) == 0;
    }
  }

  // ----- read -----

  /** What `exfat_read` returns of a file: the requested slice, clipped to the file's end. */
  function Slice(f: seq<byte>, off: nat, len: nat): seq<byte> {
    if off >= |f| then [] else f[off..off + Min(len, |f| - off)]
  }

  /** Byte by byte: all the bytes of the request that the file has, and no other. */
  lemma SliceHas(f: seq<byte>, off: nat, len: nat, i: nat)
    ensures i < |Slice(f, off, len)| <==> i < len && off + i < |f|
    ensures i < |Slice(f, off, len)| ==> Slice(f, off, len)[i] == f[off + i]
  {
  }

  /** After every successful write, reading where it went returns what was written. */
  lemma ReadBack(g: Geo, fs: FS, k: nat, off: nat, data: seq<byte>)
    requires Good(g, fs) && k < |fs.chains| && Write(g, fs, k, off, data).1 > 0
    ensures var fs' := Write(g, fs, k, off, data).0;
            Good(g, fs') && k < |fs'.chains| && Slice(Files(g, fs')[k].data, off, |data|) == data
  {
    WriteSplices(g, fs, k, off, data);
    var fs' := Write(g, fs, k, off, data).0;
    OverlaidAt(Stored(g, fs, k), |Files(g, fs)[k].data|, off, data);
    assert Files(g, fs')[k].data == Overlaid(Stored(g, fs, k), |Files(g, fs)[k].data|, off, data);
  }

  /** Elsewhere in the file are its old bytes, and in a gap behind its old end what the chain held there, or zeros
      where the chain is new. */
  lemma ReadElsewhere(g: Geo, fs: FS, k: nat, off: nat, data: seq<byte>, p: nat)
    requires Good(g, fs) && k < |fs.chains| && Write(g, fs, k, off, data).1 > 0
    requires p < NewSize(|Files(g, fs)[k].data|, off, data) && !(off <= p < off + |data|)
    ensures var fs', s := Write(g, fs, k, off, data).0, Stored(g, fs, k);
            && Good(g, fs') && k < |fs'.chains| && p < |Files(g, fs')[k].data|
            && Files(g, fs')[k].data[p] == if p < |s| then s[p] else 0
  {
    WriteSplices(g, fs, k, off, data);
    OverlaidAt(Stored(g, fs, k), |Files(g, fs)[k].data|, off, data);
  }

  // ----- unlink -----

  /** `exfat_unlink`: free the chain, zero the entry set, which makes its slot the end mark. */
  ghost function Unlink(g: Geo, fs: FS, name: seq<byte>): (r: (FS, int))
    requires Good(g, fs)
  {
    var recs := Listing(g, fs.v);
    var k := Find(recs, name, 0);
    if name == [] || k == |recs| then (fs, -1)
    else
      var es := Cut(fs.v.heap[g.root]);
      UnlinkFits(g, fs, k);
      (FS(Vol(Release(fs.v.fat, fs.chains[k]), fs.v.heap[g.root := Paste(EraseAt(es, recs[k].slot))]),
        fs.chains[..k]), 0)
  }

  lemma UnlinkFits(g: Geo, fs: FS, k: nat)
    requires Good(g, fs) && k < |fs.chains|
    ensures IsChain(fs.v.fat, fs.chains[k]) && g.root !in fs.chains[k]
    ensures var es, r := Cut(fs.v.heap[g.root]), Listing(g, fs.v)[k]; ListedAt(es, 0, k, r) && HasStream(es, r.slot)
  {
    assert FileOk(g, fs.v, Listing(g, fs.v)[k], fs.chains[k]);
    RecsAreListed(Cut(fs.v.heap[g.root]), 0, k);
  }

  /** The clusters of `ch` are free, and no other changed hands. */
  ghost predicate Freed(fat: seq<nat>, ch: seq<nat>, fat': seq<nat>) {
    |fat'| == |fat| && forall c :: 0 <= c < |fat| ==> fat'[c] == if c in ch then 0 else fat[c]
  }

  /** Removing a file frees exactly its clusters and cuts the list off in front of it. */
  lemma UnlinkCutsOff(g: Geo, fs: FS, name: seq<byte>)
    requires Good(g, fs)
    ensures var (fs', rc) := Unlink(g, fs, name);
            var k := Find(Listing(g, fs.v), name, 0);
            && Good(g, fs')
            && (rc == 0 <==> name != [] && k < |fs.chains|)
            && (if rc == 0
                then
                  && Files(g, fs') == Files(g, fs)[..k] && Listing(g, fs'.v) == Listing(g, fs.v)[..k]
                  && Freed(fs.v.fat, fs.chains[k], fs'.v.fat)
                else fs' == fs)
            && (Clean(g, fs) ==> Clean(g, fs'))
  {
    var (fs', rc) := Unlink(g, fs, name);
    var k := Find(Listing(g, fs.v), name, 0);
    if rc == 0 {
      UnlinkFits(g, fs, k);
      ReleaseFrees(fs.v.fat, fs.chains[k]);
      UnlinkShape(g, fs, k, fs'.v);
      EarlierFilesStay(g, fs, k, fs'.v);
    }
  }

  /** Dropping the files from the `k`-th on spares the earlier ones. */
  lemma EarlierFilesStay(g: Geo, fs: FS, k: nat, v': Vol)
    requires Good(g, fs) && k < |fs.chains| && GoodGeo(g, v') && |v'.fat| == |fs.v.fat|
    requires Listing(g, v') == Listing(g, fs.v)[..k]
    requires forall c :: 0 <= c < |v'.fat| && c !in fs.chains[k] ==> v'.fat[c] == fs.v.fat[c]
    requires forall c :: 0 <= c < |v'.fat| && c != g.root ==> v'.heap[c] == fs.v.heap[c]
    ensures Good(g, FS(v', fs.chains[..k])) && Files(g, FS(v', fs.chains[..k])) == Files(g, fs)[..k]
    ensures Clean(g, fs) ==> Clean(g, FS(v', fs.chains[..k]))
  {
    var recs := Listing(g, fs.v);
    forall j | 0 <= j < k
      ensures SameFile(g, fs.v, v', recs[j], fs.chains[j])
    {
      assert FileOk(g, fs.v, recs[j], fs.chains[j]) && Apart(fs.chains[j], fs.chains[k]);
      FileFrame(g, fs.v, v', recs[j], fs.chains[j]);
    }
    var fs' := FS(v', fs.chains[..k]);
    assert Good(g, fs');
    forall j | 0 <= j < |fs'.chains| && Clean(g, fs)
      ensures ZeroFrom(Stored(g, fs', j), |Files(g, fs')[j].data|)
    {
      assert Stored(g, fs', j) == Stored(g, fs, j);
    }
  }

  lemma UnlinkShape(g: Geo, fs: FS, k: nat, v': Vol)
    requires Good(g, fs) && k < |fs.chains|
    requires HasStream(Cut(fs.v.heap[g.root]), Listing(g, fs.v)[k].slot)
    requires forall i :: 0 <= i < |fs.chains[k]| ==> fs.chains[k][i] < |fs.v.fat|
    requires v' == Vol(Release(fs.v.fat, fs.chains[k]),
                       fs.v.heap[g.root := Paste(EraseAt(Cut(fs.v.heap[g.root]), Listing(g, fs.v)[k].slot))])
    ensures GoodGeo(g, v') && |v'.fat| == |fs.v.fat|
    ensures Listing(g, v') == Listing(g, fs.v)[..k]
  {
    var es, r := Cut(fs.v.heap[g.root]), Listing(g, fs.v)[k];
    UnlinkFits(g, fs, k);
    ReleaseFrees(fs.v.fat, fs.chains[k]);
    CutPaste(EraseAt(es, r.slot));
    EraseLists(es, r.slot);
  }

  /** Removing a file removes that one name exactly when it is listed last. */
  lemma UnlinkRemovesOne(g: Geo, fs: FS, name: seq<byte>)
    requires Good(g, fs) && Unlink(g, fs, name).1 == 0
    ensures Good(g, Unlink(g, fs, name).0)
    ensures var k := Find(Listing(g, fs.v), name, 0);
            && k < |fs.chains|
            && (Files(g, Unlink(g, fs, name).0) == Files(g, fs)[..k] + Files(g, fs)[k + 1..] <==> k == |fs.chains| - 1)
  {
    UnlinkCutsOff(g, fs, name);
    var k := Find(Listing(g, fs.v), name, 0);
    var all := Files(g, fs);
    if k < |all| - 1 {
      assert |all[..k] + all[k + 1..]| > k;
    } else {
      assert all[..k] + all[k + 1..] == all[..k];
    }
  }

  /** The clusters of the files listed behind a removed one stay taken, though nothing lists them. */
  lemma UnlinkLosesClusters(g: Geo, fs: FS, name: seq<byte>, j: nat, i: nat)
    requires Good(g, fs) && Unlink(g, fs, name).1 == 0
    requires Find(Listing(g, fs.v), name, 0) < j < |fs.chains| && i < |fs.chains[j]|
    ensures fs.chains[j][i] < |fs.v.fat| && Unlink(g, fs, name).0.v.fat[fs.chains[j][i]] != 0
  {
    var k := Find(Listing(g, fs.v), name, 0);
    UnlinkFits(g, fs, k);
    UnlinkFits(g, fs, j);
    assert Apart(fs.chains[k], fs.chains[j]);
    ReleaseFrees(fs.v.fat, fs.chains[k]);
    ChainInUse(fs.v.fat, fs.chains[j], i);
  }

  /** The first cluster tells the listed files apart. */
  lemma FirstClusterFinds(g: Geo, fs: FS, k: nat)
    requires Good(g, fs) && k < |fs.chains|
    ensures FindCluster(Listing(g, fs.v), Listing(g, fs.v)[k].first, 0) == k
  {
    var recs := Listing(g, fs.v);
    assert FileOk(g, fs.v, recs[k], fs.chains[k]);
    forall j | 0 <= j < k
      ensures recs[j].first != recs[k].first
    {
      assert FileOk(g, fs.v, recs[j], fs.chains[j]) && Apart(fs.chains[j], fs.chains[k]);
    }
  }
}

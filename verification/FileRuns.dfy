/** Every run of create, write and unlink on a well-formed volume (fs/exfat.c). */
module FileRuns {
  import opened Bytes
  import opened FatChain
  import opened FileData
  import opened Directory
  import opened FileStore

  /** A call: `DoWrite` goes through a handle of the `k`-th listed file. */
  datatype Op = DoCreate(name: seq<byte>) | DoWrite(k: nat, off: nat, data: seq<byte>) | DoUnlink(name: seq<byte>)

  ghost predicate OpOk(op: Op) {
    op.DoCreate? ==> NonZero(op.name)
  }

  /** The `k`-th listed file is there and is not a directory, which writing refuses. */
  ghost predicate Writable(g: Geo, fs: FS, k: nat)
    requires Good(g, fs)
  {
    k < |fs.chains| && !Listing(g, fs.v)[k].isDir
  }

  ghost function Step(g: Geo, fs: FS, op: Op): (FS, int)
    requires Good(g, fs) && OpOk(op)
  {
    match op
    case DoCreate(name) => Create(g, fs, name)
    case DoWrite(k, off, data) => if Writable(g, fs, k) then Write(g, fs, k, off, data) else (fs, -1)
    case DoUnlink(name) => Unlink(g, fs, name)
  }

  /** The same call on a list of named byte sequences, given the return code it had. */
  ghost function Replay1(files: seq<File>, op: Op, rc: int): seq<File> {
    if rc < 0 then files else
      match op
      case DoCreate(name) => files + [File(Shown(name), [])]
      case DoWrite(k, off, data) =>
        if k < |files| && data != [] then files[k := File(files[k].name, Written(files[k].data, off, data))] else files
      case DoUnlink(name) => files[..FindFile(files, name, 0)]
  }

  ghost function FindFile(files: seq<File>, name: seq<byte>, i: nat): (k: nat)
    requires i <= |files|
    ensures i <= k <= |files|
    decreases |files| - i
  {
    if i == |files| || files[i].name == name then i else FindFile(files, name, i + 1)
  }

  lemma {:induction false} FindsSame(g: Geo, fs: FS, name: seq<byte>, i: nat)
    requires Good(g, fs) && i <= |fs.chains|
    ensures Find(Listing(g, fs.v), name, i) == FindFile(Files(g, fs), name, i)
    decreases |fs.chains| - i
  {
    if i < |fs.chains| {
      assert FileOk(g, fs.v, Listing(g, fs.v)[i], fs.chains[i]);
      FindsSame(g, fs, name, i + 1);
    }
  }

  /** A write that makes old bytes behind the end of the file part of the file. */
  ghost predicate Uncovers(g: Geo, fs: FS, op: Op)
    requires Good(g, fs)
  {
    && op.DoWrite? && Writable(g, fs, op.k) && Write(g, fs, op.k, op.off, op.data).1 > 0
    && !ZeroBetween(Stored(g, fs, op.k), |Files(g, fs)[op.k].data|, op.off)
  }

  /** Each call does to the volume what it does to the list of named byte sequences, exactly when it uncovers
      no old bytes; from a clean volume it never does, and the volume stays clean. */
  lemma StepRefines(g: Geo, fs: FS, op: Op)
    requires Good(g, fs) && OpOk(op)
    ensures var (fs', rc) := Step(g, fs, op);
            && Good(g, fs') && (Files(g, fs') == Replay1(Files(g, fs), op, rc) <==> !Uncovers(g, fs, op))
            && (Clean(g, fs) ==> Clean(g, fs') && !Uncovers(g, fs, op))
  {
    match op
    case DoCreate(name) => CreateAppends(g, fs, name);
    case DoWrite(k, off, data) => if Writable(g, fs, k) { WriteRefines(g, fs, k, off, data); }
    case DoUnlink(name) =>
      UnlinkCutsOff(g, fs, name);
      FindsSame(g, fs, name, 0);
  }

  lemma WriteRefines(g: Geo, fs: FS, k: nat, off: nat, data: seq<byte>)
    requires Good(g, fs) && Writable(g, fs, k)
    ensures var (fs', rc) := Write(g, fs, k, off, data);
            var op := DoWrite(k, off, data);
            && Good(g, fs') && (Files(g, fs') == Replay1(Files(g, fs), op, rc) <==> !Uncovers(g, fs, op))
            && (Clean(g, fs) ==> Clean(g, fs') && !Uncovers(g, fs, op))
  {
    WriteSplices(g, fs, k, off, data);
    if Write(g, fs, k, off, data).1 > 0 { WriteIsExpectedIff(g, fs, k, off, data); }
    if Clean(g, fs) { assert ZeroFrom(Stored(g, fs, k), |Files(g, fs)[k].data|); }
  }

  ghost predicate OpsOk(ops: seq<Op>) {
    forall i :: 0 <= i < |ops| ==> OpOk(ops[i])
  }

  /** Run the calls in order; the result is the last volume and the return codes. */
  ghost function Run(g: Geo, fs: FS, ops: seq<Op>): (r: (FS, seq<int>))
    requires Good(g, fs) && OpsOk(ops)
    ensures |r.1| == |ops|
    decreases |ops|
  {
    if ops == [] then (fs, []) else
      StepRefines(g, fs, ops[0]);
      var (fs', rc) := Step(g, fs, ops[0]);
      var (fs'', rcs) := Run(g, fs', ops[1..]);
      (fs'', [rc] + rcs)
  }

  ghost function Replay(files: seq<File>, ops: seq<Op>, rcs: seq<int>): seq<File>
    requires |ops| == |rcs|
    decreases |ops|
  {
    if ops == [] then files else Replay(Replay1(files, ops[0], rcs[0]), ops[1..], rcs[1..])
  }

  ghost predicate NeverUncovers(g: Geo, fs: FS, ops: seq<Op>)
    requires Good(g, fs) && OpsOk(ops)
    decreases |ops|
  {
    if ops == [] then true
    else
      StepRefines(g, fs, ops[0]);
      !Uncovers(g, fs, ops[0]) && NeverUncovers(g, Step(g, fs, ops[0]).0, ops[1..])
  }

  /** Over every run the volume stays well formed - disjoint, acyclic, ended chains - and, as long as no write
      uncovers old bytes, behaves as the list of named byte sequences does; a run from a clean volume never
      uncovers any. */
  lemma {:induction false} RunRefines(g: Geo, fs: FS, ops: seq<Op>)
    requires Good(g, fs) && OpsOk(ops)
    ensures var (fs', rcs) := Run(g, fs, ops);
            && Good(g, fs')
            && (NeverUncovers(g, fs, ops) ==> Files(g, fs') == Replay(Files(g, fs), ops, rcs))
            && (Clean(g, fs) ==> Clean(g, fs') && NeverUncovers(g, fs, ops))
    decreases |ops|
  {
    if ops != [] {
      StepRefines(g, fs, ops[0]);
      var (fs', rc) := Step(g, fs, ops[0]);
      RunRefines(g, fs', ops[1..]);
      var rcs := Run(g, fs', ops[1..]).1;
      assert ([rc] + rcs)[1..] == rcs;
    }
  }

  // ----- a file's whole life leaves no trace -----

  /** `fs'` is `fs` plus one file, listed last, on clusters that were free in `fs`. */
  ghost predicate OneMore(g: Geo, fs: FS, fs': FS, name: seq<byte>)
    requires Good(g, fs) && Good(g, fs')
  {
    var n := |fs.chains|;
    && |fs'.chains| == n + 1 && |fs'.v.fat| == |fs.v.fat|
    && Listing(g, fs'.v)[..n] == Listing(g, fs.v) && Listing(g, fs'.v)[n].name == name
    && (forall i :: 0 <= i < |fs'.chains[n]| ==> fs'.chains[n][i] < |fs.v.fat| && fs.v.fat[fs'.chains[n][i]] == 0)
    && (forall c :: 0 <= c < |fs.v.fat| && c !in fs'.chains[n] ==> fs'.v.fat[c] == fs.v.fat[c])
  }

  lemma CreateIsOneMore(g: Geo, fs: FS, name: seq<byte>)
    requires Good(g, fs) && NonZero(name) && Create(g, fs, name).1 == 0
    ensures Good(g, Create(g, fs, name).0) && OneMore(g, fs, Create(g, fs, name).0, Shown(name))
  {
    CreateAppends(g, fs, name);
    CreateShape(g, fs, name);
  }

  lemma WriteKeepsOneMore(g: Geo, fs: FS, fs': FS, name: seq<byte>, off: nat, data: seq<byte>)
    requires Good(g, fs) && Good(g, fs') && OneMore(g, fs, fs', name)
    ensures var fs'' := Write(g, fs', |fs.chains|, off, data).0;
            Good(g, fs'') && OneMore(g, fs, fs'', name)
  {
    var n := |fs.chains|;
    WriteSplices(g, fs', n, off, data);
    if data != [] {
      var needed := ClustersFor(off + |data|, g.csz);
      GrowKeepsFiles(g, fs', n, needed);
      GrowKeepsOneMore(g, fs, fs', name, needed);
      if Grow(g, fs', n, needed).ok {
        GrownFits(g, fs', n, off, data);
        PutKeepsOneMore(g, fs, GrownFS(g, fs', n, needed), name, off, data);
      }
    }
  }

  lemma GrowKeepsOneMore(g: Geo, fs: FS, fs': FS, name: seq<byte>, needed: nat)
    requires Good(g, fs) && Good(g, fs') && OneMore(g, fs, fs', name)
    requires Good(g, GrownFS(g, fs', |fs.chains|, needed))
    ensures OneMore(g, fs, GrownFS(g, fs', |fs.chains|, needed), name)
  {
    var n := |fs.chains|;
    var ch, x := fs'.chains[n], Grow(g, fs', n, needed);
    assert FileOk(g, fs'.v, Listing(g, fs'.v)[n], ch);
    GrowExtends(g, fs', n, needed);
    forall i | 0 <= i < |x.added|
      ensures x.added[i] < |fs.v.fat| && fs.v.fat[x.added[i]] == 0
    {
      if x.added[i] in ch {
        var j :| 0 <= j < |ch| && ch[j] == x.added[i];
        ChainInUse(fs'.v.fat, ch, j);
        assert false;
      }
    }
    assert Last(ch) in ch;
  }

  lemma PutKeepsOneMore(g: Geo, fs: FS, fs': FS, name: seq<byte>, off: nat, data: seq<byte>)
    requires Good(g, fs) && Good(g, fs') && OneMore(g, fs, fs', name) && off + |data| < TWO64
    requires Listing(g, fs'.v)[|fs.chains|].size < TWO64
    requires Fits(g, fs'.v, |fs.chains|, Listing(g, fs'.v)[|fs.chains|], fs'.chains[|fs.chains|],
                  off, ClusterNo(off, g.csz), InCluster(off, g.csz), data)
    ensures var n := |fs.chains|;
            var v' := Put(g, fs'.v, n, Listing(g, fs'.v)[n], fs'.chains[n], off, ClusterNo(off, g.csz),
              InCluster(off, g.csz), data);
            var fs'' := FS(v', fs'.chains);
            Good(g, fs'') && OneMore(g, fs, fs'', name)
  {
    var n := |fs.chains|;
    PutOnGood(g, fs', n, off, data);
    PutShape(g, fs'.v, n, Listing(g, fs'.v)[n], fs'.chains[n], off, ClusterNo(off, g.csz), InCluster(off, g.csz), data);
  }

  /** Removing that file again restores the whole FAT and the listing. */
  lemma UnlinkUndoes(g: Geo, fs: FS, fs': FS, name: seq<byte>)
    requires Good(g, fs) && Good(g, fs') && OneMore(g, fs, fs', name) && name != []
    requires forall i :: 0 <= i < |fs.chains| ==> Listing(g, fs.v)[i].name != name
    ensures var (fs'', rc) := Unlink(g, fs', name);
            && rc == 0 && Good(g, fs'')
            && fs''.v.fat == fs.v.fat && Listing(g, fs''.v) == Listing(g, fs.v)
  {
    var n := |fs.chains|;
    UnlinkCutsOff(g, fs', name);
    var recs := Listing(g, fs'.v);
    forall i | 0 <= i < n
      ensures recs[i].uname != name
    {
      assert recs[i] == recs[..n][i] == Listing(g, fs.v)[i];
      assert FileOk(g, fs.v, Listing(g, fs.v)[i], fs.chains[i]);
    }
    assert FileOk(g, fs'.v, recs[n], fs'.chains[n]);
    assert Find(recs, name, 0) == n;
    ReleaseUndoesGrowth(fs.v, fs'.v, g.csz, fs'.chains[n]);
  }

  lemma StepKeepsCount(g: Geo, fs: FS, op: Op)
    requires Good(g, fs) && op.DoWrite?
    ensures |Step(g, fs, op).0.chains| == |fs.chains|
  {
    StepRefines(g, fs, op);
    if Writable(g, fs, op.k) { WriteSplices(g, fs, op.k, op.off, op.data); }
  }

  /** Writes at any offsets, one after the other, to the file listed at `n`. */
  ghost function WriteAll(g: Geo, fs: FS, n: nat, ws: seq<(nat, seq<byte>)>): FS
    requires Good(g, fs) && n < |fs.chains|
    decreases |ws|
  {
    if ws == [] then fs else
      var op := DoWrite(n, ws[0].0, ws[0].1);
      StepRefines(g, fs, op);
      StepKeepsCount(g, fs, op);
      WriteAll(g, Step(g, fs, op).0, n, ws[1..])
  }

  lemma {:induction false} WritesKeepOneMore(g: Geo, fs: FS, fs': FS, name: seq<byte>, ws: seq<(nat, seq<byte>)>)
    requires Good(g, fs) && Good(g, fs') && OneMore(g, fs, fs', name)
    ensures var fs'' := WriteAll(g, fs', |fs.chains|, ws);
            Good(g, fs'') && OneMore(g, fs, fs'', name)
    decreases |ws|
  {
    if ws != [] {
      var op := DoWrite(|fs.chains|, ws[0].0, ws[0].1);
      StepRefines(g, fs', op);
      if Writable(g, fs', |fs.chains|) { WriteKeepsOneMore(g, fs, fs', name, ws[0].0, ws[0].1); }
      WritesKeepOneMore(g, fs, Step(g, fs', op).0, name, ws[1..]);
    }
  }

  /** Creating a file under an absent name, writing to it any number of times - also beyond the space
      there is - and removing it while it is listed last leaves the whole FAT and the listing as they were. */
  lemma LifeLeavesNoTrace(g: Geo, fs: FS, name: seq<byte>, ws: seq<(nat, seq<byte>)>)
    requires Good(g, fs) && NonZero(name) && Create(g, fs, name).1 == 0
    requires forall i :: 0 <= i < |fs.chains| ==> Listing(g, fs.v)[i].name != Shown(name)
    ensures var fs1 := Create(g, fs, name).0;
            && Good(g, fs1) && |fs1.chains| == |fs.chains| + 1
            && var fs2 := WriteAll(g, fs1, |fs.chains|, ws);
            && Good(g, fs2)
            && var (fs3, rc) := Unlink(g, fs2, Shown(name));
            && rc == 0 && Good(g, fs3)
            && fs3.v.fat == fs.v.fat && Listing(g, fs3.v) == Listing(g, fs.v)
  {
    CreateIsOneMore(g, fs, name);
    var fs1 := Create(g, fs, name).0;
    WritesKeepOneMore(g, fs, fs1, Shown(name), ws);
    ShowChars([], name);
    UnlinkUndoes(g, fs, WriteAll(g, fs1, |fs.chains|, ws), Shown(name));
  }
}

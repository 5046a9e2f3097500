/** Volumes that show the file store's conditions at work: an empty one, one on which removing a file loses
    another, and one on which a write uncovers old bytes (fs/exfat.c). */
module FileCases {
  import opened Bytes
  import opened FatChain
  import opened FileData
  import opened Directory
  import opened FileStore
  import opened FileRuns

  /** `n` FAT entries; the root directory in cluster 2, everything zero. */
  function EmptyVolume(csz: nat, n: nat): Vol {
    Vol(seq(n, c => if c <= 2 then EOC else 0), seq(n, c => if c < 2 then [] else Zeros(csz)))
  }

  /** An empty volume of any size is well formed, clean and without files. */
  lemma EmptyVolumeIsGood(csz: nat, n: nat)
    requires 0 < csz && csz % 32 == 0 && 3 <= n < EOC && Times(n + 1, csz) <= TWO63
    ensures var g, fs := Geo(csz, 2), FS(EmptyVolume(csz, n), []);
            Good(g, fs) && Clean(g, fs) && Files(g, fs) == []
  {
    CutAt(Zeros(csz), 0);
  }

  /** The end mark moves behind a new entry set. */
  lemma EndAfterAdd(es: seq<Entry>, name: seq<byte>, first: nat)
    requires first < TWO32 && EndSlot(es, 0) + |FileSet(name, first)| < |es|
    ensures EndSlot(AddAt(es, EndSlot(es, 0), FileSet(name, first)), 0) == EndSlot(es, 0) + |FileSet(name, first)|
  {
    var d, set_ := EndSlot(es, 0), FileSet(name, first);
    SetMarked(name, first);
    AddAtShape(es, d, set_);
    EndBehind(es, AddAt(es, d, set_), d, set_);
  }

  lemma EndBehind(es: seq<Entry>, es': seq<Entry>, d: nat, set_: seq<Entry>)
    requires |es'| == |es| && d + |set_| < |es| && es'[..d] == es[..d] && es'[d..d + |set_|] == set_
    requires (forall s :: 0 <= s < d ==> es[s][0] != 0) && forall i :: 0 <= i < |set_| ==> set_[i][0] != 0
    requires es'[d + |set_|][0] == 0
    ensures EndSlot(es', 0) == d + |set_|
  {
    var e := d + |set_|;
    forall s | 0 <= s < e
      ensures es'[s][0] != 0
    {
      if s < d {
        assert es'[s] == es'[..d][s] == es[s];
      } else {
        assert es'[s] == es'[d..e][s - d];
      }
    }
    EndIs(es', e);
  }

  lemma SetMarked(name: seq<byte>, first: nat)
    requires first < TWO32
    ensures forall i :: 0 <= i < |FileSet(name, first)| ==> FileSet(name, first)[i][0] != 0
  {
    FileSetFields(name, first);
  }

  lemma EndIs(es: seq<Entry>, e: nat)
    requires e < |es| && es[e][0] == 0 && forall s :: 0 <= s < e ==> es[s][0] != 0
    ensures EndSlot(es, 0) == e
  {
  }

  /** A small volume with clusters 3 and 4 free. */
  function Small(): Geo { Geo(256, 2) }

  ghost predicate SmallOk(fs: FS, files: nat) {
    && Good(Small(), fs) && Clean(Small(), fs) && |fs.v.fat| == 5 && |fs.chains| == files
    && EndSlot(Cut(fs.v.heap[2]), 0) == 3 * files && |Cut(fs.v.heap[2])| == 8
    && forall c :: 3 + files <= c < 5 ==> fs.v.fat[c] == 0
  }

  lemma SmallEmpty()
    ensures SmallOk(FS(EmptyVolume(256, 5), []), 0)
  {
    TimesIsMul(6, 256);
    EmptyVolumeIsGood(256, 5);
    CutAt(Zeros(256), 0);
  }

  /** One more file on it, with a one-letter name. */
  lemma SmallCreate(fs: FS, files: nat, ch: byte)
    requires SmallOk(fs, files) && files < 2 && 0 < ch < 128
    requires forall c :: 2 <= c < 3 + files ==> fs.v.fat[c] != 0
    ensures var (fs', rc) := Create(Small(), fs, [ch]);
            && rc == 0 && SmallOk(fs', files + 1) && fs'.chains == fs.chains + [[3 + files]]
            && Files(Small(), fs') == Files(Small(), fs) + [File([ch], [])]
            && forall c :: 2 <= c < 4 + files ==> fs'.v.fat[c] != 0
  {
    var g, name := Small(), [ch];
    var es, cl := Cut(fs.v.heap[2]), FirstFree(fs.v.fat, 2);
    assert fs.v.fat[3 + files] == 0;
    assert cl == 3 + files;
    NameEntryCount(name);
    CreateAppends(g, fs, name);
    ShownExactly(name);
    EndAfterAdd(es, name, cl);
    CutPaste(AddAt(es, EndSlot(es, 0), FileSet(name, cl)));
  }

  /** What create lists is not a directory, and stays where it is. */
  lemma CreatedIsFile(g: Geo, fs: FS, name: seq<byte>, k: nat)
    requires Good(g, fs) && NonZero(name) && Create(g, fs, name).1 == 0
    requires k <= |fs.chains| && (k < |fs.chains| ==> !Listing(g, fs.v)[k].isDir)
    ensures Good(g, Create(g, fs, name).0) && Writable(g, Create(g, fs, name).0, k)
  {
    CreateAppends(g, fs, name);
    CreateShape(g, fs, name);
  }

  /** Two files, `a` and `b`. */
  ghost function TwoFiles(): FS {
    SmallEmpty();
    var fs1 := Create(Small(), FS(EmptyVolume(256, 5), []), [97]).0;
    SmallCreate(FS(EmptyVolume(256, 5), []), 0, 97);
    Create(Small(), fs1, [98]).0
  }

  lemma TwoFilesAre()
    ensures SmallOk(TwoFiles(), 2) && TwoFiles().chains == [[3], [4]]
    ensures Files(Small(), TwoFiles()) == [File([97], []), File([98], [])]
    ensures Writable(Small(), TwoFiles(), 0)
  {
    var fs0 := FS(EmptyVolume(256, 5), []);
    SmallEmpty();
    SmallCreate(fs0, 0, 97);
    EmptyVolumeFiles();
    SmallCreate(Create(Small(), fs0, [97]).0, 1, 98);
    CreatedIsFile(Small(), fs0, [97], 0);
    CreatedIsFile(Small(), Create(Small(), fs0, [97]).0, [98], 0);
  }

  lemma EmptyVolumeFiles()
    ensures Good(Small(), FS(EmptyVolume(256, 5), [])) && Files(Small(), FS(EmptyVolume(256, 5), [])) == []
  {
    TimesIsMul(6, 256);
    EmptyVolumeIsGood(256, 5);
  }

  /** Removing `a` makes `b` invisible too, and the cluster of `b` stays taken. */
  lemma UnlinkLosesSecondFile()
    ensures Good(Small(), TwoFiles())
    ensures var (fs, rc) := Unlink(Small(), TwoFiles(), [97]);
            rc == 0 && Good(Small(), fs) && Files(Small(), fs) == [] && |fs.v.fat| == 5 && fs.v.fat[4] != 0
              && fs.v.fat[3] == 0
  {
    TwoFilesAre();
    var g, fs := Small(), TwoFiles();
    var recs := Listing(g, fs.v);
    assert FileOk(g, fs.v, recs[0], fs.chains[0]);
    assert Files(g, fs)[0].name == recs[0].name == [97];
    assert Find(recs, [97], 0) == 0;
    UnlinkCutsOff(g, fs, [97]);
    UnlinkLosesClusters(g, fs, [97], 1, 0);
    ReleaseFrees(fs.v.fat, fs.chains[0]);
  }

  /** With one file and one free cluster, writing a byte at the last 64-bit offset fails, changes no file and
      takes the free cluster: the extra allocation has run. */
  lemma LastOffsetTakesCluster()
    ensures var g, fs := Small(), Create(Small(), FS(EmptyVolume(256, 5), []), [97]).0;
            && Good(g, fs) && |fs.chains| == 1 && |fs.v.fat| == 5 && fs.v.fat[4] == 0
            && Reaches(g, fs, 0, TWO64 - 1, [1]) && Wraps(TWO64 - 1, 1, g.csz)
            && var (fs', rc) := Write(g, fs, 0, TWO64 - 1, [1]);
            rc == -1 && Good(g, fs') && Files(g, fs') == Files(g, fs) && |fs'.v.fat| == 5 && fs'.v.fat[4] != 0
  {
    SmallEmpty();
    SmallCreate(FS(EmptyVolume(256, 5), []), 0, 97);
    var g, fs := Small(), Create(Small(), FS(EmptyVolume(256, 5), []), [97]).0;
    LastOffsetWraps(256);
    WrappedWriteFills(g, fs, 0, TWO64 - 1, [1]);
    WriteSplices(g, fs, 0, TWO64 - 1, [1]);
    GrowExtends(g, fs, 0, ClustersFor(TWO64, 256));
  }

  /** The volume of two files with 9 in every byte behind the end of the empty file `a`. */
  ghost function Dirty(): FS {
    TwoFilesAre();
    var fs := TwoFiles();
    fs.(v := fs.v.(heap := fs.v.heap[3 := seq(256, _ => 9)]))
  }

  lemma DirtyIsGood()
    ensures Good(Small(), Dirty()) && |Dirty().chains| == 2 && Files(Small(), Dirty())[0] == File([97], [])
    ensures Stored(Small(), Dirty(), 0) == seq(256, _ => 9) && Writable(Small(), Dirty(), 0)
  {
    TwoFilesAre();
    var g, fs, fs' := Small(), TwoFiles(), Dirty();
    var recs := Listing(g, fs.v);
    assert fs'.v.heap[2] == fs.v.heap[2];
    assert FileOk(g, fs.v, recs[0], fs.chains[0]) && FileOk(g, fs.v, recs[1], fs.chains[1]);
    assert Files(g, fs)[0] == File([97], []);
    assert Content(fs'.v.heap, [3]) == fs'.v.heap[3] + Content(fs'.v.heap, [3][1..]) == fs'.v.heap[3];
    assert FileOk(g, fs'.v, recs[0], fs'.chains[0]);
    FileFrame(g, fs.v, fs'.v, recs[1], fs.chains[1]);
    assert Apart(fs.chains[0], fs.chains[1]);
  }

  /** Writing one byte at offset 2 of the empty file uncovers the two old bytes in front of it. */
  lemma WriteUncoversOldBytes()
    ensures Good(Small(), Dirty()) && Uncovers(Small(), Dirty(), DoWrite(0, 2, [1]))
    ensures var (fs, rc) := Write(Small(), Dirty(), 0, 2, [1]);
            rc == 1 && Good(Small(), fs) && |fs.chains| == 2 && Files(Small(), fs)[0].data == [9, 9, 1]
  {
    DirtyIsGood();
    var g, fs := Small(), Dirty();
    assert Write(g, fs, 0, 2, [1]).1 == 1 by {
      assert ClustersFor(3, 256) == 1;
      WriteSucceeds(g, fs, 0, 2, [1]);
    }
    WriteSplices(g, fs, 0, 2, [1]);
    OldBytesShow();
  }

  lemma OldBytesShow()
    ensures var s: seq<byte> := seq(256, _ => 9); Overlaid(s, 0, 2, [1]) == [9, 9, 1] && !ZeroBetween(s, 0, 2)
  {
    var s: seq<byte> := seq(256, _ => 9);
    assert s[0] == 9;
    assert s + Zeros(0) == s;
  }

  /** A volume with an all-zero FAT: the first file gets the root directory's cluster, and the directory is zeroed. */
  lemma UnmarkedRootIsTaken(dir: seq<byte>)
    ensures var v := Vol([0, 0, 0], [[], [], dir]);
            Alloc(v, |dir|).1 == 2 && Alloc(v, |dir|).0.heap[2] == Zeros(|dir|)
  {
    var v := Vol([0, 0, 0], [[], [], dir]);
    RootIsTakenIff(Geo(|dir|, 2), v);
  }

  /** A file in cluster 3 that grows by one cluster takes an unmarked root directory in cluster 2. */
  lemma UnmarkedRootJoinsFile(dir: seq<byte>, file: seq<byte>)
    ensures 2 in Extend(Vol([EOC, EOC, 0, EOC], [[], [], dir, file]), |dir|, 3, 1).added
  {
    var v := Vol([EOC, EOC, 0, EOC], [[], [], dir, file]);
    RootJoinsFileIff(Geo(|dir|, 2), v, 3, 1);
    assert FreeBelow(v.fat, 2) == {};
  }
}

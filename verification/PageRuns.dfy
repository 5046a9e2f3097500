/** Runs of map and unmap calls: the page tables are a finite map, and no frame is lost (mm/vmm.c). */
module PageRuns {
  import opened Bytes
  import opened FrameMap
  import opened PageTree
  import opened Identity
  import opened Vmm

  datatype Call = Map(va: nat, phys: nat, flags: nat) | Unmap(va: nat)

  /** What `vmm_map_page` and `vmm_unmap_page` ensure. */
  ghost predicate Step(s: World, c: Call, rc: int, s': World, root: nat, first: nat)
  {
    match c
    case Map(va, phys, flags) => MappedIn(s, s', root, first, Split(va), LeafWord(phys, flags), rc)
    case Unmap(va) => UnmappedIn(s, s', root, Split(va), rc)
  }

  /** After a successful map call every address of the page translates to the frame plus its offset, and
      every address of another page as before; after a failed one, every address as before. */
  lemma MapSetsTranslations(s: World, s': World, root: nat, first: nat, va: nat, phys: nat, flags: nat, rc: int,
                            a: nat)
    requires flags % 2 == 1 && Within(flags / PAGE, phys / PAGE)
    requires MappedIn(s, s', root, first, Split(va), LeafWord(phys, flags), rc)
    ensures Xlate(s'.mem, root, a) ==
            if rc == 0 && PageNo(a) == PageNo(va) then Some(phys / PAGE * PAGE + a % PAGE) else Xlate(s.mem, root, a)
  {
    SamePage(a, va);
    PathInRange(a);
    MappedTranslates(phys, flags, a);
    EntryAfterMap(s, s', root, first, Split(va), LeafWord(phys, flags), rc, Split(a));
  }

  lemma EntryAfterMap(s: World, s': World, root: nat, first: nat, p: Path, w: nat, rc: int, q: Path)
    requires MappedIn(s, s', root, first, p, w, rc) && PathOk(q)
    ensures Entry(s'.mem, root, q) == if rc == 0 && q == p then IfPresent(w) else Entry(s.mem, root, q)
  {
  }

  /** After a successful unmap call the page translates to nothing, and every other page as before. */
  lemma UnmapClearsTranslations(s: World, s': World, root: nat, va: nat, rc: int, a: nat)
    requires UnmappedIn(s, s', root, Split(va), rc)
    ensures Xlate(s'.mem, root, a) == if rc == 0 && PageNo(a) == PageNo(va) then None else Xlate(s.mem, root, a)
  {
    SamePage(a, va);
    PathInRange(a);
    EntryAfterUnmap(s, s', root, Split(va), rc, Split(a));
  }

  lemma EntryAfterUnmap(s: World, s': World, root: nat, p: Path, rc: int, q: Path)
    requires UnmappedIn(s, s', root, p, rc) && PathOk(q)
    ensures Entry(s'.mem, root, q) == if rc == 0 && q == p then None else Entry(s.mem, root, q)
  {
  }

  /** Unmapping a page right after mapping it restores every translation exactly when it had none before. */
  lemma UnmapUndoesMap(s: World, s1: World, s2: World, root: nat, first: nat, p: Path, word: nat)
    requires PathOk(p) && MappedIn(s, s1, root, first, p, word, 0) && UnmappedIn(s1, s2, root, p, 0)
    ensures SameEntries(s.mem, s2.mem, root) <==> Entry(s.mem, root, p) == None
  {
    EntryAfterMap(s, s1, root, first, p, word, 0, p);
    EntryAfterUnmap(s1, s2, root, p, 0, p);
    if Entry(s.mem, root, p) == None {
      forall q | PathOk(q)
        ensures Entry(s2.mem, root, q) == Entry(s.mem, root, q)
      {
        EntryAfterMap(s, s1, root, first, p, word, 0, q);
        EntryAfterUnmap(s1, s2, root, p, 0, q);
      }
    }
  }

  lemma PathInRange(va: nat)
    ensures PathOk(Split(va))
  {
    IndicesArePage(va);
  }

  /** The tables hold the finite map `m` from pages to entries. */
  ghost predicate Holds(mem: Mem, root: nat, m: map<Path, nat>) {
    forall p {:trigger Entry(mem, root, p)} :: PathOk(p) ==> Entry(mem, root, p) == if p in m then Some(m[p]) else None
  }

  /** The same call on a finite map. */
  function Ideal(m: map<Path, nat>, c: Call, rc: int): map<Path, nat>
  {
    if rc != 0 then m
    else if c.Map? && Present(LeafWord(c.phys, c.flags)) then m[Split(c.va) := LeafWord(c.phys, c.flags)]
    else m - {Split(c.va)}
  }

  function IdealRun(m: map<Path, nat>, cs: seq<Call>, rcs: seq<int>): map<Path, nat>
    requires |rcs| == |cs|
  {
    if cs == [] then m else Ideal(IdealRun(m, cs[..|cs| - 1], rcs[..|cs| - 1]), cs[|cs| - 1], rcs[|cs| - 1])
  }

  lemma StepHolds(s: World, c: Call, rc: int, s': World, root: nat, first: nat, m: map<Path, nat>)
    requires Step(s, c, rc, s', root, first) && Holds(s.mem, root, m)
    ensures Holds(s'.mem, root, Ideal(m, c, rc))
  {
    forall q | PathOk(q)
      ensures Entry(s'.mem, root, q) == if q in Ideal(m, c, rc) then Some(Ideal(m, c, rc)[q]) else None
    {
      match c
      case Map(va, phys, flags) => EntryAfterMap(s, s', root, first, Split(va), LeafWord(phys, flags), rc, q);
      case Unmap(va) => EntryAfterUnmap(s, s', root, Split(va), rc, q);
    }
  }

  lemma StepGrows(s: World, c: Call, rc: int, s': World, root: nat, first: nat)
    requires Step(s, c, rc, s', root, first)
    ensures Grew(s.tab, s'.tab, s.used, s'.used, first) && |s'.tab| <= |s.tab| + 3
  {
    match c
    case Map(va, _, _) => AtMostThree(s.tab, s'.tab, K1(Split(va)), K2(Split(va)), K3(Split(va)));
    case Unmap(_) => NothingGrew(s.tab, s.used, first);
  }

  lemma AtMostThree(t: map<Key, nat>, t': map<Key, nat>, a: Key, b: Key, c: Key)
    requires t'.Keys <= t.Keys + {a, b, c}
    ensures |t'| <= |t| + 3
  {
    var added := t'.Keys - t.Keys;
    Fewer(added, {a, b, c});
    assert |{a, b, c}| <= 3;
    Fewer(t'.Keys, t.Keys + added);
    assert |t'| == |t'.Keys| && |t| == |t.Keys|;
  }

  lemma {:induction false} Fewer(x: set<Key>, y: set<Key>)
    requires x <= y
    ensures |x| <= |y|
  {
    if x != {} {
      var k :| k in x;
      Fewer(x - {k}, y - {k});
    }
  }

  /** Over every run of map and unmap calls, failed ones included, the tables hold what the same calls make
      of a finite map; the frames taken are exactly those of the new tables, at most three for each call. */
  lemma {:induction false} RunIsMap(ss: seq<World>, cs: seq<Call>, rcs: seq<int>, root: nat, first: nat, m: map<Path,
                                    nat>)
    requires |ss| == |cs| + 1 && |rcs| == |cs|
    requires forall i :: 0 <= i < |cs| ==> Step(ss[i], cs[i], rcs[i], ss[i + 1], root, first)
    requires Holds(ss[0].mem, root, m)
    ensures Holds(ss[|cs|].mem, root, IdealRun(m, cs, rcs))
    ensures Grew(ss[0].tab, ss[|cs|].tab, ss[0].used, ss[|cs|].used, first)
    ensures |ss[|cs|].tab| <= |ss[0].tab| + 3 * |cs|
  {
    if cs == [] {
      NothingGrew(ss[0].tab, ss[0].used, first);
    } else {
      var n := |cs| - 1;
      RunIsMap(ss[..n + 1], cs[..n], rcs[..n], root, first, m);
      StepHolds(ss[n], cs[n], rcs[n], ss[n + 1], root, first, IdealRun(m, cs[..n], rcs[..n]));
      StepGrows(ss[n], cs[n], rcs[n], ss[n + 1], root, first);
      GrewTwice(ss[0].tab, ss[n].tab, ss[n + 1].tab, ss[0].used, ss[n].used, ss[n + 1].used, first);
    }
  }

  // ----- with other users of memory and of the frame allocator -----

  /** What happens between two states: a call of ours with its result, or anything that others do. */
  datatype Turn = Own(call: Call, rc: int) | Others

  /** The tables form a tree under `root`, in frames that are in use. */
  ghost predicate Live(s: World, root: nat, first: nat) {
    Tree(s.mem, s.tab) && s.tab[Root] == root && OwnedBy(s.tab, first, s.used)
  }

  /** Others write to frames that are not tables, and take and give back frames that are not tables. */
  ghost predicate LeaveAlone(s: World, s': World, first: nat)
    requires OwnedBy(s.tab, first, s.used)
  {
    && s'.tab == s.tab && |s'.used| == |s.used| && |s'.mem| == |s.mem|
    && (forall f :: 0 <= f < |s'.mem| ==> |s'.mem[f]| == ENTRIES)
    && (forall k {:trigger s.tab[k]} :: k in s.tab && s.tab[k] < |s.mem| ==> s'.mem[s.tab[k]] == s.mem[s.tab[k]])
    && forall k {:trigger s.tab[k]} :: k in s.tab ==> s'.used[s.tab[k] - first]
  }

  ghost predicate TurnStep(s: World, t: Turn, s': World, root: nat, first: nat)
    requires Live(s, root, first)
  {
    match t
    case Own(c, rc) => Step(s, c, rc, s', root, first) && Live(s', root, first)
    case Others => LeaveAlone(s, s', first)
  }

  /** Whatever others do, the tables stay a tree in used frames, and no page translates differently. */
  lemma OthersKeep(s: World, s': World, root: nat, first: nat)
    requires Live(s, root, first) && LeaveAlone(s, s', first)
    ensures Live(s', root, first) && SameEntries(s.mem, s'.mem, root)
  {
    forall k, i: nat | k in s.tab && !k.Low? && i < ENTRIES
      ensures Linked(s'.mem, s.tab, k, i)
    {
      assert Linked(s.mem, s.tab, k, i);
      assert s'.mem[s.tab[k]] == s.mem[s.tab[k]];
    }
    assert Tree(s'.mem, s'.tab);
    forall p | PathOk(p)
      ensures Entry(s'.mem, root, p) == Entry(s.mem, root, p)
    {
      EntryByTree(s.mem, s.tab, root, p);
      EntryByTree(s'.mem, s'.tab, root, p);
    }
  }

  function IdealTurns(m: map<Path, nat>, ts: seq<Turn>): map<Path, nat> {
    if ts == [] then m
    else
      var m' := IdealTurns(m, ts[..|ts| - 1]);
      match ts[|ts| - 1]
      case Own(c, rc) => Ideal(m', c, rc)
      case Others => m'
  }

  /** How many frames our own calls took out of the free ones. */
  ghost function OwnTaken(ss: seq<World>, ts: seq<Turn>): int
    requires |ss| == |ts| + 1
  {
    if ts == [] then 0
    else
      var n := |ts| - 1;
      OwnTaken(ss[..n + 1], ts[..n]) + if ts[n].Own? then CountFree(ss[n].used) - CountFree(ss[n + 1].used) else 0
  }

  lemma TurnKeeps(s: World, t: Turn, s': World, root: nat, first: nat, m: map<Path, nat>)
    requires Live(s, root, first) && TurnStep(s, t, s', root, first) && Holds(s.mem, root, m)
    ensures Live(s', root, first) && Extends(s.tab, s'.tab)
    ensures Holds(s'.mem, root, match t case Own(c, rc) => Ideal(m, c, rc) case Others => m)
    ensures |s'.tab| - |s.tab| == (if t.Own? then CountFree(s.used) - CountFree(s'.used) else 0) <= 3
  {
    match t
    case Own(c, rc) =>
      StepHolds(s, c, rc, s', root, first, m);
      StepGrows(s, c, rc, s', root, first);
    case Others =>
      OthersKeep(s, s', root, first);
  }

  /** Over every run in which others write, allocate and free between our calls: the tables stay a tree in used
      frames, hold what our calls make of a finite map, and are as many more as the frames our calls took. */
  lemma {:induction false} SharedRunIsMap(ss: seq<World>, ts: seq<Turn>, root: nat, first: nat, m: map<Path, nat>)
    requires |ss| == |ts| + 1 && Live(ss[0], root, first) && Holds(ss[0].mem, root, m)
    requires forall i :: 0 <= i < |ts| ==> Live(ss[i], root, first) ==> TurnStep(ss[i], ts[i], ss[i + 1], root, first)
    ensures Live(ss[|ts|], root, first) && Holds(ss[|ts|].mem, root, IdealTurns(m, ts))
    ensures Extends(ss[0].tab, ss[|ts|].tab)
    ensures |ss[|ts|].tab| == |ss[0].tab| + OwnTaken(ss, ts) <= |ss[0].tab| + 3 * |ts|
  {
    if ts != [] {
      var n := |ts| - 1;
      SharedRunIsMap(ss[..n + 1], ts[..n], root, first, m);
      TurnKeeps(ss[n], ts[n], ss[n + 1], root, first, IdealTurns(m, ts[..n]));
      ExtendsTwice(ss[0].tab, ss[n].tab, ss[n + 1].tab);
    }
  }

  lemma ExtendsTwice(a: map<Key, nat>, b: map<Key, nat>, c: map<Key, nat>)
    requires Extends(a, b) && Extends(b, c)
    ensures Extends(a, c)
  {
    forall k | k in a
      ensures k in c && c[k] == a[k]
    {
      assert a[k] == b[k];
    }
  }

  // ----- from start-up on -----

  /** The first `n` pages, each mapped to itself, present and writable. */
  function FirstPages(n: nat): map<Path, nat> {
    if n == 0 then map[] else FirstPages(n - 1)[Split((n - 1) * PAGE) := (n - 1) * PAGE + 3]
  }

  lemma {:induction false} FirstPagesAre(n: nat, p: Path)
    requires n <= PAGES && PathOk(p)
    ensures IdentityEntry(Num(p), n) == if p in FirstPages(n) then Some(FirstPages(n)[p]) else None
  {
    if n > 0 {
      FirstPagesAre(n - 1, p);
      PathOfPage(n - 1);
      if Num(p) == n - 1 { NumIsOneToOne(p, Split((n - 1) * PAGE)); }
    }
  }

  /** The identity map that start-up builds is a finite map. */
  lemma StartHolds(mem: Mem, root: nat, n: nat)
    requires n <= PAGES && IdentityBelow(mem, root, n)
    ensures Holds(mem, root, FirstPages(n))
  {
    forall p | PathOk(p)
      ensures Entry(mem, root, p) == if p in FirstPages(n) then Some(FirstPages(n)[p]) else None
    {
      FirstPagesAre(n, p);
    }
  }

  /** After `vmm_init_identity` has mapped `n` pages and any run of calls, the tables hold what the calls make of
      the first `n` pages mapped to themselves. */
  lemma StartThenRun(ss: seq<World>, cs: seq<Call>, rcs: seq<int>, root: nat, first: nat, n: nat, free: nat)
    requires |ss| == |cs| + 1 && |rcs| == |cs|
    requires forall i :: 0 <= i < |cs| ==> Step(ss[i], cs[i], rcs[i], ss[i + 1], root, first)
    requires LongestPrefix(n, free) && IdentityBelow(ss[0].mem, root, n)
    ensures Holds(ss[|cs|].mem, root, IdealRun(FirstPages(n), cs, rcs))
  {
    StartHolds(ss[0].mem, root, n);
    RunIsMap(ss, cs, rcs, root, first, FirstPages(n));
  }
}

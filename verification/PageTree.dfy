/** Four levels of page tables in physical memory as a tree of distinct frames
    (mm/vmm.c; 4-level paging, section 4.5 of the Intel SDM, volume 3A). */
module PageTree {
  import opened Bytes

  const PAGE: nat := 4096
  const ENTRIES: nat := 512

  /** Physical memory: frames of 512 words. */
  type Mem = seq<seq<nat>>

  /** A table by its place in the tree: the root, or the entries that lead to it. */
  datatype Key = Root | Top(i4: nat) | Mid(i4: nat, i3: nat) | Low(i4: nat, i3: nat, i2: nat)

  /** The table behind entry `i` of table `k`. */
  function Kid(k: Key, i: nat): Key
    requires !k.Low?
  {
    match k
    case Root => Top(i)
    case Top(a) => Mid(a, i)
    case Mid(a, b) => Low(a, b, i)
  }

  /** The four table indices of a virtual address, root first. */
  datatype Path = Path(i4: nat, i3: nat, i2: nat, i1: nat)

  ghost predicate PathOk(p: Path) {
    p.i4 < ENTRIES && p.i3 < ENTRIES && p.i2 < ENTRIES && p.i1 < ENTRIES
  }

  /** Bits 47 to 12 of an address, nine at a time; bits 48 and up are ignored. */
  function Split(va: nat): Path {
    Path(va / 0x80_0000_0000 % 512, va / 0x4000_0000 % 512, va / 0x20_0000 % 512, va / 0x1000 % 512)
  }

  function K1(p: Path): Key { Top(p.i4) }
  function K2(p: Path): Key { Mid(p.i4, p.i3) }
  function K3(p: Path): Key { Low(p.i4, p.i3, p.i2) }

  /** The page of a virtual address: bits 12 to 47. */
  function PageNo(va: nat): nat {
    va / 0x1000 % 0x10_0000_0000
  }

  /** The four indices are the page number. */
  lemma IndicesArePage(va: nat)
    ensures var p := Split(va); PathOk(p) && PageNo(va) == ((p.i4 * 512 + p.i3) * 512 + p.i2) * 512 + p.i1
  {
    var n := va / 0x1000;
    NineBits(va);
    Digits(n);
  }

  lemma NineBits(va: nat)
    ensures va / 0x20_0000 == va / 0x1000 / 512
    ensures va / 0x4000_0000 == va / 0x20_0000 / 512
    ensures va / 0x80_0000_0000 == va / 0x4000_0000 / 512
  {
  }

  /** A number below 2^36 by its base-512 digits. */
  lemma Digits(n: nat)
    ensures var q := n / 512; var r := q / 512; var t := r / 512;
            n % 0x10_0000_0000 == ((t % 512 * 512 + r % 512) * 512 + q % 512) * 512 + n % 512
  {
    var q := n / 512;
    var r := q / 512;
    var t := r / 512;
    assert n == 512 * q + n % 512 && q == 512 * r + q % 512 && r == 512 * t + r % 512;
    assert t == 512 * (t / 512) + t % 512;
    Remainder(n, t / 512, ((t % 512 * 512 + r % 512) * 512 + q % 512) * 512 + n % 512);
  }

  lemma Remainder(n: nat, h: nat, x: nat)
    requires n == 0x10_0000_0000 * h + x && x < 0x10_0000_0000
    ensures n % 0x10_0000_0000 == x
  {
  }

  /** Two addresses have the same path exactly when they lie in the same page. */
  lemma SamePage(a: nat, b: nat)
    ensures PageNo(a) == PageNo(b) <==> Split(a) == Split(b)
  {
    IndicesArePage(a);
    IndicesArePage(b);
  }

  predicate Present(e: nat) { e % 2 == 1 }

  /** The frame an entry points to: the entry without its low 12 bits. */
  function FrameOf(e: nat): nat { e / PAGE }

  /** One step of a walk. */
  function Down(mem: Mem, f: nat, i: nat): Option<nat> {
    if f < |mem| && i < |mem[f]| && Present(mem[f][i]) then Some(FrameOf(mem[f][i])) else None
  }

  /** The leaf table on path `p`, if the walk gets there. */
  function Leaf(mem: Mem, root: nat, p: Path): Option<nat> {
    match Down(mem, root, p.i4)
    case None => None
    case Some(f3) =>
      match Down(mem, f3, p.i3)
      case None => None
      case Some(f2) => Down(mem, f2, p.i2)
  }

  /** The leaf entry on path `p`, if it is present. */
  function Entry(mem: Mem, root: nat, p: Path): Option<nat> {
    match Leaf(mem, root, p)
    case None => None
    case Some(f) => Word(mem, f, p.i1)
  }

  function Word(mem: Mem, f: nat, i: nat): Option<nat> {
    if f < |mem| && i < |mem[f]| && Present(mem[f][i]) then Some(mem[f][i]) else None
  }

  /** The tables `tab` form a tree of distinct frames, linked by present entries and by nothing else. */
  ghost predicate Tree(mem: Mem, tab: map<Key, nat>) {
    && Root in tab && InMemory(mem, tab)
    && (forall k {:trigger k in tab} :: k in tab ==> Grounded(tab, k))
    && (forall k, i: nat {:trigger Linked(mem, tab, k, i)} ::
          k in tab && !k.Low? && i < ENTRIES ==> Linked(mem, tab, k, i))
    && Distinct(tab)
  }

  /** The table that leads to `k` is there. */
  ghost predicate Grounded(tab: map<Key, nat>, k: Key) {
    match k
    case Root => true
    case Top(a) => a < ENTRIES
    case Mid(a, b) => b < ENTRIES && Top(a) in tab
    case Low(a, b, c) => c < ENTRIES && Mid(a, b) in tab
  }

  ghost predicate InMemory(mem: Mem, tab: map<Key, nat>) {
    && (forall k {:trigger tab[k]} :: k in tab ==> tab[k] < |mem|)
    && (forall f :: 0 <= f < |mem| ==> |mem[f]| == ENTRIES)
  }

  ghost predicate Distinct(tab: map<Key, nat>) {
    forall j, k {:trigger tab[j], tab[k]} :: j in tab && k in tab && j != k ==> tab[j] != tab[k]
  }

  /** Entry `i` of table `k` is present exactly when it leads to the table in that place. */
  ghost predicate Linked(mem: Mem, tab: map<Key, nat>, k: Key, i: nat)
    requires k in tab && !k.Low?
  {
    Down(mem, tab[k], i) == if Kid(k, i) in tab then Some(tab[Kid(k, i)]) else None
  }

  /** A walk through the words arrives where the tree says. */
  lemma WalkFollowsTree(mem: Mem, tab: map<Key, nat>, p: Path)
    requires Tree(mem, tab) && PathOk(p)
    ensures Leaf(mem, tab[Root], p) == if K3(p) in tab then Some(tab[K3(p)]) else None
  {
    assert Linked(mem, tab, Root, p.i4);
    if K1(p) in tab {
      assert Linked(mem, tab, K1(p), p.i3);
      if K2(p) in tab {
        assert Linked(mem, tab, K2(p), p.i2);
      }
    }
  }

  lemma EntryByTree(mem: Mem, tab: map<Key, nat>, root: nat, p: Path)
    requires Tree(mem, tab) && PathOk(p) && root == tab[Root]
    ensures Entry(mem, root, p) == if K3(p) in tab then Word(mem, tab[K3(p)], p.i1) else None
  {
    WalkFollowsTree(mem, tab, p);
  }

  function ZeroTable(): (t: seq<nat>) {
    seq(ENTRIES, _ => 0)
  }

  /** Frame `g` zeroed and hung at entry `i` of the table in frame `f`. */
  function Attach(mem: Mem, f: nat, i: nat, g: nat): (mem': Mem)
    requires f < |mem| && g < |mem| && i < |mem[f]| && f != g
    ensures |mem'| == |mem|
  {
    var table: seq<nat> := mem[f][i := g * PAGE + 3];
    mem[g := ZeroTable()][f := table]
  }

  /** Frame `g` may become the table at entry `i` of table `k`. */
  ghost predicate Attachable(mem: Mem, tab: map<Key, nat>, k: Key, i: nat, g: nat) {
    && k in tab && !k.Low? && i < ENTRIES && Kid(k, i) !in tab
    && g < |mem| && forall j {:trigger tab[j]} :: j in tab ==> tab[j] != g
  }

  lemma AttachDown(mem: Mem, f: nat, i: nat, g: nat, h: nat, m: nat)
    requires f < |mem| && g < |mem| && i < |mem[f]| && f != g && |mem[f]| == ENTRIES && m < ENTRIES && h < |mem|
    ensures Down(Attach(mem, f, i, g), h, m) ==
            if h == g then None else if h == f && m == i then Some(g) else Down(mem, h, m)
  {
    assert FrameOf(g * PAGE + 3) == g && Present(g * PAGE + 3);
  }

  lemma AttachKeepsTree(mem: Mem, tab: map<Key, nat>, k: Key, i: nat, g: nat)
    requires Tree(mem, tab) && Attachable(mem, tab, k, i, g)
    ensures Tree(Attach(mem, tab[k], i, g), tab[Kid(k, i) := g])
  {
    var mem', tab' := Attach(mem, tab[k], i, g), tab[Kid(k, i) := g];
    forall j, m: nat | j in tab' && !j.Low? && m < ENTRIES
      ensures Linked(mem', tab', j, m)
    {
      AttachDown(mem, tab[k], i, g, tab'[j], m);
      if j == Kid(k, i) {
        assert Kid(j, m) !in tab;
      } else {
        assert Linked(mem, tab, j, m);
      }
    }
  }

  /** A new table is empty, so it changes no translation. */
  lemma AttachKeepsEntries(mem: Mem, tab: map<Key, nat>, k: Key, i: nat, g: nat, p: Path)
    requires Tree(mem, tab) && Attachable(mem, tab, k, i, g) && PathOk(p)
    ensures Entry(Attach(mem, tab[k], i, g), tab[Root], p) == Entry(mem, tab[Root], p)
  {
    var mem', tab' := Attach(mem, tab[k], i, g), tab[Kid(k, i) := g];
    AttachKeepsTree(mem, tab, k, i, g);
    EntryByTree(mem, tab, tab[Root], p);
    EntryByTree(mem', tab', tab[Root], p);
    if K3(p) in tab {
      assert tab[K3(p)] != tab[k] && tab[K3(p)] != g;
    }
  }

  /** Entry `i` of the table in frame `f` set to `w`. */
  function Store(mem: Mem, f: nat, i: nat, w: nat): (mem': Mem)
    requires f < |mem| && i < |mem[f]|
    ensures |mem'| == |mem|
  {
    var table: seq<nat> := mem[f][i := w];
    mem[f := table]
  }

  lemma StoreKeepsTree(mem: Mem, tab: map<Key, nat>, k: Key, i: nat, w: nat)
    requires Tree(mem, tab) && k in tab && k.Low? && i < ENTRIES
    ensures Tree(Store(mem, tab[k], i, w), tab)
  {
    var mem' := Store(mem, tab[k], i, w);
    forall j, m: nat | j in tab && !j.Low? && m < ENTRIES
      ensures Linked(mem', tab, j, m)
    {
      assert Linked(mem, tab, j, m);
    }
  }

  /** Storing a leaf entry changes the translation on its own path and on no other. */
  lemma StoreSetsEntry(mem: Mem, tab: map<Key, nat>, p: Path, w: nat, q: Path)
    requires Tree(mem, tab) && PathOk(p) && PathOk(q) && K3(p) in tab
    ensures tab[K3(p)] < |mem| && p.i1 < |mem[tab[K3(p)]]|
    ensures Entry(Store(mem, tab[K3(p)], p.i1, w), tab[Root], q) ==
            if q == p then (if Present(w) then Some(w) else None) else Entry(mem, tab[Root], q)
  {
    var mem' := Store(mem, tab[K3(p)], p.i1, w);
    StoreKeepsTree(mem, tab, K3(p), p.i1, w);
    EntryByTree(mem, tab, tab[Root], q);
    EntryByTree(mem', tab, tab[Root], q);
  }
}

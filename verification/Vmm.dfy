/** Page tables built from frames of the frame allocator (mm/vmm.c). */
module Vmm {
  import opened Bytes
  import opened FrameMap
  import opened Pmm
  import opened PageTree
  import opened Identity

  /** Bitwise or. */
  function Or(a: nat, b: nat): nat {
    if a == 0 then b else if b == 0 then a else 2 * Or(a / 2, b / 2) + if a % 2 == 1 || b % 2 == 1 then 1 else 0
  }

  /** Every bit that is set in `b` is set in `a`. */
  predicate Within(b: nat, a: nat) {
    b == 0 || (b % 2 <= a % 2 && Within(b / 2, a / 2))
  }

  /** Or-ing in bits changes nothing exactly when they are all set already. */
  lemma {:induction false} OrSameIff(a: nat, b: nat)
    ensures Or(a, b) == a <==> Within(b, a)
  {
    if a == 0 {
      WithinZero(b);
    } else if b != 0 {
      OrSameIff(a / 2, b / 2);
    }
  }

  lemma {:induction false} WithinZero(b: nat)
    ensures Within(b, 0) <==> b == 0
  {
    if b != 0 { WithinZero(b / 2); }
  }

  /** The low 12 bits of the flags, without the page-size bit. */
  function LowFlags(flags: nat): (low: nat)
    ensures low < PAGE && low % 2 == flags % 2
  {
    var low := flags % PAGE;
    if low / 128 % 2 == 1 then low - 128 else low
  }

  /** The leaf entry for `phys`: the page, or-ed with the flags without the page-size bit. */
  function LeafWord(phys: nat, flags: nat): nat {
    Or(phys / PAGE, flags / PAGE) * PAGE + LowFlags(flags)
  }

  /** Bit `k` of a word. */
  function Bit(w: nat, k: nat): bool
    decreases k
  {
    if k == 0 then w % 2 == 1 else Bit(w / 2, k - 1)
  }

  lemma {:induction false} OrBits(a: nat, b: nat, k: nat)
    ensures Bit(Or(a, b), k) == (Bit(a, k) || Bit(b, k))
    decreases k
  {
    if a == 0 || b == 0 {
      ZeroBits(k);
    } else if k > 0 {
      OrBits(a / 2, b / 2, k - 1);
    }
  }

  lemma {:induction false} ZeroBits(k: nat)
    ensures !Bit(0, k)
    decreases k
  {
    if k > 0 { ZeroBits(k - 1); }
  }

  /** The `j` lowest bits of `low`, and the bits of `high` above them. */
  function Stacked(high: nat, low: nat, j: nat): nat
    decreases j
  {
    if j == 0 then high else 2 * Stacked(high, low / 2, j - 1) + low % 2
  }

  lemma {:induction false} StackedBits(high: nat, low: nat, j: nat, k: nat)
    ensures Bit(Stacked(high, low, j), k) == if k < j then Bit(low, k) else Bit(high, k - j)
    decreases j
  {
    if j > 0 && k > 0 { StackedBits(high, low / 2, j - 1, k - 1); }
  }

  /** `n`, shifted left by `j` bits. */
  function Shift(n: nat, j: nat): nat { if j == 0 then n else 2 * Shift(n, j - 1) }

  lemma {:induction false} StackedIs(high: nat, low: nat, j: nat)
    requires low < Shift(1, j)
    ensures Stacked(high, low, j) == Shift(high, j) + low
    decreases j
  {
    if j > 0 { StackedIs(high, low / 2, j - 1); }
  }

  lemma ShiftIs(n: nat)
    ensures Shift(n, 7) == 128 * n && Shift(n, 12) == PAGE * n
  {
    assert Shift(n, 1) == 2 * Shift(n, 0);
    assert Shift(n, 2) == 4 * n;
    assert Shift(n, 4) == 16 * n;
    assert Shift(n, 6) == 64 * n;
    assert Shift(n, 8) == 256 * n;
    assert Shift(n, 10) == 1024 * n;
  }

  /** The bits below `j` are those of the remainder, the others those of the quotient. */
  lemma SplitBits(w: nat, j: nat, p: nat, k: nat)
    requires (j == 7 && p == 128) || (j == 12 && p == PAGE)
    ensures Bit(w, k) == if k < j then Bit(w % p, k) else Bit(w / p, k - j)
  {
    ShiftIs(w / p);
    ShiftIs(1);
    if j == 7 { SplitAt(w, w / 128, w % 128, j, k); } else { SplitAt(w, w / PAGE, w % PAGE, j, k); }
  }

  lemma SplitAt(w: nat, high: nat, low: nat, j: nat, k: nat)
    requires w == Shift(high, j) + low && low < Shift(1, j)
    ensures Bit(w, k) == if k < j then Bit(low, k) else Bit(high, k - j)
  {
    StackedIs(high, low, j);
    StackedBits(high, low, j, k);
  }

  /** The low 12 bits are the flags', except bit 7. */
  lemma LowFlagBits(flags: nat, k: nat)
    requires k < 12
    ensures Bit(LowFlags(flags), k) == (Bit(flags, k) && k != 7)
  {
    var low, r := flags % PAGE, LowFlags(flags);
    SplitBits(flags, 12, PAGE, k);
    SplitBits(low, 7, 128, k);
    SplitBits(r, 7, 128, k);
    Without7(low, r);
    if k > 7 { assert Bit(low / 128, k - 7) == Bit(low / 128 / 2, k - 8) == Bit(r / 128, k - 7); }
  }

  lemma Without7(low: nat, r: nat)
    requires r == if low / 128 % 2 == 1 then low - 128 else low
    ensures r % 128 == low % 128 && r / 128 % 2 == 0 && r / 128 / 2 == low / 128 / 2
  {
  }

  /** The leaf entry bit by bit: the address or a flag from bit 12 on, below that the flag, and bit 7 never. */
  ghost predicate LeafOf(w: nat, phys: nat, flags: nat) {
    forall k: nat :: Bit(w, k) == if k < 12 then Bit(flags, k) && k != 7 else Bit(phys, k) || Bit(flags, k)
  }

  lemma LeafBits(phys: nat, flags: nat)
    ensures LeafOf(LeafWord(phys, flags), phys, flags)
  {
    var w := LeafWord(phys, flags);
    assert w / PAGE == Or(phys / PAGE, flags / PAGE) && w % PAGE == LowFlags(flags);
    forall k: nat
      ensures Bit(w, k) == if k < 12 then Bit(flags, k) && k != 7 else Bit(phys, k) || Bit(flags, k)
    {
      SplitBits(w, 12, PAGE, k);
      if k < 12 {
        LowFlagBits(flags, k);
      } else {
        OrBits(phys / PAGE, flags / PAGE, k - 12);
        SplitBits(phys, 12, PAGE, k);
        SplitBits(flags, 12, PAGE, k);
      }
    }
  }

  /** No two words have the same bits. */
  lemma {:induction false} BitsDetermine(a: nat, b: nat)
    requires forall k: nat :: Bit(a, k) == Bit(b, k)
    ensures a == b
    decreases a + b
  {
    if a + b > 0 {
      assert Bit(a, 0) == Bit(b, 0);
      forall k: nat
        ensures Bit(a / 2, k) == Bit(b / 2, k)
      {
        assert Bit(a, k + 1) == Bit(b, k + 1);
      }
      BitsDetermine(a / 2, b / 2);
    }
  }

  /** So these bits determine the entry. */
  lemma LeafIff(w: nat, phys: nat, flags: nat)
    ensures w == LeafWord(phys, flags) <==> LeafOf(w, phys, flags)
  {
    LeafBits(phys, flags);
    if LeafOf(w, phys, flags) {
      forall k: nat
        ensures Bit(w, k) == Bit(LeafWord(phys, flags), k)
      {
      }
      BitsDetermine(w, LeafWord(phys, flags));
    }
  }

  /** A page with low flags, none of them bit 7: address and flags side by side. */
  lemma PlainLeaf(phys: nat, flags: nat)
    requires phys % PAGE == 0 && flags < PAGE && !Bit(flags, 7)
    ensures LeafWord(phys, flags) == phys + flags
  {
    SplitBits(flags, 7, 128, 7);
  }

  /** What `vmm_virt_to_phys` makes of a present leaf entry. */
  function Translate(e: nat, va: nat): nat {
    e / PAGE * PAGE + va % PAGE
  }

  function Through(e: Option<nat>, va: nat): Option<nat> {
    match e
    case None => None
    case Some(w) => Some(Translate(w, va))
  }

  /** The translation of `va` by the tables under `root`. */
  function Xlate(mem: Mem, root: nat, va: nat): Option<nat> {
    Through(Entry(mem, root, Split(va)), va)
  }

  /** A present mapping translates to the page's own bytes exactly when every flag from bit 12 on, which the
      translation does not mask out, is a bit of the address anyway. */
  lemma MappedTranslates(phys: nat, flags: nat, va: nat)
    requires flags % 2 == 1
    ensures Present(LeafWord(phys, flags))
    ensures Translate(LeafWord(phys, flags), va) == phys / PAGE * PAGE + va % PAGE <==>
            Within(flags / PAGE, phys / PAGE)
  {
    WordParts(Or(phys / PAGE, flags / PAGE), LowFlags(flags));
    OrSameIff(phys / PAGE, flags / PAGE);
  }

  lemma WordParts(n: nat, low: nat)
    requires low < PAGE && low % 2 == 1
    ensures (n * PAGE + low) / PAGE == n && (n * PAGE + low) % 2 == 1
  {
  }

  /** Flags in the low 12 bits alone never disturb the address. */
  lemma LowFlagsTranslate(phys: nat, flags: nat)
    requires flags < PAGE
    ensures Within(flags / PAGE, phys / PAGE)
  {
  }

  /** With the no-execute bit the translation is off by 2^63. */
  lemma NoExecuteTranslatesWrong()
    ensures Translate(LeafWord(0x5000, TWO63 + 3), 0x42) == TWO63 + 0x5042
  {
    var nx := 0x8_0000_0000_0000;
    assert 0x5000 / PAGE == 5 && (TWO63 + 3) / PAGE == nx && LowFlags(TWO63 + 3) == 3;
    assert Or(1, nx / 4) == nx / 4 + 1;
    assert Or(2, nx / 2) == nx / 2 + 2;
    assert Or(5, nx) == nx + 5;
  }

  /** No page translates differently. */
  ghost predicate SameEntries(m: Mem, m': Mem, root: nat) {
    forall p {:trigger Entry(m', root, p)} :: PathOk(p) ==> Entry(m', root, p) == Entry(m, root, p)
  }

  lemma SameTwice(m: Mem, m1: Mem, m': Mem, root: nat)
    requires SameEntries(m, m1, root) && SameEntries(m1, m', root)
    ensures SameEntries(m, m', root)
  {
  }

  /** The translation on path `p` is now `e`; on every other path it is as it was. */
  ghost predicate Updated(m: Mem, m': Mem, root: nat, p: Path, e: Option<nat>) {
    forall q {:trigger Entry(m', root, q)} :: PathOk(q)
      ==> Entry(m', root, q) == if q == p then e else Entry(m, root, q)
  }

  function IfPresent(w: nat): Option<nat> { if Present(w) then Some(w) else None }

  lemma StoreUpdates(m: Mem, t: map<Key, nat>, p: Path, w: nat)
    requires Tree(m, t) && PathOk(p) && K3(p) in t
    ensures t[K3(p)] < |m| && p.i1 < |m[t[K3(p)]]|
    ensures var m' := Store(m, t[K3(p)], p.i1, w); Tree(m', t) && Updated(m, m', t[Root], p, IfPresent(w))
  {
    var m' := Store(m, t[K3(p)], p.i1, w);
    StoreKeepsTree(m, t, K3(p), p.i1, w);
    forall q | PathOk(q)
      ensures Entry(m', t[Root], q) == if q == p then IfPresent(w) else Entry(m, t[Root], q)
    {
      StoreSetsEntry(m, t, p, w, q);
    }
  }

  /** Every table lies in a frame that the bitmap, which starts at frame `first`, counts as used. */
  ghost predicate OwnedBy(tab: map<Key, nat>, first: nat, used: seq<bool>) {
    forall k {:trigger tab[k]} :: k in tab ==> first <= tab[k] < first + |used| && used[tab[k] - first]
  }

  /** Frame `g` was free and is now in use; no other frame changed hands. */
  ghost predicate Took(was: seq<bool>, now: seq<bool>, first: nat, g: nat) {
    && first <= g < first + |was| && !was[g - first] && now == was[g - first := true]
    && CountFree(now) == CountFree(was) - 1
  }

  /** A table in a frame that was free joins the tree: still a tree in used frames, and no page
      translates differently. */
  lemma FreshTableJoins(m: Mem, t: map<Key, nat>, k: Key, i: nat, first: nat, used: seq<bool>, g: nat,
                        m': Mem, t': map<Key, nat>, used': seq<bool>)
    requires Tree(m, t) && OwnedBy(t, first, used) && k in t && !k.Low? && i < ENTRIES && Kid(k, i) !in t
    requires Took(used, used', first, g) && g < |m|
    requires t' == t[Kid(k, i) := g]
    requires t[k] < |m| && i < |m[t[k]]| && t[k] != g && m' == Store(m[g := ZeroTable()], t[k], i, g * PAGE + 3)
    ensures Tree(m', t') && OwnedBy(t', first, used') && SameEntries(m, m', t[Root]) && t'[Root] == t[Root]
  {
    ZeroThenStore(m, t[k], i, g);
    NotOwned(t, first, used, g - first);
    assert Tree(m', t') by { AttachKeepsTree(m, t, k, i, g); }
    assert SameEntries(m, m', t[Root]) by { AttachKeepsAll(m, t, k, i, g); }
    assert OwnedBy(t', first, used') by { OwnedTake(t, Kid(k, i), first, used, g - first); }
  }

  lemma ZeroThenStore(m: Mem, f: nat, i: nat, g: nat)
    requires f < |m| && g < |m| && f != g && i < |m[f]|
    ensures Store(m[g := ZeroTable()], f, i, g * PAGE + 3) == Attach(m, f, i, g)
  {
  }

  lemma NotOwned(t: map<Key, nat>, first: nat, used: seq<bool>, r: nat)
    requires OwnedBy(t, first, used) && r < |used| && !used[r]
    ensures forall j {:trigger t[j]} :: j in t ==> t[j] != first + r
  {
  }

  lemma OwnedTake(t: map<Key, nat>, k: Key, first: nat, used: seq<bool>, r: nat)
    requires OwnedBy(t, first, used) && r < |used|
    ensures OwnedBy(t[k := first + r], first, used[r := true])
  {
  }

  lemma AttachKeepsAll(m: Mem, t: map<Key, nat>, k: Key, i: nat, g: nat)
    requires Tree(m, t) && Attachable(m, t, k, i, g)
    ensures SameEntries(m, Attach(m, t[k], i, g), t[Root])
  {
    forall p | PathOk(p)
      ensures Entry(Attach(m, t[k], i, g), t[Root], p) == Entry(m, t[Root], p)
    {
      AttachKeepsEntries(m, t, k, i, g, p);
    }
  }

  /** From tables `t` to tables `t'`: all old tables stay, each new one is in a frame that was free, and
      the frames newly in use are exactly the new tables'. */
  ghost predicate Grew(t: map<Key, nat>, t': map<Key, nat>, used: seq<bool>, used': seq<bool>, first: nat) {
    && Extends(t, t') && WereFree(t, t', used, first) && NoLeak(t, t', used, used', first)
    && CountFree(used') + |t'| == CountFree(used) + |t|
  }

  ghost predicate Extends(t: map<Key, nat>, t': map<Key, nat>) {
    forall k {:trigger t'[k]} {:trigger t[k]} :: k in t ==> k in t' && t'[k] == t[k]
  }

  ghost predicate WereFree(t: map<Key, nat>, t': map<Key, nat>, used: seq<bool>, first: nat) {
    forall k {:trigger t'[k]} :: k in t' && k !in t ==> first <= t'[k] < first + |used| && !used[t'[k] - first]
  }

  ghost predicate NoLeak(t: map<Key, nat>, t': map<Key, nat>, used: seq<bool>, used': seq<bool>, first: nat) {
    && |used'| == |used|
    && forall f: nat {:trigger Accounted(t, t', used, used', first, f)} :: Accounted(t, t', used, used', first, f)
  }

  /** Frame `f` of the bitmap is in use because it was, or because a new table is in it. */
  ghost predicate Accounted(t: map<Key, nat>, t': map<Key, nat>, used: seq<bool>, used': seq<bool>, first: nat,
                            f: nat) {
    f < |used| && f < |used'| ==> used'[f] == (used[f] || NewAt(t, t', first + f))
  }

  ghost predicate NewAt(t: map<Key, nat>, t': map<Key, nat>, g: nat) {
    exists k {:trigger t'[k]} :: k in t' && k !in t && t'[k] == g
  }

  lemma NothingGrew(t: map<Key, nat>, used: seq<bool>, first: nat)
    ensures Grew(t, t, used, used, first)
  {
  }

  lemma TookGrew(t: map<Key, nat>, t': map<Key, nat>, used: seq<bool>, used': seq<bool>, first: nat, k: Key, g: nat)
    requires Took(used, used', first, g) && k !in t && t' == t[k := g]
    ensures Grew(t, t', used, used', first)
  {
    assert |t'| == |t| + 1 by { OneMore(t, k, g); }
    forall f: nat
      ensures Accounted(t, t', used, used', first, f)
    {
      NewIs(t, k, g, first + f);
    }
  }

  lemma OneMore(t: map<Key, nat>, k: Key, g: nat)
    requires k !in t
    ensures |t[k := g]| == |t| + 1
  {
    assert t[k := g].Keys == t.Keys + {k};
    assert |t[k := g]| == |t[k := g].Keys| && |t| == |t.Keys|;
  }

  lemma NewIs(t: map<Key, nat>, k: Key, g: nat, h: nat)
    requires k !in t
    ensures NewAt(t, t[k := g], h) <==> h == g
  {
    assert t[k := g][k] == g;
  }

  lemma GrewTwice(t: map<Key, nat>, t': map<Key, nat>, t'': map<Key, nat>,
                  used: seq<bool>, used': seq<bool>, used'': seq<bool>, first: nat)
    requires Grew(t, t', used, used', first) && Grew(t', t'', used', used'', first)
    ensures Grew(t, t'', used, used'', first)
  {
    assert WereFree(t, t'', used, first) by { StillFree(t, t', t'', used, used', first); }
    forall f: nat
      ensures Accounted(t, t'', used, used'', first, f)
    {
      NewTwice(t, t', t'', first + f);
      assert Accounted(t, t', used, used', first, f) && Accounted(t', t'', used', used'', first, f);
    }
  }

  lemma StillFree(t: map<Key, nat>, t': map<Key, nat>, t'': map<Key, nat>, used: seq<bool>, used': seq<bool>,
                  first: nat)
    requires Extends(t, t') && Extends(t', t'') && NoLeak(t, t', used, used', first)
    requires WereFree(t, t', used, first) && WereFree(t', t'', used', first)
    ensures WereFree(t, t'', used, first)
  {
    forall k | k in t'' && k !in t
      ensures first <= t''[k] < first + |used| && !used[t''[k] - first]
    {
      if k in t' {
        assert t'[k] == t''[k];
      } else {
        assert Accounted(t, t', used, used', first, t''[k] - first);
      }
    }
  }

  lemma NewTwice(t: map<Key, nat>, t': map<Key, nat>, t'': map<Key, nat>, g: nat)
    requires Extends(t, t') && Extends(t', t'')
    ensures NewAt(t, t'', g) <==> NewAt(t, t', g) || NewAt(t', t'', g)
  {
    if NewAt(t, t', g) {
      var k :| k in t' && k !in t && t'[k] == g;
      assert t''[k] == g;
    }
    if NewAt(t', t'', g) {
      var k :| k in t'' && k !in t' && t''[k] == g;
      assert k !in t;
    }
    if NewAt(t, t'', g) {
      var k :| k in t'' && k !in t && t''[k] == g;
      if k in t' { assert t'[k] == g; }
    }
  }

  /** How many tables the walk to `p` lacks. */
  function Missing(t: map<Key, nat>, p: Path): nat {
    (if K1(p) in t then 0 else 1) + (if K2(p) in t then 0 else 1) + (if K3(p) in t then 0 else 1)
  }

  /** What one level of a walk does to the tables and the frames in use. */
  ghost predicate Stepped(t: map<Key, nat>, t': map<Key, nat>, used: seq<bool>, used': seq<bool>, first: nat,
                          k: Key, i: nat, create: bool, ok: bool, next: nat)
    requires !k.Low?
  {
    && (ok <==> Kid(k, i) in t || (create && CountFree(used) > 0))
    && (if ok then t' == t[Kid(k, i) := next] else t' == t && used' == used)
    && (Kid(k, i) in t ==> next == t[Kid(k, i)] && used' == used)
    && CountFree(used') == CountFree(used) - (if ok && Kid(k, i) !in t then 1 else 0)
    && Grew(t, t', used, used', first)
  }

  /** What a whole walk to `p` does: it arrives exactly when frames suffice for the missing tables, and
      if it fails then because no frame is left. */
  ghost predicate Walked(t: map<Key, nat>, t': map<Key, nat>, used: seq<bool>, used': seq<bool>, first: nat,
                         p: Path, create: bool, ok: bool, f: nat) {
    && (ok <==> Missing(t, p) <= if create then CountFree(used) else 0)
    && (ok ==> K3(p) in t' && f == t'[K3(p)] && t'.Keys == t.Keys + {K1(p), K2(p), K3(p)})
    && t'.Keys <= t.Keys + {K1(p), K2(p), K3(p)}
    && CountFree(used') == (if ok then CountFree(used) - Missing(t, p) else if create then 0 else CountFree(used))
    && (!create ==> t' == t && used' == used)
    && Grew(t, t', used, used', first)
  }

  /** The tables on the way to a table are there. */
  ghost predicate Rooted(t: map<Key, nat>, p: Path) {
    (K3(p) in t ==> K2(p) in t) && (K2(p) in t ==> K1(p) in t)
  }

  lemma NoTop(t: map<Key, nat>, t1: map<Key, nat>, u: seq<bool>, u1: seq<bool>, first: nat, p: Path, create: bool,
              n: nat, f: nat)
    requires Rooted(t, p) && Stepped(t, t1, u, u1, first, Root, p.i4, create, false, n)
    ensures Walked(t, t1, u, u1, first, p, create, false, f)
  {
  }

  lemma NoMid(t: map<Key, nat>, t1: map<Key, nat>, t2: map<Key, nat>, u: seq<bool>, u1: seq<bool>, u2: seq<bool>,
              first: nat, p: Path, create: bool, n: nat, n2: nat, f: nat)
    requires Rooted(t, p) && Stepped(t, t1, u, u1, first, Root, p.i4, create, true, n)
    requires Stepped(t1, t2, u1, u2, first, K1(p), p.i3, create, false, n2)
    ensures Walked(t, t2, u, u2, first, p, create, false, f)
  {
  }

  lemma AllThree(t: map<Key, nat>, t1: map<Key, nat>, t2: map<Key, nat>, t3: map<Key, nat>,
                 u: seq<bool>, u1: seq<bool>, u2: seq<bool>, u3: seq<bool>,
                 first: nat, p: Path, create: bool, n: nat, n2: nat, ok: bool, f: nat)
    requires Rooted(t, p) && Stepped(t, t1, u, u1, first, Root, p.i4, create, true, n)
    requires Stepped(t1, t2, u1, u2, first, K1(p), p.i3, create, true, n2)
    requires Stepped(t2, t3, u2, u3, first, K2(p), p.i2, create, ok, f)
    ensures Walked(t, t3, u, u3, first, p, create, ok, f)
  {
    assert Grew(t, t3, u, u3, first) by {
      GrewTwice(t, t1, t2, u, u1, u2, first);
      GrewTwice(t, t2, t3, u, u2, u3, first);
    }
  }

  /** Memory, the tables in it and the frames in use. */
  datatype World = World(mem: Mem, tab: map<Key, nat>, used: seq<bool>)

  lemma UpdatedAfter(m: Mem, m1: Mem, m': Mem, root: nat, p: Path, e: Option<nat>)
    requires SameEntries(m, m1, root) && Updated(m1, m', root, p, e)
    ensures Updated(m, m', root, p, e)
  {
  }

  /** What mapping path `p` to entry `word` does. Without tables it fails with -1. It fails with -2 exactly
      when more tables are missing than frames are free, and then no translation changes. Otherwise exactly
      the translation of `p` changes. The frames taken are exactly those of the new tables, at most three. */
  ghost predicate Mapped(s: World, s': World, cr3: nat, first: nat, p: Path, word: nat, rc: int) {
    if cr3 == 0 then rc == -1 && s' == s else MappedIn(s, s', cr3 / PAGE, first, p, word, rc)
  }

  ghost predicate MappedIn(s: World, s': World, root: nat, first: nat, p: Path, word: nat, rc: int) {
    && rc == (if Missing(s.tab, p) <= CountFree(s.used) then 0 else -2)
    && Grew(s.tab, s'.tab, s.used, s'.used, first)
    && s'.tab.Keys <= s.tab.Keys + {K1(p), K2(p), K3(p)} && (rc == 0 ==> {K1(p), K2(p), K3(p)} <= s'.tab.Keys)
    && CountFree(s'.used) == (if rc == 0 then CountFree(s.used) - Missing(s.tab, p) else 0)
    && if rc == 0 then Updated(s.mem, s'.mem, root, p, IfPresent(word)) else SameEntries(s.mem, s'.mem, root)
  }

  /** What unmapping path `p` does. It fails with -2, changing nothing, exactly when a table on the way is missing. */
  ghost predicate Unmapped(s: World, s': World, cr3: nat, p: Path, rc: int) {
    if cr3 == 0 then rc == -1 && s' == s else UnmappedIn(s, s', cr3 / PAGE, p, rc)
  }

  ghost predicate UnmappedIn(s: World, s': World, root: nat, p: Path, rc: int) {
    && rc == (if Missing(s.tab, p) == 0 then 0 else -2)
    && s'.tab == s.tab && s'.used == s.used
    && if rc == 0 then Updated(s.mem, s'.mem, root, p, None) else s'.mem == s.mem
  }

  lemma MapDone(s: World, s1: World, s': World, root: nat, first: nat, p: Path, word: nat, rc: int, f: nat)
    requires rc == 0 || rc == -2
    requires Walked(s.tab, s1.tab, s.used, s1.used, first, p, true, rc == 0, f) && SameEntries(s.mem, s1.mem, root)
    requires s'.tab == s1.tab && s'.used == s1.used
    requires if rc == 0 then Updated(s1.mem, s'.mem, root, p, IfPresent(word)) else s'.mem == s1.mem
    ensures MappedIn(s, s', root, first, p, word, rc)
  {
    if rc == 0 { UpdatedAfter(s.mem, s1.mem, s'.mem, root, p, IfPresent(word)); }
  }

  lemma UnmapDone(s: World, s': World, root: nat, first: nat, p: Path, rc: int, f: nat)
    requires rc == 0 || rc == -2
    requires Walked(s.tab, s'.tab, s.used, s'.used, first, p, false, rc == 0, f)
    requires if rc == 0 then Updated(s.mem, s'.mem, root, p, None) else s'.mem == s.mem
    ensures UnmappedIn(s, s', root, p, rc)
  {
  }

  /** Mapping page `n` to itself when the pages below are: one page more, or too few frames for it. */
  lemma IdentityStep(s: World, s': World, root: nat, first: nat, n: nat, p: Path, rc: int, free: nat)
    requires PagePath(n, p) && MappedIn(s, s', root, first, p, n * PAGE + 3, rc)
    requires Exact(s.tab, n) && IdentityBelow(s.mem, root, n) && CountFree(s.used) + Needed(n) == free
    ensures rc == 0 ==> Exact(s'.tab, n + 1) && IdentityBelow(s'.mem, root, n + 1)
    ensures rc == 0 ==> CountFree(s'.used) + Needed(n + 1) == free
    ensures rc != 0 ==> IdentityBelow(s'.mem, root, n) && free < Needed(n + 1)
  {
    assert Needed(n + 1) == Needed(n) + Missing(s.tab, p) by { MissingIs(s.tab, n, p); }
    if rc == 0 {
      assert Exact(s'.tab, n + 1) by { ExactStep(s.tab, s'.tab, n, p); }
      assert IfPresent(n * PAGE + 3) == Some(n * PAGE + 3) by { EntryPresent(n); }
      assert IdentityBelow(s'.mem, root, n + 1) by { BelowStep(s.mem, s'.mem, root, n, p); }
    } else {
      assert IdentityBelow(s'.mem, root, n) by { BelowSame(s.mem, s'.mem, root, n); }
    }
  }

  lemma EntryPresent(n: nat)
    ensures Present(n * PAGE + 3)
  {
  }

  lemma MissingIs(t: map<Key, nat>, n: nat, p: Path)
    requires PagePath(n, p) && Exact(t, n)
    ensures Needed(n + 1) == Needed(n) + Missing(t, p)
  {
    NextNeeds(n, p);
    NeededNext(n);
  }

  lemma ExactStep(t: map<Key, nat>, t': map<Key, nat>, n: nat, p: Path)
    requires PagePath(n, p) && Exact(t, n) && Extends(t, t')
    requires t'.Keys <= t.Keys + {K1(p), K2(p), K3(p)} && {K1(p), K2(p), K3(p)} <= t'.Keys
    ensures Exact(t', n + 1)
  {
    forall k
      ensures k in t' <==> Needs(n + 1, k)
    {
      NextTables(n, p, k);
      assert k in t ==> t[k] == t'[k];
    }
  }

  lemma BelowSame(m: Mem, m': Mem, root: nat, n: nat)
    requires IdentityBelow(m, root, n) && SameEntries(m, m', root)
    ensures IdentityBelow(m', root, n)
  {
    forall q | PathOk(q)
      ensures Entry(m', root, q) == IdentityEntry(Num(q), n)
    {
      assert Entry(m, root, q) == IdentityEntry(Num(q), n);
    }
  }

  lemma BelowStep(m: Mem, m': Mem, root: nat, n: nat, p: Path)
    requires PathOk(p) && Num(p) == n && IdentityBelow(m, root, n) && Updated(m, m', root, p, Some(n * PAGE + 3))
    ensures IdentityBelow(m', root, n + 1)
  {
    forall q | PathOk(q)
      ensures Entry(m', root, q) == IdentityEntry(Num(q), n + 1)
    {
      OneEntryMore(p, q, n, Entry(m, root, q), Entry(m', root, q));
    }
  }

  /** A prefix of the address space mapped page to page translates every address in it to itself, and no other. */
  lemma IdentityTranslates(mem: Mem, root: nat, n: nat, va: nat)
    requires IdentityBelow(mem, root, n)
    ensures Xlate(mem, root, va) == if PageNo(va) < n then Some(va % 0x1_0000_0000_0000) else None
  {
    IndicesArePage(va);
    ThroughIdentity(mem, root, n, Split(va), va);
    OwnAddress(PageNo(va), va);
  }

  lemma ThroughIdentity(mem: Mem, root: nat, n: nat, p: Path, va: nat)
    requires IdentityBelow(mem, root, n) && PathOk(p)
    ensures Through(Entry(mem, root, p), va) == Through(IdentityEntry(Num(p), n), va)
  {
  }

  lemma OwnAddress(k: nat, va: nat)
    requires k == PageNo(va)
    ensures Translate(k * PAGE + 3, va) == va % 0x1_0000_0000_0000
  {
    assert (k * PAGE + 3) / PAGE == k;
    assert va / 0x1000 % 0x10_0000_0000 * 0x1000 + va % 0x1000 == va % 0x1_0000_0000_0000;
  }

  /** `n` is as many pages as `free` frames can map. */
  ghost predicate LongestPrefix(n: nat, free: nat) {
    n <= PAGES && Needed(n) <= free && (n < PAGES ==> free < Needed(n + 1))
  }

  /** All of 4 GiB is mapped exactly when at least 2054 frames were free. */
  lemma WholeIff(n: nat, free: nat)
    requires LongestPrefix(n, free)
    ensures n == PAGES <==> free >= 2054
  {
    AllNeeded();
    if n < PAGES { NeededGrows(n + 1, PAGES); }
  }

  lemma EmptyRoot(mem: Mem, tab: map<Key, nat>, root: nat)
    requires root < |mem| && mem[root] == ZeroTable() && tab == map[Root := root]
    requires forall f :: 0 <= f < |mem| ==> |mem[f]| == ENTRIES
    ensures Tree(mem, tab) && Exact(tab, 0) && IdentityBelow(mem, root, 0)
  {
    assert Tree(mem, tab);
    forall p | PathOk(p)
      ensures Entry(mem, root, p) == None
    {
      EntryByTree(mem, tab, root, p);
    }
  }

  /** The first `n` pages are mapped to themselves, with the tables and frames that takes. */
  ghost predicate Prefix(s0: World, s: World, root: nat, first: nat, n: nat, free: nat) {
    && Exact(s.tab, n) && IdentityBelow(s.mem, root, n) && CountFree(s.used) + Needed(n) == free
    && Grew(s0.tab, s.tab, s0.used, s.used, first)
  }

  /** As many pages are mapped as frames allow. */
  ghost predicate Stuck(s0: World, s: World, root: nat, first: nat, n: nat, free: nat) {
    IdentityBelow(s.mem, root, n) && LongestPrefix(n, free) && Grew(s0.tab, s.tab, s0.used, s.used, first)
  }

  /** How far the mapping has come: stuck once it has failed. */
  ghost predicate Far(rc: int, s0: World, s: World, root: nat, first: nat, n: nat, free: nat) {
    if rc == 0 then Prefix(s0, s, root, first, n, free) else Stuck(s0, s, root, first, n, free)
  }

  lemma FarEnough(rc: int, a: nat, s0: World, s: World, root: nat, first: nat, n: nat, free: nat)
    requires Far(rc, s0, s, root, first, n, free) && n <= PAGES && a == n * PAGE && (rc != 0 || a >= PAGES * PAGE)
    ensures Stuck(s0, s, root, first, n, free)
  {
  }

  lemma PrefixStep(s0: World, s: World, s': World, root: nat, first: nat, n: nat, p: Path, w: nat, rc: int, free: nat)
    requires PagePath(n, p) && w == n * PAGE + 3 && MappedIn(s, s', root, first, p, w, rc)
             && Prefix(s0, s, root, first, n, free)
    ensures if rc == 0 then Prefix(s0, s', root, first, n + 1, free) else Stuck(s0, s', root, first, n, free)
  {
    IdentityStep(s, s', root, first, n, p, rc, free);
    GrewTwice(s0.tab, s.tab, s'.tab, s0.used, s.used, s'.used, first);
  }

  class PageTables {
    var mem: Mem
    var cr3: nat
    const pmm: FrameAllocator
    /** The tables by their place in the tree. */
    ghost var tab: map<Key, nat>

    constructor (pmm: FrameAllocator, mem: Mem)
      ensures this.pmm == pmm && this.mem == mem && cr3 == 0 && tab == map[]
    {
      this.pmm, this.mem, cr3, tab := pmm, mem, 0, map[];
    }

    /** The number of the first frame of the bitmap. */
    ghost function First(): nat
      reads pmm
    {
      pmm.base / PAGE
    }

    /** Memory holds every frame that the allocator may hand out, and address 0 is not among them. */
    ghost predicate Ready()
      reads this, pmm, pmm.bitmap
    {
      && pmm.Valid() && pmm.limit <= |mem| * PAGE && (forall f :: 0 <= f < |mem| ==> |mem[f]| == ENTRIES)
      && (pmm.base > 0 || (pmm.Frames() > 0 ==> pmm.Used()[0]))
    }

    ghost predicate Owned()
      requires pmm.Bounded()
      reads this, pmm, pmm.bitmap
    {
      OwnedBy(tab, First(), pmm.Used())
    }

    ghost predicate Valid()
      reads this, pmm, pmm.bitmap
    {
      && Ready() && Owned()
      && (cr3 == 0 ==> tab == map[])
      && (cr3 != 0 ==> Tree(mem, tab) && cr3 == tab[Root] * PAGE)
    }

    /** The tree of tables, without the control register that points to it. */
    ghost predicate Built()
      reads this, pmm, pmm.bitmap
    {
      Ready() && Owned() && Tree(mem, tab)
    }

    /** The tree under `root`, as memory, tables and frames in use are in `s`. */
    ghost predicate BuiltAs(s: World, root: nat, first: nat)
      reads this, pmm, pmm.bitmap
    {
      Built() && tab[Root] == root && s == Snap() && first == First()
    }

    /** Allocate one frame for a table and zero it: its frame number, or 0 when no frame is free. */
    method NewFrame() returns (g: nat)
      requires Ready()
      modifies this`mem, pmm, pmm.bitmap
      ensures Ready() && pmm.base == old(pmm.base) && pmm.limit == old(pmm.limit)
      ensures g == 0 <==> CountFree(old(pmm.Used())) == 0
      ensures g == 0 ==> pmm.Used() == old(pmm.Used()) && mem == old(mem)
      ensures g != 0 ==>
                && Took(old(pmm.Used()), pmm.Used(), First(), g)
                && g < |old(mem)| == |mem| && mem == old(mem)[g := ZeroTable()]
    {
      ghost var used := pmm.Used();
      OneFree(used);
      ghost var r := LowestRun(used, 1, 0);
      if r < |used| { assert RunAt(used, r, 1); }
      var newp := pmm.Alloc(1);
      g := newp / PAGE;
      if newp != 0 {
        assert Fill(used, r, r + 1, true) == used[r := true];
        CountUpdate(used, r, true);
        ZeroFrame(g);
      }
    }

    /** Clear the 512 words of a frame. */
    method ZeroFrame(g: nat)
      requires g < |mem| && |mem[g]| == ENTRIES
      modifies this`mem
      ensures mem == old(mem)[g := ZeroTable()]
    {
      for i := 0 to ENTRIES
        invariant |mem| == |old(mem)| && |mem[g]| == ENTRIES && mem == old(mem)[g := mem[g]]
        invariant forall j :: 0 <= j < i ==> mem[g][j] == 0
      {
        mem := Store(mem, g, i, 0);
      }
      assert mem[g] == ZeroTable();
    }

    /** One level of `get_pte`: follow entry `i` of the table in frame `f`, making the next table if
        `create` is set and there is none. */
    method Descend(f: nat, i: nat, create: bool, ghost k: Key) returns (ok: bool, next: nat)
      requires Built() && k in tab && !k.Low? && f == tab[k] && i < ENTRIES
      modifies this`mem, this`tab, pmm, pmm.bitmap
      ensures Built() && pmm.base == old(pmm.base) && pmm.limit == old(pmm.limit) && |mem| == |old(mem)|
      ensures tab[Root] == old(tab)[Root]
      ensures Stepped(old(tab), tab, old(pmm.Used()), pmm.Used(), First(), k, i, create, ok, next)
      ensures !create ==> mem == old(mem)
      ensures SameEntries(old(mem), mem, tab[Root])
    {
      assert Linked(mem, tab, k, i);
      var e := mem[f][i];
      ghost var t, used := tab, pmm.Used();
      NothingGrew(t, used, First());
      if Present(e) { return true, FrameOf(e); }
      if !create { return false, 0; }
      next := MakeTable(f, i, k);
      ok := next != 0;
      if ok { TookGrew(t, tab, used, pmm.Used(), First(), Kid(k, i), next); }
    }

    /** `get_pte` on the four indices of an address: the frame of the leaf table, making missing tables if
        `create` is set. */
    method GetPte(root: nat, p: Path, create: bool) returns (ok: bool, f: nat)
      requires Built() && root == tab[Root] && PathOk(p)
      modifies this`mem, this`tab, pmm, pmm.bitmap
      ensures Built() && pmm.base == old(pmm.base) && pmm.limit == old(pmm.limit) && |mem| == |old(mem)|
      ensures tab[Root] == root && SameEntries(old(mem), mem, root) && (!create ==> mem == old(mem))
      ensures Walked(old(tab), tab, old(pmm.Used()), pmm.Used(), First(), p, create, ok, f)
    {
      ghost var s := Snap();
      assert Rooted(s.tab, p);
      var f3;
      ok, f3 := Descend(root, p.i4, create, Root);
      f := 0;
      if !ok {
        NoTop(s.tab, tab, s.used, pmm.Used(), First(), p, create, f3, f);
        return;
      }
      assert K1(p) == Kid(Root, p.i4);
      ok, f := LowerLevels(f3, p, create, s);
    }

    /** The second and the third level, from the state `s` before the first. */
    method LowerLevels(f3: nat, p: Path, create: bool, ghost s: World) returns (ok: bool, f: nat)
      requires Built() && K1(p) in tab && f3 == tab[K1(p)] && PathOk(p) && Rooted(s.tab, p)
      requires Stepped(s.tab, tab, s.used, pmm.Used(), First(), Root, p.i4, create, true, f3)
      requires SameEntries(s.mem, mem, tab[Root]) && (!create ==> mem == s.mem)
      modifies this`mem, this`tab, pmm, pmm.bitmap
      ensures Built() && pmm.base == old(pmm.base) && pmm.limit == old(pmm.limit) && |mem| == |old(mem)|
      ensures tab[Root] == old(tab)[Root] && SameEntries(s.mem, mem, tab[Root]) && (!create ==> mem == s.mem)
      ensures Walked(s.tab, tab, s.used, pmm.Used(), First(), p, create, ok, f)
    {
      ghost var s1, root, first := Snap(), tab[Root], First();
      var f2;
      ok, f2 := Descend(f3, p.i3, create, K1(p));
      ghost var s2 := Snap();
      f := 0;
      assert SameEntries(s.mem, s2.mem, root) by { SameTwice(s.mem, s1.mem, s2.mem, root); }
      if !ok {
        NoMid(s.tab, s1.tab, s2.tab, s.used, s1.used, s2.used, first, p, create, f3, f2, f);
        return;
      }
      assert K2(p) == Kid(K1(p), p.i3);
      ok, f := Descend(f2, p.i2, create, K2(p));
      assert SameEntries(s.mem, mem, root) by { SameTwice(s.mem, s2.mem, mem, root); }
      AllThree(s.tab, s1.tab, s2.tab, tab, s.used, s1.used, s2.used, pmm.Used(), first, p, create, f3, f2, ok, f);
    }

    /** Write the leaf entry on path `p`. */
    method PutEntry(f: nat, i: nat, w: nat, ghost p: Path)
      requires Built() && PathOk(p) && K3(p) in tab && f == tab[K3(p)] && i == p.i1
      modifies this`mem
      ensures Built() && |mem| == |old(mem)| && Updated(old(mem), mem, tab[Root], p, IfPresent(w))
      ensures Snap() == old(Snap()).(mem := mem)
    {
      StoreUpdates(mem, tab, p, w);
      ghost var used := pmm.Used();
      mem := Store(mem, f, i, w);
      assert pmm.Used() == used;
    }

    /** The frame of the root table. */
    method RootFrame() returns (root: nat)
      requires Valid() && cr3 != 0
      ensures root == cr3 / PAGE == tab[Root] && cr3 == root * PAGE
    {
      root := cr3 / PAGE;
    }

    /** `vmm_map_page`. */
    method MapPage(va: nat, phys: nat, flags: nat) returns (rc: int)
      requires Valid()
      modifies this`mem, this`tab, pmm, pmm.bitmap
      ensures Valid() && pmm.base == old(pmm.base) && pmm.limit == old(pmm.limit) && |mem| == |old(mem)|
      ensures Mapped(old(Snap()), Snap(), cr3, First(), Split(va), LeafWord(phys, flags), rc)
      ensures LeafOf(LeafWord(phys, flags), phys, flags)
    {
      LeafBits(phys, flags);
      if cr3 == 0 { return -1; }
      var root := RootFrame();
      rc := MapAt(root, Split(va), LeafWord(phys, flags));
    }

    method MapAt(root: nat, p: Path, w: nat) returns (rc: int)
      requires Built() && root == tab[Root] && PathOk(p)
      modifies this`mem, this`tab, pmm, pmm.bitmap
      ensures Built() && pmm.base == old(pmm.base) && pmm.limit == old(pmm.limit) && |mem| == |old(mem)|
              && tab[Root] == root
      ensures MappedIn(old(Snap()), Snap(), root, First(), p, w, rc)
    {
      ghost var s, first := Snap(), First();
      var ok, f := GetPte(root, p, true);
      ghost var s1 := Snap();
      if !ok {
        MapDone(s, s1, s1, root, first, p, w, -2, f);
        return -2;
      }
      PutEntry(f, p.i1, w, p);
      MapDone(s, s1, Snap(), root, first, p, w, 0, f);
      return 0;
    }

    /** `vmm_unmap_page`. */
    method UnmapPage(va: nat) returns (rc: int)
      requires Valid()
      modifies this`mem, this`tab, pmm, pmm.bitmap
      ensures Valid() && pmm.base == old(pmm.base) && pmm.limit == old(pmm.limit) && |mem| == |old(mem)|
      ensures Unmapped(old(Snap()), Snap(), cr3, Split(va), rc)
    {
      if cr3 == 0 { return -1; }
      var root := RootFrame();
      rc := UnmapAt(root, Split(va));
    }

    method UnmapAt(root: nat, p: Path) returns (rc: int)
      requires Built() && root == tab[Root] && PathOk(p)
      modifies this`mem, this`tab, pmm, pmm.bitmap
      ensures Built() && pmm.base == old(pmm.base) && pmm.limit == old(pmm.limit) && |mem| == |old(mem)|
      ensures UnmappedIn(old(Snap()), Snap(), root, p, rc)
    {
      ghost var s, first := Snap(), First();
      var ok, f := GetPte(root, p, false);
      rc := -2;
      if ok {
        PutEntry(f, p.i1, 0, p);
        rc := 0;
      }
      UnmapDone(s, Snap(), root, first, p, rc, f);
    }

    /** `vmm_virt_to_phys`. */
    method VirtToPhys(va: nat) returns (out: Option<nat>)
      requires Valid()
      modifies this`mem, this`tab, pmm, pmm.bitmap
      ensures Valid() && Snap() == old(Snap()) && pmm.base == old(pmm.base) && pmm.limit == old(pmm.limit)
      ensures out == if cr3 == 0 then None else Xlate(mem, cr3 / PAGE, va)
    {
      if cr3 == 0 { return None; }
      var root := RootFrame();
      var e := LookUp(root, Split(va));
      match e
      case None => return None;
      case Some(w) => return Some(Translate(w, va));
    }

    method LookUp(root: nat, p: Path) returns (e: Option<nat>)
      requires Built() && root == tab[Root] && PathOk(p)
      modifies this`mem, this`tab, pmm, pmm.bitmap
      ensures Built() && Snap() == old(Snap()) && pmm.base == old(pmm.base) && pmm.limit == old(pmm.limit)
      ensures e == Entry(mem, root, p)
    {
      EntryByTree(mem, tab, root, p);
      var ok, f := GetPte(root, p, false);
      if !ok { return None; }
      var w := mem[f][p.i1];
      return if Present(w) then Some(w) else None;
    }

    /** The root table alone. */
    method NewRoot() returns (root: nat)
      requires Ready() && tab == map[]
      modifies this`mem, this`tab, pmm, pmm.bitmap
      ensures Ready() && pmm.base == old(pmm.base) && pmm.limit == old(pmm.limit) && |mem| == |old(mem)|
      ensures root == 0 <==> CountFree(old(pmm.Used())) == 0
      ensures root == 0 ==> Snap() == old(Snap())
      ensures root != 0 ==>
                && Built() && tab == map[Root := root] && Exact(tab, 0) && IdentityBelow(mem, root, 0)
                && CountFree(pmm.Used()) == CountFree(old(pmm.Used())) - 1
                && Grew(map[], tab, old(pmm.Used()), pmm.Used(), First())
    {
      ghost var used := pmm.Used();
      root := NewFrame();
      if root == 0 { return; }
      tab := map[Root := root];
      assert pmm.Used() == used[root - First() := true];
      TookGrew(map[], tab, used, pmm.Used(), First(), Root, root);
      EmptyRoot(mem, tab, root);
    }

    /** `vmm_load_cr3`. */
    method LoadCr3(root: nat)
      modifies this`cr3
      ensures cr3 == root * PAGE && cr3 / PAGE == root
    {
      cr3 := root * PAGE;
    }

    /** `vmm_init_identity`: `n` pages get mapped. */
    method InitIdentity() returns (ghost n: nat)
      requires Ready() && cr3 == 0 && tab == map[]
      modifies this, pmm, pmm.bitmap
      ensures Valid() && pmm.base == old(pmm.base) && pmm.limit == old(pmm.limit) && |mem| == |old(mem)|
      ensures var free := CountFree(old(pmm.Used()));
              if free == 0 then cr3 == 0 && Snap() == old(Snap())
              else cr3 != 0 && IdentityBelow(mem, cr3 / PAGE, n) && LongestPrefix(n, free)
                   && Grew(map[], tab, old(pmm.Used()), pmm.Used(), First())
    {
      n := 0;
      ghost var s0, first, free := Snap(), First(), CountFree(pmm.Used());
      var root := NewRoot();
      if root == 0 { return; }
      ghost var s1 := Snap();
      NothingGrew(s1.tab, s1.used, first);
      n := MapPrefix(root, free);
      ghost var s2 := Snap();
      GrewTwice(map[], s1.tab, s2.tab, s0.used, s1.used, s2.used, first);
      Install(root);
    }

    /** Make the tables under `root` the current ones. */
    method Install(root: nat)
      requires Built() && root == tab[Root] && 0 < root
      modifies this`cr3
      ensures Valid() && cr3 != 0 && cr3 / PAGE == root && Snap() == old(Snap())
    {
      ghost var used := pmm.Used();
      LoadCr3(root);
      assert pmm.Used() == used;
    }

    method PathOf(a: nat, ghost n: nat) returns (p: Path)
      requires n < PAGES && a == n * PAGE
      ensures PagePath(n, p)
    {
      PathOfPage(n);
      p := Split(a);
    }

    /** Map the page at `a` to itself. */
    method MapNext(root: nat, a: nat, ghost s0: World, ghost n: nat, ghost free: nat) returns (rc: int)
      requires Built() && root == tab[Root] && n < PAGES && a == n * PAGE && Prefix(s0, Snap(), root, First(), n, free)
      modifies this`mem, this`tab, pmm, pmm.bitmap
      ensures Built() && pmm.base == old(pmm.base) && pmm.limit == old(pmm.limit) && |mem| == |old(mem)|
              && tab[Root] == root
      ensures Far(rc, s0, Snap(), root, First(), if rc == 0 then n + 1 else n, free)
    {
      ghost var s, first := Snap(), First();
      var p := PathOf(a, n);
      var w := a + 3;
      rc := MapAt(root, p, w);
      PrefixStep(s0, s, Snap(), root, first, n, p, w, rc, free);
    }

    method MapPrefix(root: nat, ghost free: nat) returns (ghost n: nat)
      requires Built() && root == tab[Root] && Prefix(Snap(), Snap(), root, First(), 0, free)
      modifies this`mem, this`tab, pmm, pmm.bitmap
      ensures Built() && pmm.base == old(pmm.base) && pmm.limit == old(pmm.limit) && |mem| == |old(mem)|
              && tab[Root] == root
      ensures Stuck(old(Snap()), Snap(), root, First(), n, free)
    {
      n := 0;
      ghost var s0, first := Snap(), First();
      ghost var s := s0;
      var a, rc := 0, 0;
      while rc == 0 && a < PAGES * PAGE
        invariant n <= PAGES && a == n * PAGE
        invariant pmm.base == old(pmm.base) && pmm.limit == old(pmm.limit) && |mem| == |old(mem)|
        invariant BuiltAs(s, root, first) && Far(rc, s0, s, root, first, n, free)
      {
        rc := MapNext(root, a, s0, n, free);
        s := Snap();
        if rc == 0 { a, n := a + PAGE, n + 1; }
      }
      FarEnough(rc, a, s0, s, root, first, n, free);
    }

    ghost function Snap(): World
      requires pmm.Bounded()
      reads this, pmm, pmm.bitmap
    {
      World(mem, tab, pmm.Used())
    }

    /** A new, empty table at entry `i` of the table in frame `f`: its frame, or 0 when no frame is free. */
    method MakeTable(f: nat, i: nat, ghost k: Key) returns (next: nat)
      requires Built() && k in tab && !k.Low? && f == tab[k] && i < ENTRIES && Kid(k, i) !in tab
      modifies this`mem, this`tab, pmm, pmm.bitmap
      ensures Built() && pmm.base == old(pmm.base) && pmm.limit == old(pmm.limit) && |mem| == |old(mem)|
      ensures next == 0 <==> CountFree(old(pmm.Used())) == 0
      ensures next == 0 ==> tab == old(tab) && mem == old(mem) && pmm.Used() == old(pmm.Used())
      ensures next != 0 ==> tab == old(tab)[Kid(k, i) := next] && Took(old(pmm.Used()), pmm.Used(), First(), next)
      ensures SameEntries(old(mem), mem, old(tab)[Root])
    {
      ghost var m, t, used := mem, tab, pmm.Used();
      next := NewFrame();
      if next == 0 { return; }
      assert f != next by { NotOwned(t, First(), used, next - First()); }
      ghost var now := pmm.Used();
      SetWord(f, i, next * PAGE + 3);
      tab := tab[Kid(k, i) := next];
      assert pmm.Used() == now;
      FreshTableJoins(m, t, k, i, First(), used, next, mem, tab, now);
    }

    method SetWord(f: nat, i: nat, w: nat)
      requires f < |mem| && i < |mem[f]|
      modifies this`mem
      ensures mem == Store(old(mem), f, i, w)
    {
      mem := Store(mem, f, i, w);
    }
  }
}

/** The tables that an identity map of the first pages needs (mm/vmm.c, `vmm_init_identity`). */
module Identity {
  import opened Bytes
  import opened PageTree

  /** Pages below 4 GiB. */
  const PAGES: nat := 0x10_0000

  /** The page number that a path spells. */
  function Num(p: Path): nat {
    ((p.i4 * 512 + p.i3) * 512 + p.i2) * 512 + p.i1
  }

  lemma NumIsOneToOne(p: Path, q: Path)
    requires PathOk(p) && PathOk(q) && Num(p) == Num(q)
    ensures p == q
  {
    Digit(p.i4 * 512 * 512 + p.i3 * 512 + p.i2, p.i1, q.i4 * 512 * 512 + q.i3 * 512 + q.i2, q.i1);
    Digit(p.i4 * 512 + p.i3, p.i2, q.i4 * 512 + q.i3, q.i2);
    Digit(p.i4, p.i3, q.i4, q.i3);
  }

  lemma Digit(a: nat, x: nat, b: nat, y: nat)
    requires x < 512 && y < 512 && a * 512 + x == b * 512 + y
    ensures a == b && x == y
  {
  }

  /** `p` is the path of page `n`, below 4 GiB. */
  ghost predicate PagePath(n: nat, p: Path) {
    n < PAGES && PathOk(p) && Num(p) == n
  }

  lemma PathOfPage(n: nat)
    requires n < PAGES
    ensures PagePath(n, Split(n * PAGE))
  {
    IndicesArePage(n * PAGE);
    assert n * PAGE / 0x1000 == n;
  }

  lemma PathParts(n: nat, p: Path)
    requires PagePath(n, p)
    ensures p == Path(0, n / 512 / 512, n / 512 % 512, n % 512)
  {
    NumIsOneToOne(p, Path(0, n / 512 / 512, n / 512 % 512, n % 512));
  }

  /** The tables that the first `n` pages need: Intel's levels 4, 3, 2 and 1. */
  predicate Needs(n: nat, k: Key) {
    match k
    case Root => true
    case Top(a) => a == 0 && 0 < n
    case Mid(a, b) => a == 0 && b * 0x4_0000 < n
    case Low(a, b, c) => a == 0 && c < 512 && (b * 512 + c) * 512 < n
  }

  /** How many tables that is: the root, one on level 3, one for each GiB and one for each 2 MiB. */
  function Needed(n: nat): nat {
    (if n == 0 then 1 else 2) + (n + 0x3_ffff) / 0x4_0000 + (n + 511) / 512
  }

  lemma NeededNext(n: nat)
    ensures Needed(n + 1) ==
            Needed(n) + (if n == 0 then 1 else 0) + (if n % 0x4_0000 == 0 then 1 else 0) + if n % 512 == 0 then 1 else 0
  {
    CeilSteps(n);
  }

  lemma CeilSteps(m: nat)
    ensures (m + 1 + 0x3_ffff) / 0x4_0000 == (m + 0x3_ffff) / 0x4_0000 + if m % 0x4_0000 == 0 then 1 else 0
    ensures (m + 1 + 511) / 512 == (m + 511) / 512 + if m % 512 == 0 then 1 else 0
  {
  }

  /** 1 root, 1 second-level, 4 third-level and 2048 leaf tables for all of 4 GiB. */
  lemma AllNeeded()
    ensures Needed(PAGES) == 2054
  {
  }

  lemma NeededGrows(n: nat, m: nat)
    requires n <= m
    ensures Needed(n) <= Needed(m)
  {
    DivGrows(n + 0x3_ffff, m + 0x3_ffff, 0x4_0000);
    DivGrows(n + 511, m + 511, 512);
  }

  lemma DivGrows(a: nat, b: nat, d: nat)
    requires a <= b && 0 < d
    ensures a / d <= b / d
  {
    if a / d > b / d {
      MulMono(b / d + 1, a / d, d);
    }
  }

  /** `tab` has exactly the tables of the first `n` pages. */
  ghost predicate Exact(tab: map<Key, nat>, n: nat) {
    forall k {:trigger k in tab} :: k in tab <==> Needs(n, k)
  }

  /** Page `n` lacks just the tables that make the difference. */
  lemma NextNeeds(n: nat, p: Path)
    requires PagePath(n, p)
    ensures Needs(n, K1(p)) <==> n != 0
    ensures Needs(n, K2(p)) <==> n % 0x4_0000 != 0
    ensures Needs(n, K3(p)) <==> n % 512 != 0
  {
    PathParts(n, p);
    PartNeeds(n);
  }

  lemma PartNeeds(n: nat)
    ensures 0 <= n / 512 / 512 * 0x4_0000 <= n && (n / 512 / 512 * 0x4_0000 < n <==> n % 0x4_0000 != 0)
    ensures 0 <= n / 512 / 512 * 512 + n / 512 % 512
            && ((n / 512 / 512 * 512 + n / 512 % 512) * 512 < n <==> n % 512 != 0)
  {
  }

  lemma NextTables(n: nat, p: Path, k: Key)
    requires PagePath(n, p)
    ensures Needs(n + 1, k) <==> Needs(n, k) || k in {K1(p), K2(p), K3(p)}
  {
    PathParts(n, p);
    match k
    case Root =>
    case Top(a) =>
    case Mid(a, b) =>
      assert Needs(n + 1, k) <==> Needs(n, k) || (a == 0 && b * 0x4_0000 == n);
      assert b == n / 512 / 512 ==> b * 0x4_0000 <= n;
    case Low(a, b, c) =>
      if c < 512 { NextLeaf(n, b, c); }
  }

  lemma NextLeaf(n: nat, b: nat, c: nat)
    requires c < 512
    ensures (b * 512 + c) * 512 < n + 1 <==> (b * 512 + c) * 512 < n || (b == n / 512 / 512 && c == n / 512 % 512)
  {
    var q := n / 512;
    if b == q / 512 && c == q % 512 {
      assert b * 512 + c == q;
    }
    if (b * 512 + c) * 512 == n {
      assert b * 512 + c == q;
      Digit(b, c, q / 512, q % 512);
    }
  }

  /** The entry of page `k` when the first `n` pages are mapped, each to itself, present and writable. */
  function IdentityEntry(k: nat, n: nat): Option<nat> {
    if k < n then Some(k * PAGE + 3) else None
  }

  /** Exactly the first `n` pages are mapped, each to itself. */
  ghost predicate IdentityBelow(mem: Mem, root: nat, n: nat) {
    forall p {:trigger Entry(mem, root, p)} :: PathOk(p) ==> Entry(mem, root, p) == IdentityEntry(Num(p), n)
  }

  lemma OneEntryMore(p: Path, q: Path, n: nat, e: Option<nat>, e': Option<nat>)
    requires PathOk(p) && PathOk(q) && Num(p) == n && e == IdentityEntry(Num(q), n)
    requires e' == if q == p then Some(n * PAGE + 3) else e
    ensures e' == IdentityEntry(Num(q), n + 1)
  {
    if Num(q) == n { NumIsOneToOne(p, q); }
  }
}

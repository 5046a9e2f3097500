/** The FAT as a set of cluster chains: allocation, extension and release (fs/exfat.c). */
module FatChain {
  import opened Bytes

  const EOC: nat := 0xFFFF_FFFF

  /** FAT entries by cluster number, and cluster contents by cluster number. */
  datatype Vol = Vol(fat: seq<nat>, heap: seq<seq<byte>>)

  ghost predicate Sized(v: Vol, csz: nat) {
    && |v.heap| == |v.fat| < EOC
    && forall c :: 2 <= c < |v.heap| ==> |v.heap[c]| == csz
  }

  /** `ch` is what a walk along the FAT from `ch[0]` visits up to the end mark. */
  ghost predicate IsChain(fat: seq<nat>, ch: seq<nat>) {
    && 0 < |ch|
    && (forall i :: 0 <= i < |ch| ==> 2 <= ch[i] < |fat|)
    && (forall i :: 0 <= i < |ch| - 1 ==> fat[ch[i]] == ch[i + 1])
    && fat[ch[|ch| - 1]] == EOC
  }

  ghost predicate NoDup(s: seq<nat>) {
    forall i, j :: 0 <= i < j < |s| ==> s[i] != s[j]
  }

  function Last(s: seq<nat>): nat
    requires 0 < |s|
  {
    s[|s| - 1]
  }

  /** Two equal clusters on a chain would send the walk round for ever: an ended chain is acyclic. */
  lemma {:induction false} ClustersDiffer(fat: seq<nat>, ch: seq<nat>, i: nat, j: nat)
    requires IsChain(fat, ch) && |fat| < EOC && i < j < |ch|
    ensures ch[i] != ch[j]
    decreases |ch| - j
  {
    assert fat[ch[i]] == ch[i + 1];
    if j < |ch| - 1 {
      assert fat[ch[j]] == ch[j + 1];
      ClustersDiffer(fat, ch, i + 1, j + 1);
    }
  }

  lemma ChainIsAcyclic(fat: seq<nat>, ch: seq<nat>)
    requires IsChain(fat, ch) && |fat| < EOC
    ensures NoDup(ch)
  {
    forall i, j | 0 <= i < j < |ch|
      ensures ch[i] != ch[j]
    {
      ClustersDiffer(fat, ch, i, j);
    }
  }

  /** The walk's next step. */
  lemma NextOnChain(fat: seq<nat>, ch: seq<nat>, i: nat)
    requires IsChain(fat, ch) && i < |ch|
    ensures fat[ch[i]] == if i == |ch| - 1 then EOC else ch[i + 1]
  {
  }

  /** Chain entries are in use. */
  lemma ChainInUse(fat: seq<nat>, ch: seq<nat>, i: nat)
    requires IsChain(fat, ch) && i < |ch|
    ensures fat[ch[i]] != 0
  {
    if i < |ch| - 1 { assert fat[ch[i]] == ch[i + 1]; }
  }

  /** The first cluster determines the chain. */
  lemma {:induction false} ChainIsUnique(fat: seq<nat>, a: seq<nat>, b: seq<nat>)
    requires IsChain(fat, a) && IsChain(fat, b) && a[0] == b[0] && |fat| < EOC
    ensures a == b
    decreases |a|
  {
    assert |a| > 1 ==> fat[a[0]] == a[1];
    assert |b| > 1 ==> fat[b[0]] == b[1];
    if |a| > 1 {
      if |b| > 1 {
        ChainTail(fat, a);
        ChainTail(fat, b);
        ChainIsUnique(fat, a[1..], b[1..]);
        assert a == [a[0]] + a[1..] && b == [b[0]] + b[1..];
      }
    }
  }

  lemma ChainTail(fat: seq<nat>, ch: seq<nat>)
    requires IsChain(fat, ch) && 1 < |ch|
    ensures IsChain(fat, ch[1..])
  {
    var t := ch[1..];
    forall i | 0 <= i < |t| - 1
      ensures fat[t[i]] == t[i + 1]
    {
      assert fat[ch[i + 1]] == ch[i + 2];
    }
  }

  /** Chains with different first clusters can still not meet unless one runs into the other;
      chains that share no cluster stay chains whatever happens to the other's entries. */
  lemma ChainFrame(fat: seq<nat>, fat': seq<nat>, ch: seq<nat>)
    requires IsChain(fat, ch) && |fat'| == |fat|
    requires forall i :: 0 <= i < |ch| ==> fat'[ch[i]] == fat[ch[i]]
    ensures IsChain(fat', ch)
  {
  }

  /** Different numbers below `n` are at most `n` many. */
  lemma {:induction false} NoDupBound(s: seq<nat>, n: nat)
    requires NoDup(s) && forall i :: 0 <= i < |s| ==> s[i] < n
    ensures |s| <= n
    decreases n
  {
    if s != [] {
      assert s[0] < n;
      if i: nat :| i < |s| && s[i] == n - 1 {
        NoDupBound(s[..i] + s[i + 1..], n - 1);
      } else {
        NoDupBound(s, n - 1);
      }
    }
  }

  /** A chain is no longer than the FAT. */
  lemma ChainBound(fat: seq<nat>, ch: seq<nat>)
    requires IsChain(fat, ch) && |fat| < EOC
    ensures |ch| <= |fat|
  {
    ChainIsAcyclic(fat, ch);
    NoDupBound(ch, |fat|);
  }

  /** The lowest free cluster from `from` on, or 0. */
  function FirstFree(fat: seq<nat>, from: nat): (r: nat)
    requires 0 < from
    ensures r != 0 ==> from <= r < |fat| && fat[r] == 0
    ensures forall c :: from <= c < |fat| && (r == 0 || c < r) ==> fat[c] != 0
    decreases |fat| - from
  {
    if from >= |fat| then 0 else if fat[from] == 0 then from else FirstFree(fat, from + 1)
  }

  function Zeros(n: nat): (s: seq<byte>) {
    seq(n, _ => 0)
  }

  function Alloc(v: Vol, csz: nat): (r: (Vol, nat))
    requires |v.heap| == |v.fat|
    ensures |r.0.heap| == |r.0.fat| == |v.fat|
  {
    var cl := FirstFree(v.fat, 2);
    if cl == 0 then (v, 0) else (Vol(v.fat[cl := EOC], v.heap[cl := Zeros(csz)]), cl)
  }

  /** Allocate a cluster and hang it after `last`. */
  function Link(v: Vol, csz: nat, last: nat): (v': Vol)
    requires |v.heap| == |v.fat| && last < |v.fat| && FirstFree(v.fat, 2) != 0
    ensures |v'.heap| == |v'.fat| == |v.fat|
  {
    var (v1, cl) := Alloc(v, csz);
    v1.(fat := v1.fat[last := cl][cl := EOC])
  }

  datatype Extension = Extension(v: Vol, added: seq<nat>, ok: bool)

  /** Append up to `k` clusters after cluster `last`, stopping when no cluster is free. */
  function Extend(v: Vol, csz: nat, last: nat, k: nat): (r: Extension)
    requires |v.heap| == |v.fat| && last < |v.fat|
    ensures |r.v.heap| == |r.v.fat| == |v.fat|
    decreases k
  {
    if k == 0 then Extension(v, [], true)
    else
      var cl := FirstFree(v.fat, 2);
      if cl == 0 then Extension(v, [], false)
      else
        var r := Extend(Link(v, csz, last), csz, cl, k - 1);
        Extension(r.v, [cl] + r.added, r.ok)
  }

  /** `v'` is `v` with the clusters of `added` taken from the free ones and zeroed; apart from them
      only the FAT entry of `last` may differ. */
  ghost predicate Grown(v: Vol, v': Vol, csz: nat, last: nat, added: seq<nat>)
    requires |v.heap| == |v.fat|
  {
    && |v'.heap| == |v'.fat| == |v.fat|
    && (forall i :: 0 <= i < |added| ==>
          2 <= added[i] < |v.fat| && v.fat[added[i]] == 0 && v'.heap[added[i]] == Zeros(csz) && v'.fat[added[i]] != 0)
    && (forall c :: 0 <= c < |v.fat| && c !in added ==> v'.heap[c] == v.heap[c])
    && (forall c :: 0 <= c < |v.fat| && c !in added && c != last ==> v'.fat[c] == v.fat[c])
  }

  /** One turn of the extension loop. */
  lemma LinkOne(v: Vol, csz: nat, ch: seq<nat>)
    requires Sized(v, csz) && IsChain(v.fat, ch) && FirstFree(v.fat, 2) != 0
    ensures var cl, v2 := FirstFree(v.fat, 2), Link(v, csz, Last(ch));
            && Sized(v2, csz) && IsChain(v2.fat, ch + [cl]) && v.fat[cl] == 0 && cl != Last(ch)
            && v2.fat[cl] != 0 && v2.fat[Last(ch)] != 0
            && Grown(v, v2, csz, Last(ch), [cl])
  {
    ChainIsAcyclic(v.fat, ch);
    var cl, v2 := FirstFree(v.fat, 2), Link(v, csz, Last(ch));
    forall i | 0 <= i < |ch|
      ensures ch[i] != cl && (i < |ch| - 1 ==> v2.fat[ch[i]] == ch[i + 1])
    {
      assert i < |ch| - 1 ==> v.fat[ch[i]] == ch[i + 1];
    }
  }

  /** What extending chain `ch` of `v` by `k` clusters may give. */
  ghost predicate Extended(v: Vol, csz: nat, ch: seq<nat>, k: nat, r: Extension)
    requires |v.heap| == |v.fat| && 0 < |ch|
  {
    && Sized(r.v, csz) && IsChain(r.v.fat, ch + r.added)
    && Grown(v, r.v, csz, Last(ch), r.added)
    && (if r.ok then |r.added| == k else |r.added| < k && FirstFree(r.v.fat, 2) == 0)
  }

  /** Extension keeps the old chain as a prefix, appends only clusters that were free, zeroed,
      changes no other FAT entry and no other cluster, and stops short only when nothing is free. */
  lemma {:induction false} ExtendChain(v: Vol, csz: nat, ch: seq<nat>, k: nat)
    requires Sized(v, csz) && IsChain(v.fat, ch)
    ensures Extended(v, csz, ch, k, Extend(v, csz, Last(ch), k))
    decreases k
  {
    var cl := FirstFree(v.fat, 2);
    if k == 0 || cl == 0 {
      assert ch + [] == ch;
    } else {
      LinkOne(v, csz, ch);
      var v2 := Link(v, csz, Last(ch));
      assert Last(ch + [cl]) == cl;
      ExtendChain(v2, csz, ch + [cl], k - 1);
      ExtendedStep(v, v2, csz, ch, cl, k - 1, Extend(v2, csz, cl, k - 1));
    }
  }

  lemma ExtendedStep(v: Vol, v2: Vol, csz: nat, ch: seq<nat>, cl: nat, k: nat, r: Extension)
    requires Sized(v, csz) && Sized(v2, csz) && IsChain(v.fat, ch) && IsChain(v2.fat, ch + [cl])
    requires Grown(v, v2, csz, Last(ch), [cl]) && Extended(v2, csz, ch + [cl], k, r)
    requires cl != Last(ch)
    ensures Extended(v, csz, ch, k + 1, Extension(r.v, [cl] + r.added, r.ok))
  {
    assert ch + [cl] + r.added == ch + ([cl] + r.added);
    ChainInUse(r.v.fat, ch + [cl] + r.added, |ch|);
    ChainInUse(v2.fat, ch + [cl], |ch|);
    ChainInUse(v2.fat, ch + [cl], |ch| - 1);
    GrowStep(v, v2, r.v, csz, Last(ch), cl, r.added);
  }

  lemma GrowStep(v: Vol, v2: Vol, v3: Vol, csz: nat, last: nat, cl: nat, added: seq<nat>)
    requires |v.heap| == |v.fat| == |v2.heap| == |v2.fat| == |v3.fat| && last < |v.fat| && cl < |v.fat|
    requires Grown(v, v2, csz, last, [cl]) && Grown(v2, v3, csz, cl, added)
    requires cl != last && v.fat[last] != 0 && v3.fat[cl] != 0 && v2.fat[cl] != 0 && v2.fat[last] != 0
    ensures Grown(v, v3, csz, last, [cl] + added)
  {
    var all := [cl] + added;
    assert forall c :: c in all <==> c == cl || c in added;
    assert [cl][0] == cl;
    forall i | 0 <= i < |all|
      ensures 2 <= all[i] < |v.fat| && v.fat[all[i]] == 0 && v3.heap[all[i]] == Zeros(csz) && v3.fat[all[i]] != 0
    {
      if i > 0 {
        var c := added[i - 1];
        assert all[i] == c && v2.fat[c] == 0;
        assert c !in [cl] && c != last;
      }
    }
  }

  ghost function FreeClusters(fat: seq<nat>): set<nat> {
    set c | 2 <= c < |fat| && fat[c] == 0
  }

  /** Extension succeeds exactly when enough clusters are free. */
  lemma {:induction false} ExtendSucceeds(v: Vol, csz: nat, last: nat, k: nat)
    requires |v.heap| == |v.fat| && last < |v.fat| && v.fat[last] != 0
    ensures Extend(v, csz, last, k).ok <==> k <= |FreeClusters(v.fat)|
    decreases k
  {
    var cl := FirstFree(v.fat, 2);
    if cl == 0 {
      assert FreeClusters(v.fat) == {};
    } else if k > 0 {
      var v2 := Link(v, csz, last);
      assert FreeClusters(v2.fat) == FreeClusters(v.fat) - {cl};
      ExtendSucceeds(v2, csz, cl, k - 1);
    }
  }

  /** The last cluster after an extension that started behind `last`. */
  ghost function EndOf(last: nat, x: Extension): nat {
    if x.added == [] then last else Last(x.added)
  }

  /** Extending in two stages is extending once. */
  lemma {:induction false} ExtendTwice(v: Vol, csz: nat, last: nat, a: nat, b: nat)
    requires |v.heap| == |v.fat| && last < |v.fat| && Extend(v, csz, last, a).ok
    ensures var x := Extend(v, csz, last, a);
            && EndOf(last, x) < |x.v.fat|
            && var y := Extend(x.v, csz, EndOf(last, x), b);
            Extend(v, csz, last, a + b) == Extension(y.v, x.added + y.added, y.ok)
    decreases a
  {
    if a == 0 {
      var y := Extend(v, csz, last, b);
      assert [] + y.added == y.added;
    } else {
      var cl := FirstFree(v.fat, 2);
      var v2 := Link(v, csz, last);
      ExtendTwice(v2, csz, cl, a - 1, b);
      var x, x2 := Extend(v, csz, last, a), Extend(v2, csz, cl, a - 1);
      assert x.added == [cl] + x2.added && EndOf(last, x) == EndOf(cl, x2);
      var y := Extend(x2.v, csz, EndOf(cl, x2), b);
      assert [cl] + (x2.added + y.added) == x.added + y.added;
    }
  }

  /** Once it asks for more clusters than are free, it does not matter how many more. */
  lemma {:induction false} ExtendSaturates(v: Vol, csz: nat, last: nat, k: nat, m: nat)
    requires |v.heap| == |v.fat| && last < |v.fat|
    requires !Extend(v, csz, last, k).ok && !Extend(v, csz, last, m).ok
    ensures Extend(v, csz, last, k) == Extend(v, csz, last, m)
    decreases k
  {
    var cl := FirstFree(v.fat, 2);
    if cl != 0 { ExtendSaturates(Link(v, csz, last), csz, cl, k - 1, m - 1); }
  }

  ghost function FreeBelow(fat: seq<nat>, n: nat): set<nat> {
    set c | 2 <= c < n && c < |fat| && fat[c] == 0
  }

  /** Extension takes clusters in order: `c` is among them exactly when it is free and more clusters are wanted
      than are free below it. */
  lemma {:induction false} ExtendTakesIff(v: Vol, csz: nat, last: nat, k: nat, c: nat)
    requires |v.heap| == |v.fat| && last < |v.fat| && v.fat[last] != 0 && 2 <= c < |v.fat|
    ensures c in Extend(v, csz, last, k).added <==> v.fat[c] == 0 && k > |FreeBelow(v.fat, c)|
    decreases k
  {
    var cl := FirstFree(v.fat, 2);
    if k > 0 && cl != 0 {
      var v2 := Link(v, csz, last);
      ExtendTakesIff(v2, csz, cl, k - 1, c);
      assert Extend(v, csz, last, k).added == [cl] + Extend(v2, csz, cl, k - 1).added;
      if cl == c {
        assert FreeBelow(v.fat, c) == {};
      } else if cl < c {
        assert FreeBelow(v2.fat, c) == FreeBelow(v.fat, c) - {cl};
      }
    }
  }

  /** The FAT after the walk of `unlink` has freed the clusters of `ch` one by one. */
  function Release(fat: seq<nat>, ch: seq<nat>): (fat': seq<nat>)
    requires forall i :: 0 <= i < |ch| ==> ch[i] < |fat|
    ensures |fat'| == |fat|
    decreases |ch|
  {
    if ch == [] then fat else Release(fat[ch[0] := 0], ch[1..])
  }

  /** The walk frees exactly the clusters of the chain. */
  lemma {:induction false} ReleaseFrees(fat: seq<nat>, ch: seq<nat>)
    requires forall i :: 0 <= i < |ch| ==> ch[i] < |fat|
    ensures forall c :: 0 <= c < |fat| ==> Release(fat, ch)[c] == if c in ch then 0 else fat[c]
    decreases |ch|
  {
    if ch != [] {
      ReleaseFrees(fat[ch[0] := 0], ch[1..]);
      assert forall c :: c in ch <==> c == ch[0] || c in ch[1..];
    }
  }

  /** Taking clusters and giving the same clusters back leaves the FAT as it was. */
  lemma ReleaseUndoesGrowth(v: Vol, v': Vol, csz: nat, ch: seq<nat>)
    requires Sized(v, csz) && |v'.fat| == |v.fat|
    requires forall i :: 0 <= i < |ch| ==> ch[i] < |v.fat| && v.fat[ch[i]] == 0
    requires forall c :: 0 <= c < |v.fat| && c !in ch ==> v'.fat[c] == v.fat[c]
    ensures Release(v'.fat, ch) == v.fat
  {
    ReleaseFrees(v'.fat, ch);
  }
}

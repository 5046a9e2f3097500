/** Bytes, little-endian fields inside byte buffers, and 64-bit wrap-around. */
module Bytes {
  newtype byte = b: int | 0 <= b < 256

  datatype Option<T> = None | Some(value: T)

  const TWO32: nat := 0x1_0000_0000
  const TWO63: nat := 0x8000_0000_0000_0000
  const TWO64: nat := 0x1_0000_0000_0000_0000

  /** The value a `uint64_t` holds after an addition or multiplication that gave `x`. */
  function W64(x: nat): nat {
    x % TWO64
  }

  /** The value of an `int` that a 64-bit value was cast to. */
  function Int32(x: int): int {
    var r := x % TWO32;
    if r < 0x8000_0000 then r else r - TWO32
  }

  /** The cast keeps the value modulo 2^32, in the range of a signed 32-bit integer. */
  lemma Int32Iff(x: int, r: int)
    ensures r == Int32(x) <==> -0x8000_0000 <= r < 0x8000_0000 && (x - r) % TWO32 == 0
  {
  }

  lemma Unwrapped(x: nat)
    requires x < TWO64
    ensures W64(x) == x
  {
  }

  function Min(a: int, b: int): int {
    if a < b then a else b
  }

  /** `s` with `d` copied over it at offset `at`. */
  function Splice<T>(s: seq<T>, at: nat, d: seq<T>): (r: seq<T>)
    requires at + |d| <= |s|
    ensures |r| == |s|
  {
    seq(|s|, i requires 0 <= i < |s| => if at <= i < at + |d| then d[i - at] else s[i])
  }

  /** Copying two adjacent pieces is copying their concatenation. */
  lemma SpliceSplice<T>(s: seq<T>, at: nat, d: seq<T>, e: seq<T>)
    requires at + |d| + |e| <= |s|
    ensures Splice(Splice(s, at, d), at + |d|, e) == Splice(s, at, d + e)
  {
  }

  /** `SpliceSplice` for two adjacent slices of one source. */
  lemma SpliceSlices<T>(s: seq<T>, at: nat, src: seq<T>, lo: nat, mid: nat, hi: nat)
    requires lo <= mid <= hi <= |src| && at + (hi - lo) <= |s|
    ensures Splice(Splice(s, at, src[lo..mid]), at + (mid - lo), src[mid..hi]) == Splice(s, at, src[lo..hi])
  {
  }

  /** One more chunk of a copy loop: `was` became `cur`, and now `next`. */
  lemma SpliceChunk<T>(was: seq<T>, cur: seq<T>, next: seq<T>, at: nat, src: seq<T>, lo: nat, mid: nat, hi: nat,
                       mark: nat)
    requires lo <= mid <= hi <= |src| && at + (hi - lo) <= |was| && mark == at + (mid - lo)
    requires cur == Splice(was, at, src[lo..mid]) && next == Splice(cur, mark, src[mid..hi])
    ensures next == Splice(was, at, src[lo..hi])
  {
    SpliceSlices(was, at, src, lo, mid, hi);
  }

  /** One more byte of a copy loop. */
  lemma SpliceStep<T>(s: seq<T>, at: nat, src: seq<T>, lo: nat, k: nat)
    requires lo <= k < |src| && at + (k + 1 - lo) <= |s|
    ensures Splice(s, at, src[lo..k])[at + (k - lo) := src[k]] == Splice(s, at, src[lo..k + 1])
  {
  }

  lemma SpliceRight<T>(a: seq<T>, b: seq<T>, at: nat, d: seq<T>)
    requires at + |d| <= |b|
    ensures Splice(a + b, |a| + at, d) == a + Splice(b, at, d)
  {
  }

  lemma SpliceLeft<T>(a: seq<T>, b: seq<T>, d: seq<T>)
    requires |d| == |a|
    ensures Splice(a + b, 0, d) == d + b
  {
  }

  /** The first elements may be stored one by one. */
  lemma SpliceHead<T>(s: seq<T>, at: nat, x: T, d: seq<T>)
    requires at + 1 + |d| <= |s|
    ensures Splice(s[at := x], at + 1, d) == Splice(s, at, [x] + d)
  {
  }

  lemma SpliceEmpty<T>(s: seq<T>, at: nat, src: seq<T>, k: nat)
    requires k <= |src| && at <= |s|
    ensures Splice(s, at, src[k..k]) == s
  {
  }

  lemma SliceSlice<T>(s: seq<T>, a: nat, n: nat, p: nat, m: nat)
    requires a + n <= |s| && p + m <= n
    ensures s[a..a + n][p..p + m] == s[a + p..a + p + m]
  {
    var l, r := s[a..a + n][p..p + m], s[a + p..a + p + m];
    assert forall i :: 0 <= i < m ==> l[i] == s[a + p + i] == r[i];
  }

  /** Copying into a window of `s` is copying into `s`. */
  lemma SpliceWindow<T>(s: seq<T>, a: nat, n: nat, p: nat, d: seq<T>)
    requires a + n <= |s| && p + |d| <= n
    ensures Splice(s, a + p, d)[a..a + n] == Splice(s[a..a + n], p, d)
    ensures Splice(s, a + p, d) == Splice(s, a, Splice(s[a..a + n], p, d))
  {
  }

  /** Copying into a window changes the window, and nothing outside it. */
  lemma SpliceInside<T>(s: seq<T>, s': seq<T>, a: nat, n: nat, p: nat, mark: nat, d: seq<T>)
    requires a + n <= |s| && p + |d| <= n && mark == a + p && s' == Splice(s, mark, d)
    ensures s'[a..a + n] == Splice(s[a..a + n], p, d)
    ensures forall i :: 0 <= i < |s| && !(a <= i < a + n) ==> s'[i] == s[i]
  {
    SpliceWindow(s, a, n, p, d);
  }

  /** Changing part of what was just copied is copying the changed piece. */
  lemma SpliceNested<T>(s: seq<T>, a: nat, w: seq<T>, p: nat, d: seq<T>)
    requires a + |w| <= |s| && p + |d| <= |w|
    ensures Splice(Splice(s, a, w), a + p, d) == Splice(s, a, Splice(w, p, d))
  {
  }

  /** Read a window, change it, write it back. */
  lemma SpliceBack<T>(s: seq<T>, a: nat, w: seq<T>, p: nat, d: seq<T>, w': seq<T>, s': seq<T>, mark: nat)
    requires a + |w| <= |s| && w == s[a..a + |w|] && p + |d| <= |w| && mark == a + p
    requires w' == Splice(w, p, d) && s' == Splice(s, a, w')
    ensures s' == Splice(s, mark, d)
  {
    SpliceWindow(s, a, |w|, p, d);
  }

  /** The value of a little-endian field. */
  function FromLe(s: seq<byte>): nat {
    if s == [] then 0 else s[0] as int + 0x100 * FromLe(s[1..])
  }

  /** The `n` bytes of a little-endian field that holds `v`. */
  function ToLe(v: nat, n: nat): (s: seq<byte>)
    ensures |s| == n
    decreases n
  {
    if n == 0 then [] else [(v % 0x100) as byte] + ToLe(v / 0x100, n - 1)
  }

  function Pow256(n: nat): nat {
    if n == 0 then 1 else 0x100 * Pow256(n - 1)
  }

  /** What is written little-endian reads back, if it fits. */
  lemma {:induction false} LeRoundTrip(v: nat, n: nat)
    requires v < Pow256(n)
    ensures FromLe(ToLe(v, n)) == v
    decreases n
  {
    if n > 0 {
      LeRoundTrip(v / 0x100, n - 1);
      assert ToLe(v, n)[1..] == ToLe(v / 0x100, n - 1);
    }
  }

  lemma {:induction false} FromLeBound(s: seq<byte>)
    ensures FromLe(s) < Pow256(|s|)
  {
    if s != [] { FromLeBound(s[1..]); }
  }

  lemma Pow256Values()
    ensures Pow256(2) == 0x1_0000 && Pow256(4) == TWO32 && Pow256(8) == TWO64
  {
    assert Pow256(2) == 0x100 * Pow256(1) == 0x1_0000;
    assert Pow256(4) == 0x100 * Pow256(3) == 0x1_0000 * Pow256(2);
    assert Pow256(6) == 0x100 * Pow256(5) == 0x1_0000 * Pow256(4);
    assert Pow256(8) == 0x100 * Pow256(7) == 0x1_0000 * Pow256(6);
  }

  /** 16-, 32- and 64-bit little-endian fields at byte `i`. */
  function U16(s: seq<byte>, i: nat): nat
    requires i + 2 <= |s|
  {
    FromLe(s[i..i + 2])
  }

  function U32(s: seq<byte>, i: nat): (r: nat)
    requires i + 4 <= |s|
    ensures r < TWO32
  {
    Pow256Values();
    FromLeBound(s[i..i + 4]);
    FromLe(s[i..i + 4])
  }

  function U64(s: seq<byte>, i: nat): (r: nat)
    requires i + 8 <= |s|
    ensures r < TWO64
  {
    Pow256Values();
    FromLeBound(s[i..i + 8]);
    FromLe(s[i..i + 8])
  }

  function Le32(v: nat): (r: seq<byte>) {
    ToLe(v, 4)
  }

  function Le64(v: nat): (r: seq<byte>) {
    ToLe(v, 8)
  }

  lemma U16Bytes(s: seq<byte>, i: nat)
    requires i + 2 <= |s|
    ensures U16(s, i) == s[i] as int + 0x100 * s[i + 1] as int
  {
    var t := s[i..i + 2];
    assert FromLe(t) == t[0] as int + 0x100 * FromLe(t[1..]);
    assert FromLe(t[1..]) == t[1] as int + 0x100 * FromLe(t[1..][1..]);
  }

  lemma Le32RoundTrip(s: seq<byte>, i: nat, v: nat)
    requires i + 4 <= |s| && s[i..i + 4] == Le32(v) && v < TWO32
    ensures U32(s, i) == v
  {
    Pow256Values();
    LeRoundTrip(v, 4);
  }

  lemma Le64RoundTrip(s: seq<byte>, i: nat, v: nat)
    requires i + 8 <= |s| && s[i..i + 8] == Le64(v) && v < TWO64
    ensures U64(s, i) == v
  {
    Pow256Values();
    LeRoundTrip(v, 8);
  }

  /** A field's value depends on its own bytes only. */
  lemma U32Frame(s: seq<byte>, t: seq<byte>, i: nat)
    requires i + 4 <= |s| == |t| && forall k :: i <= k < i + 4 ==> s[k] == t[k]
    ensures U32(s, i) == U32(t, i)
  {
    assert s[i..i + 4] == t[i..i + 4];
  }

  /** Multiplication facts that sector and cluster offsets need. */
  lemma MulMono(a: nat, b: nat, n: nat)
    requires a <= b
    ensures a * n <= b * n
  {
  }

  lemma MulLess(a: nat, b: nat, n: nat)
    requires 0 < n
    ensures a <= b <==> a * n <= b * n
  {
  }

  lemma MulAdd(a: nat, b: nat, n: nat)
    ensures (a + b) * n == a * n + b * n
  {
  }

  /** `i * n` by repeated addition. */
  function Times(i: nat, n: nat): nat {
    if i == 0 then 0 else Times(i - 1, n) + n
  }

  lemma {:induction false} TimesIsMul(i: nat, n: nat)
    ensures Times(i, n) == i * n
  {
    if i > 0 {
      TimesIsMul(i - 1, n);
      MulAdd(i - 1, 1, n);
    }
  }

  lemma {:induction false} TimesMono(a: nat, b: nat, n: nat)
    requires a <= b
    ensures Times(a, n) <= Times(b, n)
    decreases b
  {
    if a < b { TimesMono(a, b - 1, n); }
  }

  lemma TimesLess(a: nat, b: nat, n: nat)
    requires 0 < n
    ensures a <= b <==> Times(a, n) <= Times(b, n)
  {
    if a <= b { TimesMono(a, b, n); } else { TimesMono(b + 1, a, n); }
  }

  lemma DivModPos(p: nat, n: nat)
    requires n > 0
    ensures p == (p / n) * n + p % n && p % n < n
  {
  }

  /** Quotient and remainder are determined by the position they stand for. */
  lemma DivModUnique(i: nat, b: nat, n: nat)
    requires b < n
    ensures (i * n + b) / n == i && (i * n + b) % n == b
  {
    var p := i * n + b;
    DivModPos(p, n);
    if p / n < i { MulMono(p / n + 1, i, n); MulAdd(p / n, 1, n); }
    if p / n > i { MulMono(i + 1, p / n, n); MulAdd(i, 1, n); }
  }
}

/** Every run of allocations, reservations and releases (mm/pmm.c). */
module FrameRuns {
  import opened FrameMap

  /** Calls by frame number; `Take(n, end)` allocates `n` frames that end at or below frame `end`. */
  datatype Call = Take(n: nat, end: nat) | Reserve(i: nat, j: nat) | Release(i: nat, j: nat)

  /** Frames `i .. j` handed out by an allocation, or taken by a reservation, and not released since. */
  datatype Claim = Claim(i: nat, j: nat, byAlloc: bool)

  datatype State = State(used: seq<bool>, claims: seq<Claim>)

  ghost predicate CallOk(s: State, c: Call) {
    match c
    case Take(n, end) => end <= |s.used|
    case Reserve(i, j) => i <= j <= |s.used|
    case Release(i, j) => i <= j <= |s.used|
  }

  ghost predicate Overlap(a: Claim, b: Claim) {
    a.i < a.j && b.i < b.j && a.i < b.j && b.i < a.j
  }

  /** What is left of a claim without the frames `i .. j`. */
  ghost function Cut(c: Claim, i: nat, j: nat): seq<Claim> {
    if !Overlap(c, Claim(i, j, false)) then [c]
    else (if c.i < i then [Claim(c.i, i, c.byAlloc)] else []) + if j < c.j then [Claim(j, c.j, c.byAlloc)] else []
  }

  ghost function Outside(claims: seq<Claim>, i: nat, j: nat): seq<Claim> {
    if claims == [] then [] else Cut(claims[0], i, j) + Outside(claims[1..], i, j)
  }

  /** Some claim has frame `f`. */
  ghost predicate Covered(claims: seq<Claim>, f: nat) {
    exists k :: 0 <= k < |claims| && claims[k].i <= f < claims[k].j
  }

  ghost function Step(s: State, c: Call): State
    requires CallOk(s, c)
  {
    match c
    case Take(n, end) =>
      if n == 0 || LowestRun(s.used[..end], n, 0) == end then s
      else
        var r := LowestRun(s.used[..end], n, 0);
        State(Fill(s.used, r, r + n, true), s.claims + [Claim(r, r + n, true)])
    case Reserve(i, j) => State(Fill(s.used, i, j, true), s.claims + [Claim(i, j, false)])
    case Release(i, j) => State(Fill(s.used, i, j, false), Outside(s.claims, i, j))
  }

  ghost predicate Held(used: seq<bool>, c: Claim) {
    c.i <= c.j <= |used| && forall f :: c.i <= f < c.j ==> used[f]
  }

  /** An allocation shares no frame with any earlier claim. */
  ghost predicate InOrder(claims: seq<Claim>) {
    forall k, m :: 0 <= k < m < |claims| && claims[m].byAlloc ==> !Overlap(claims[k], claims[m])
  }

  /** Claimed frames are in use, and an allocation shares no frame with any earlier claim. */
  ghost predicate Inv(s: State) {
    && (forall k :: 0 <= k < |s.claims| ==> Held(s.used, s.claims[k]))
    && InOrder(s.claims)
  }

  ghost predicate PartOf(p: Claim, c: Claim) {
    c.i <= p.i && p.j <= c.j && p.byAlloc == c.byAlloc
  }

  /** What is left of a claim is part of it, lies off the frames given back, and is in pieces that do not overlap. */
  lemma CutParts(c: Claim, i: nat, j: nat)
    requires c.i <= c.j
    ensures var ps := Cut(c, i, j);
            && (forall k :: 0 <= k < |ps| ==>
                  PartOf(ps[k], c) && ps[k].i <= ps[k].j && !Overlap(ps[k], Claim(i, j, false)))
            && (forall k, m :: 0 <= k < m < |ps| ==> !Overlap(ps[k], ps[m]))
            && forall f: nat :: Covered(ps, f) <==> c.i <= f < c.j && !(i <= f < j)
  {
    var ps := Cut(c, i, j);
    forall f: nat
      ensures Covered(ps, f) <==> c.i <= f < c.j && !(i <= f < j)
    {
      if c.i <= f < c.j && !(i <= f < j) {
        var k := if Overlap(c, Claim(i, j, false)) && f >= j then |ps| - 1 else 0;
        assert ps[k].i <= f < ps[k].j;
      }
    }
  }

  /** Every claim that is left is part of one that was there. */
  lemma {:induction false} OutsideParts(claims: seq<Claim>, i: nat, j: nat, m: nat) returns (k: nat)
    requires m < |Outside(claims, i, j)| && forall k :: 0 <= k < |claims| ==> claims[k].i <= claims[k].j
    ensures k < |claims| && PartOf(Outside(claims, i, j)[m], claims[k])
    ensures !Overlap(Outside(claims, i, j)[m], Claim(i, j, false))
            && Outside(claims, i, j)[m].i <= Outside(claims, i, j)[m].j
  {
    var ps := Cut(claims[0], i, j);
    CutParts(claims[0], i, j);
    if m < |ps| {
      assert Outside(claims, i, j)[m] == ps[m];
      k := 0;
    } else {
      k := OutsideParts(claims[1..], i, j, m - |ps|);
      k := k + 1;
    }
  }

  /** Exactly the frames of the claims that were not given back are still claimed. */
  lemma {:induction false} OutsideCovers(claims: seq<Claim>, i: nat, j: nat, f: nat)
    requires forall k :: 0 <= k < |claims| ==> claims[k].i <= claims[k].j
    ensures Covered(Outside(claims, i, j), f) <==> Covered(claims, f) && !(i <= f < j)
  {
    if claims != [] {
      CutParts(claims[0], i, j);
      OutsideCovers(claims[1..], i, j, f);
      CoveredSplit([claims[0]], claims[1..], f);
      assert claims == [claims[0]] + claims[1..];
      assert Covered([claims[0]], f) <==> claims[0].i <= f < claims[0].j by {
        assert [claims[0]][0] == claims[0];
      }
      CoveredSplit(Cut(claims[0], i, j), Outside(claims[1..], i, j), f);
    }
  }

  lemma CoveredSplit(a: seq<Claim>, b: seq<Claim>, f: nat)
    ensures Covered(a + b, f) <==> Covered(a, f) || Covered(b, f)
  {
    if Covered(a, f) {
      var k :| 0 <= k < |a| && a[k].i <= f < a[k].j;
      assert (a + b)[k] == a[k];
    }
    if Covered(b, f) {
      var k :| 0 <= k < |b| && b[k].i <= f < b[k].j;
      assert (a + b)[|a| + k] == b[k];
    }
  }

  /** What stays of a list of claims stays in order. */
  lemma {:induction false} OutsideInOrder(claims: seq<Claim>, i: nat, j: nat)
    requires forall k :: 0 <= k < |claims| ==> claims[k].i <= claims[k].j
    requires InOrder(claims)
    ensures InOrder(Outside(claims, i, j))
  {
    if claims != [] {
      var ps, rest := Cut(claims[0], i, j), Outside(claims[1..], i, j);
      assert InOrder(claims[1..]);
      OutsideInOrder(claims[1..], i, j);
      CutParts(claims[0], i, j);
      var out, d := Outside(claims, i, j), |ps|;
      forall k, m | 0 <= k < m < |out| && out[m].byAlloc
        ensures !Overlap(out[k], out[m])
      {
        if m < d {
          assert out[k] == ps[k] && out[m] == ps[m] && !Overlap(ps[k], ps[m]);
        } else if k < d {
          var n := OutsideParts(claims[1..], i, j, m - d);
          assert !Overlap(claims[0], claims[n + 1]) && PartOf(ps[k], claims[0]);
        } else {
          InRest(ps, rest, out, k, m);
        }
      }
    }
  }

  lemma InRest(ps: seq<Claim>, rest: seq<Claim>, out: seq<Claim>, k: nat, m: nat)
    requires out == ps + rest && |ps| <= k < m < |out| && out[m].byAlloc
    requires InOrder(rest)
    ensures !Overlap(out[k], out[m])
  {
    var d := |ps|;
    assert out[k] == rest[k - d] && out[m] == rest[m - d];
  }

  lemma OutsideKeeps(claims: seq<Claim>, i: nat, j: nat, used: seq<bool>)
    requires Inv(State(used, claims)) && i <= j <= |used|
    ensures Inv(State(Fill(used, i, j, false), Outside(claims, i, j)))
  {
    FillAt(used, i, j, false);
    forall k | 0 <= k < |claims|
      ensures claims[k].i <= claims[k].j
    {
      assert Held(used, claims[k]);
    }
    OutsideInOrder(claims, i, j);
    var out := Outside(claims, i, j);
    forall m | 0 <= m < |out|
      ensures Held(Fill(used, i, j, false), out[m])
    {
      var k := OutsideParts(claims, i, j, m);
      assert Held(used, claims[k]);
    }
  }

  lemma StepKeeps(s: State, c: Call)
    requires Inv(s) && CallOk(s, c)
    ensures Inv(Step(s, c)) && |Step(s, c).used| == |s.used|
  {
    match c
    case Take(n, end) =>
      if n > 0 && LowestRun(s.used[..end], n, 0) < end {
        var r := LowestRun(s.used[..end], n, 0);
        FillAt(s.used, r, r + n, true);
        assert forall f :: r <= f < r + n ==> !s.used[f] by {
          assert forall f :: r <= f < r + n ==> s.used[..end][f] == s.used[f];
        }
        forall k | 0 <= k < |s.claims|
          ensures !Overlap(s.claims[k], Claim(r, r + n, true))
        {
          var f := if s.claims[k].i < r then r else s.claims[k].i;
          assert Held(s.used, s.claims[k]) && (f < s.claims[k].j ==> s.used[f]);
        }
      }
    case Reserve(i, j) => FillAt(s.used, i, j, true);
    case Release(i, j) => OutsideKeeps(s.claims, i, j, s.used);
  }

  ghost predicate RunOk(s: State, calls: seq<Call>)
    decreases |calls|
  {
    calls != [] ==> CallOk(s, calls[0]) && RunOk(Step(s, calls[0]), calls[1..])
  }

  ghost function Run(s: State, calls: seq<Call>): State
    requires RunOk(s, calls)
    decreases |calls|
  {
    if calls == [] then s else Run(Step(s, calls[0]), calls[1..])
  }

  lemma {:induction false} RunKeeps(s: State, calls: seq<Call>)
    requires Inv(s) && RunOk(s, calls)
    ensures Inv(Run(s, calls))
    decreases |calls|
  {
    if calls != [] {
      StepKeeps(s, calls[0]);
      RunKeeps(Step(s, calls[0]), calls[1..]);
    }
  }

  /** After every run from an unclaimed bitmap, live allocations - what is left of them, if part was given back -
      do not overlap each other, nor a live reservation that was made before them; and every frame of a claim
      is in use. */
  lemma LiveAllocationsApart(used: seq<bool>, calls: seq<Call>, k: nat, m: nat)
    requires RunOk(State(used, []), calls) && k < m < |Run(State(used, []), calls).claims|
    ensures var s := Run(State(used, []), calls);
            && Held(s.used, s.claims[k])
            && (s.claims[m].byAlloc ==> !Overlap(s.claims[k], s.claims[m]))
  {
    RunKeeps(State(used, []), calls);
  }

  // ----- reservations made after allocations -----

  /** No live allocation shares a frame with any other claim, reservations of whatever age included. */
  ghost predicate AllApart(claims: seq<Claim>) {
    forall k, m :: 0 <= k < m < |claims| && (claims[k].byAlloc || claims[m].byAlloc) ==> !Overlap(claims[k], claims[m])
  }

  /** A call is careful when a reservation stays off the frames of live allocations. */
  ghost predicate Careful(s: State, c: Call) {
    c.Reserve? ==>
      forall k :: 0 <= k < |s.claims| && s.claims[k].byAlloc ==> !Overlap(s.claims[k], Claim(c.i, c.j, false))
  }

  lemma {:induction false} OutsideApart(claims: seq<Claim>, i: nat, j: nat)
    requires AllApart(claims) && forall k :: 0 <= k < |claims| ==> claims[k].i <= claims[k].j
    ensures AllApart(Outside(claims, i, j))
  {
    if claims != [] {
      var ps, rest := Cut(claims[0], i, j), Outside(claims[1..], i, j);
      OutsideApart(claims[1..], i, j);
      CutParts(claims[0], i, j);
      forall k, m | 0 <= k < |ps| && 0 <= m < |rest| && (ps[k].byAlloc || rest[m].byAlloc)
        ensures !Overlap(ps[k], rest[m])
      {
        var n := OutsideParts(claims[1..], i, j, m);
        assert !Overlap(claims[0], claims[n + 1]);
      }
    }
  }

  /** A call keeps live allocations apart from everything exactly when it is careful. */
  lemma ApartIffCareful(s: State, c: Call)
    requires Inv(s) && CallOk(s, c) && AllApart(s.claims)
    ensures AllApart(Step(s, c).claims) <==> Careful(s, c)
  {
    StepKeeps(s, c);
    match c
    case Take(n, end) =>
    case Reserve(i, j) =>
      var n, claims' := |s.claims|, Step(s, c).claims;
      assert claims'[n] == Claim(i, j, false) && forall k :: 0 <= k < n ==> claims'[k] == s.claims[k];
    case Release(i, j) =>
      assert forall k :: 0 <= k < |s.claims| ==> Held(s.used, s.claims[k]);
      OutsideApart(s.claims, i, j);
  }

  ghost predicate AlwaysCareful(s: State, calls: seq<Call>)
    requires RunOk(s, calls)
    decreases |calls|
  {
    calls != [] ==> Careful(s, calls[0]) && AlwaysCareful(Step(s, calls[0]), calls[1..])
  }

  ghost predicate AlwaysApart(s: State, calls: seq<Call>)
    requires RunOk(s, calls)
    decreases |calls|
  {
    AllApart(s.claims) && (calls != [] ==> AlwaysApart(Step(s, calls[0]), calls[1..]))
  }

  /** Over a whole run no live allocation ever shares a frame with another claim exactly when every
      reservation is careful. */
  lemma {:induction false} RunApartIffCareful(s: State, calls: seq<Call>)
    requires Inv(s) && RunOk(s, calls) && AllApart(s.claims)
    ensures AlwaysApart(s, calls) <==> AlwaysCareful(s, calls)
    decreases |calls|
  {
    if calls != [] {
      StepKeeps(s, calls[0]);
      ApartIffCareful(s, calls[0]);
      if Careful(s, calls[0]) { RunApartIffCareful(Step(s, calls[0]), calls[1..]); }
    }
  }

  /** A reservation that comes later takes frames regardless: it may overlap a live allocation. */
  lemma LateReservationOverlaps()
    ensures var calls := [Take(1, 1), Reserve(0, 1)];
            && RunOk(State([false], []), calls)
            && var s := Run(State([false], []), calls);
            |s.claims| == 2 && s.claims[0].byAlloc && Overlap(s.claims[0], s.claims[1])
  {
    var s0 := State([false], []);
    assert s0.used[..1] == [false];
    assert RunAt([false], 0, 1);
    var s1 := Step(s0, Take(1, 1));
    assert s1.claims == [Claim(0, 1, true)];
    var s2 := Step(s1, Reserve(0, 1));
    assert s2.claims == [Claim(0, 1, true), Claim(0, 1, false)];
    assert Overlap(Claim(0, 1, true), Claim(0, 1, false));
    var calls := [Take(1, 1), Reserve(0, 1)];
    assert calls[1..] == [Reserve(0, 1)] && calls[1..][1..] == [];
  }
}

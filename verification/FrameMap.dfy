/** The frame bitmap as a sequence of booleans: lowest free runs, marking and the free count (mm/pmm.c). */
module FrameMap {
  const FRAME: nat := 4096

  /** `n` free frames from frame `i` on. */
  ghost predicate RunAt(used: seq<bool>, i: nat, n: nat) {
    i + n <= |used| && forall j :: i <= j < i + n ==> !used[j]
  }

  /** The lowest run of `n` free frames from frame `i` on, or the number of frames. */
  ghost function LowestRun(used: seq<bool>, n: nat, i: nat): (r: nat)
    requires 0 < n
    ensures r <= |used| && (r < |used| ==> i <= r && RunAt(used, r, n))
    ensures forall s {:trigger RunAt(used, s, n)} :: i <= s && (r < |used| ==> s < r) ==> !RunAt(used, s, n)
    decreases |used| - i
  {
    if i + n > |used| then |used| else if RunAt(used, i, n) then i else LowestRun(used, n, i + 1)
  }

  /** What characterises the lowest run: nothing lower, and none at all exactly when there is none. */
  lemma LowestRunIs(used: seq<bool>, n: nat, r: nat)
    requires 0 < n && RunAt(used, r, n) && forall s {:trigger RunAt(used, s, n)} :: 0 <= s < r ==> !RunAt(used, s, n)
    ensures LowestRun(used, n, 0) == r
  {
  }

  lemma NoRunIs(used: seq<bool>, n: nat)
    requires 0 < n && forall s {:trigger RunAt(used, s, n)} :: 0 <= s ==> !RunAt(used, s, n)
    ensures LowestRun(used, n, 0) == |used|
  {
  }

  /** A search below frame `limit` finds the lowest run of all if that run ends there, and fails otherwise. */
  lemma BoundedSearch(used: seq<bool>, n: nat, limit: nat)
    requires 0 < n && limit <= |used|
    ensures var r, b := LowestRun(used, n, 0), LowestRun(used[..limit], n, 0);
            if r < |used| && r + n <= limit then b == r else b == limit
  {
    var r, b := LowestRun(used, n, 0), LowestRun(used[..limit], n, 0);
    assert forall s {:trigger RunAt(used, s, n)} {:trigger RunAt(used[..limit], s, n)} ::
        0 <= s ==> (RunAt(used[..limit], s, n) <==> RunAt(used, s, n) && s + n <= limit);
  }

  /** Frames `i .. j` set to `val`, the others as they were. */
  function Fill(used: seq<bool>, i: nat, j: nat, val: bool): (r: seq<bool>)
    requires j <= |used|
    ensures |r| == |used|
    decreases j - i
  {
    if i >= j then used else Fill(used[i := val], i + 1, j, val)
  }

  lemma {:induction false} FillAt(used: seq<bool>, i: nat, j: nat, val: bool)
    requires j <= |used|
    ensures forall k :: 0 <= k < |used| ==> Fill(used, i, j, val)[k] == if i <= k < j then val else used[k]
    decreases j - i
  {
    if i < j { FillAt(used[i := val], i + 1, j, val); }
  }

  function CountFree(used: seq<bool>): nat {
    if used == [] then 0 else (if used[0] then 0 else 1) + CountFree(used[1..])
  }

  lemma {:induction false} CountSplit(a: seq<bool>, b: seq<bool>)
    ensures CountFree(a + b) == CountFree(a) + CountFree(b)
  {
    if a == [] {
      assert a + b == b;
    } else {
      assert (a + b)[1..] == a[1..] + b;
      CountSplit(a[1..], b);
    }
  }

  lemma CountUpdate(used: seq<bool>, i: nat, val: bool)
    requires i < |used|
    ensures CountFree(used[i := val]) == CountFree(used) - (if used[i] then 0 else 1) + (if val then 0 else 1)
  {
    var a, b := used[..i], used[i + 1..];
    assert used == a + ([used[i]] + b) && used[i := val] == a + ([val] + b);
    CountSplit(a, [used[i]] + b);
    CountSplit(a, [val] + b);
    CountSplit([used[i]], b);
    CountSplit([val], b);
    assert CountFree([used[i]]) == (if used[i] then 0 else 1) + CountFree([]);
    assert CountFree([val]) == (if val then 0 else 1) + CountFree([]);
  }

  /** Taking a free run lowers the count by its length; giving back a taken one raises it again. */
  lemma {:induction false} CountFill(used: seq<bool>, i: nat, j: nat, val: bool)
    requires i <= j <= |used| && forall k :: i <= k < j ==> used[k] != val
    ensures CountFree(Fill(used, i, j, val)) == if val then CountFree(used) - (j - i) else CountFree(used) + (j - i)
    decreases j - i
  {
    if i < j {
      CountUpdate(used, i, val);
      CountFill(used[i := val], i + 1, j, val);
    }
  }

  /** Marking frames free raises the count by at most their number, and by that exactly when all were in use. */
  lemma {:induction false} FillGain(used: seq<bool>, i: nat, j: nat)
    requires i <= j <= |used|
    ensures CountFree(used) <= CountFree(Fill(used, i, j, false)) <= CountFree(used) + (j - i)
    ensures CountFree(Fill(used, i, j, false)) == CountFree(used) + (j - i) <==> forall k :: i <= k < j ==> used[k]
    decreases j - i
  {
    if i < j {
      CountUpdate(used, i, false);
      FillGain(used[i := false], i + 1, j);
      assert forall k :: i + 1 <= k < j ==> used[i := false][k] == used[k];
    }
  }

  /** A run needs as many free frames as it is long. */
  lemma RunNeedsFree(used: seq<bool>, i: nat, n: nat)
    requires RunAt(used, i, n)
    ensures n <= CountFree(used)
  {
    CountFill(used, i, i + n, true);
  }

  lemma {:induction false} AllUsed(used: seq<bool>)
    requires forall k :: 0 <= k < |used| ==> used[k]
    ensures CountFree(used) == 0
  {
    if used != [] { AllUsed(used[1..]); }
  }

  /** One free frame is enough for a single-frame allocation. */
  lemma OneFree(used: seq<bool>)
    ensures LowestRun(used, 1, 0) < |used| <==> 0 < CountFree(used)
  {
    var r := LowestRun(used, 1, 0);
    if r < |used| {
      RunNeedsFree(used, r, 1);
    } else {
      forall k | 0 <= k < |used|
        ensures used[k]
      {
        assert !RunAt(used, k, 1);
      }
      AllUsed(used);
    }
  }

  /** Giving back a run that was free when it was taken restores the bitmap. */
  lemma GiveBack(used: seq<bool>, i: nat, n: nat)
    requires RunAt(used, i, n)
    ensures Fill(Fill(used, i, i + n, true), i, i + n, false) == used
  {
    FillAt(used, i, i + n, true);
    FillAt(Fill(used, i, i + n, true), i, i + n, false);
  }
}

/** The run queue as a list linked through the thread table (kernel64/sched/sched.c). */
module Sched {
  import opened Bytes
  import opened Threads

  const READY: nat := 0
  const RUNNING: nat := 1
  const DONE: nat := 2

  /** The links of the queue: each thread's is the one behind it, or -1. */
  ghost predicate Linked(next: seq<int>, q: seq<nat>) {
    forall i {:trigger LinkAt(next, q, i)} :: 0 <= i < |q| ==> LinkAt(next, q, i)
  }

  ghost predicate LinkAt(next: seq<int>, q: seq<nat>, i: int) {
    0 <= i < |q| && q[i] < |next| && next[q[i]] == if i + 1 < |q| then q[i + 1] else -1
  }

  function HeadOf(q: seq<nat>): int { if q == [] then -1 else q[0] }

  /** A thread outside the queue may be relinked. */
  lemma LinkedFrame(next: seq<int>, q: seq<nat>, t: nat, v: int)
    requires Linked(next, q) && t !in q && t < |next|
    ensures Linked(next[t := v], q)
  {
    var after := next[t := v];
    forall i | 0 <= i < |q|
      ensures LinkAt(after, q, i)
    {
      assert LinkAt(next, q, i) && q[i] in q;
    }
  }

  lemma LinkedPop(next: seq<int>, q: seq<nat>)
    requires Linked(next, q) && Distinct(q) && q != []
    ensures Linked(next, q[1..]) && Distinct(q[1..]) && q[0] < |next| && next[q[0]] == HeadOf(q[1..])
  {
    assert LinkAt(next, q, 0);
    forall i | 0 <= i < |q[1..]|
      ensures LinkAt(next, q[1..], i)
    {
      assert LinkAt(next, q, i + 1);
    }
  }

  lemma LinkedAppend(next: seq<int>, q: seq<nat>, t: nat)
    requires Linked(next, q) && Distinct(q) && q != [] && t !in q && t < |next| && next[t] == -1
    ensures q[|q| - 1] < |next| && Linked(next[q[|q| - 1] := t], q + [t]) && Distinct(q + [t])
  {
    var r := q + [t];
    var last := q[|q| - 1];
    assert LinkAt(next, q, |q| - 1);
    var after := next[last := t];
    forall i | 0 <= i < |r|
      ensures LinkAt(after, r, i)
    {
      if i < |q| {
        assert LinkAt(next, q, i);
        assert r[i] == q[i] && (i < |q| - 1 ==> q[i] != last);
      }
    }
  }

  class Scheduler {
    const next: array<int>
    const state: array<nat>
    /** The first queued thread, or -1. */
    var runq: int
    /** The running thread, or -1. */
    var current: int
    var count: nat
    var halted: bool
    ghost var view: State

    ghost predicate Shape()
      reads this
    {
      next.Length == state.Length == MAX_THREADS
    }

    ghost predicate QueueIs(q: seq<nat>)
      reads this, next
    {
      Distinct(q) && Linked(next[..], q) && runq == HeadOf(q)
    }

    /** The table says what `view` says. */
    ghost predicate Valid()
      reads this, next, state
    {
      && Shape() && Inv(view) && count == view.count && halted == view.halted
      && current == (match view.current case None => -1 case Some(t) => t)
      && QueueIs(view.queue)
      && forall t {:trigger state[t]} :: 0 <= t < count ==>
           state[t] == if t in view.done then DONE else if view.current == Some(t) then RUNNING else READY
    }

    constructor ()
      ensures Valid() && view == Initial() && fresh(next) && fresh(state)
    {
      next := new int[MAX_THREADS](_ => -1);
      state := new nat[MAX_THREADS](_ => READY);
      runq, current, count, halted := -1, -1, 0, false;
      view := Initial();
    }

    /** Clear the link of a thread outside the queue. */
    method Unlink(t: nat, ghost q: seq<nat>)
      requires Shape() && QueueIs(q) && t < MAX_THREADS && t !in q
      modifies next
      ensures QueueIs(q) && next[t] == -1
    {
      LinkedFrame(next[..], q, t, -1);
      ghost var n := next[..];
      next[t] := -1;
      assert next[..] == n[t := -1];
    }

    /** Append a thread to the queue. */
    method Enqueue(t: nat, ghost q: seq<nat>)
      requires Shape() && QueueIs(q) && t < MAX_THREADS && t !in q
      modifies this`runq, next
      ensures QueueIs(q + [t])
    {
      Unlink(t, q);
      if runq == -1 {
        runq := t;
        assert q + [t] == [t];
        return;
      }
      var p := runq;
      ghost var i := 0;
      assert LinkAt(next[..], q, i);
      while next[p] != -1
        invariant i < |q| && p == q[i] < MAX_THREADS && next[p] == if i + 1 < |q| then q[i + 1] else -1
        decreases |q| - i
      {
        p := next[p];
        i := i + 1;
        assert LinkAt(next[..], q, i);
      }
      LinkedAppend(next[..], q, t);
      ghost var n1 := next[..];
      next[p] := t;
      assert next[..] == n1[p := t];
    }

    /** Take the first thread of the queue, or -1. */
    method Dequeue(ghost q: seq<nat>) returns (t: int)
      requires Shape() && QueueIs(q)
      modifies this`runq
      ensures t == HeadOf(q) && QueueIs(if q == [] then [] else q[1..])
    {
      t := runq;
      if t != -1 {
        LinkedPop(next[..], q);
        runq := next[t];
      }
    }

    /** `sched_create`. */
    method Create() returns (rc: int)
      requires Valid() && !halted
      modifies this, next, state
      ensures Valid() && view == Step(old(view), Threads.Create)
      ensures old(count) >= 8 ==> rc == -1 && view == old(view)
      ensures old(count) < 8 ==>
                && rc == 0 && count == old(count) + 1 && view.queue == old(view).queue + [old(count)]
                && view.current == old(view).current && view.done == old(view).done && !halted
    {
      StepKeeps(view, Threads.Create);
      if count >= MAX_THREADS { return -1; }
      var t := count;
      assert Roles(view, t) == 0;
      state[t] := READY;
      Unlink(t, view.queue);
      Enqueue(t, view.queue);
      count := count + 1;
      view := Step(view, Threads.Create);
      return 0;
    }

    /** `sched_yield`. */
    method Yield()
      requires Valid() && !halted
      modifies this, next, state
      ensures Valid() && view == Step(old(view), Threads.Yield)
      ensures old(current) != -1 && old(view).queue != [] ==>
                && current == old(view).queue[0] && view.queue == old(view).queue[1..] + [old(current)]
    {
      StepKeeps(view, Threads.Yield);
      if current == -1 { return; }
      var t := Dequeue(view.queue);
      if t == -1 { return; }
      assert Roles(view, current) == 1 && Roles(view, t) == 1;
      if t == current { assert false; }
      if state[current] == RUNNING {
        state[current] := READY;
        Popped(view.queue, current);
        Enqueue(current, view.queue[1..]);
      }
      current := t;
      state[t] := RUNNING;
      view := Step(view, Threads.Yield);
    }

    /** The end of `thread_trampoline`. */
    method Exit()
      requires Valid() && !halted && current != -1
      modifies this, next, state
      ensures Valid() && view == Step(old(view), Threads.Exit)
      ensures view.done == old(view).done + {old(current)} && (halted <==> old(view).queue == [])
      ensures !halted ==> current == old(view).queue[0] && view.queue == old(view).queue[1..]
    {
      StepKeeps(view, Threads.Exit);
      assert Roles(view, current) == 1;
      state[current] := DONE;
      var t := Dequeue(view.queue);
      if t == -1 {
        halted := true;
      } else {
        assert Roles(view, t) == 1;
        current := t;
        state[t] := RUNNING;
      }
      view := Step(view, Threads.Exit);
    }

    /** `sched_start`. */
    method Start()
      requires Valid() && !halted
      modifies this, next, state
      ensures Valid() && view == Step(old(view), Threads.Start)
      ensures old(current) == -1 && old(view).queue != [] ==>
                && current == old(view).queue[0] && view.queue == old(view).queue[1..]
    {
      StepKeeps(view, Threads.Start);
      if current != -1 { return; }
      var t := Dequeue(view.queue);
      if t == -1 { return; }
      assert Roles(view, t) == 1;
      current := t;
      state[t] := RUNNING;
      view := Step(view, Threads.Start);
    }
  }
}

/** The cooperative scheduler as a state machine: current thread, run queue, finished threads
    (kernel64/sched/sched.c). */
module Threads {
  import opened Bytes

  const MAX_THREADS: nat := 8

  /** Threads are numbered in the order of their creation; `halted` once the last one has finished. */
  datatype State = State(current: Option<nat>, queue: seq<nat>, done: set<nat>, count: nat, halted: bool)

  datatype Op = Create | Yield | Exit | Start

  function Initial(): State { State(None, [], {}, 0, false) }

  /** `sched_create`, `sched_yield`, the end of `thread_trampoline` and `sched_start`. */
  function Step(s: State, op: Op): State {
    if s.halted then s
    else
      match op
      case Create => if s.count >= MAX_THREADS then s else s.(queue := s.queue + [s.count], count := s.count + 1)
      case Yield =>
        if s.current.None? || s.queue == [] then s
        else s.(current := Some(s.queue[0]), queue := s.queue[1..] + [s.current.value])
      case Exit =>
        if s.current.None? then s
        else if s.queue == [] then s.(done := s.done + {s.current.value}, halted := true)
        else s.(done := s.done + {s.current.value}, current := Some(s.queue[0]), queue := s.queue[1..])
      case Start =>
        if s.current.Some? || s.queue == [] then s else s.(current := Some(s.queue[0]), queue := s.queue[1..])
  }

  /** Whether the operation hands the processor to the head of the queue. */
  predicate Switches(s: State, op: Op) {
    !s.halted && s.queue != [] && match op
    case Create => false
    case Yield => s.current.Some?
    case Exit => s.current.Some?
    case Start => s.current.None?
  }

  ghost predicate Distinct(q: seq<nat>) {
    forall i, j :: 0 <= i < j < |q| ==> q[i] != q[j]
  }

  /** How many of current, queued and finished a thread is. */
  function Roles(s: State, t: nat): nat {
    (if s.current == Some(t) && t !in s.done then 1 else 0)
    + (if t in s.queue then 1 else 0)
    + if t in s.done then 1 else 0
  }

  /** Each created thread is exactly one of current, queued once, or finished; no other thread is any of them. */
  ghost predicate Inv(s: State) {
    && s.count <= MAX_THREADS && Distinct(s.queue)
    && (forall t: nat :: Roles(s, t) == if t < s.count then 1 else 0)
    && (s.current.Some? ==> (s.halted <==> s.current.value in s.done))
    && (s.halted ==> s.current.Some? && s.queue == [])
  }

  lemma StepKeeps(s: State, op: Op)
    requires Inv(s)
    ensures Inv(Step(s, op))
  {
    var s' := Step(s, op);
    assert Roles(s, s.count) == 0;
    if s.current.Some? { assert Roles(s, s.current.value) == if s.current.value < s.count then 1 else 0; }
    if s.queue != [] {
      assert Roles(s, s.queue[0]) == if s.queue[0] < s.count then 1 else 0;
      Popped(s.queue, s.queue[0]);
      if s.current.Some? { Popped(s.queue, s.current.value); }
    }
    forall t: nat
      ensures Roles(s', t) == if t < s'.count then 1 else 0
    {
      assert Roles(s, t) == if t < s.count then 1 else 0;
      if s.queue != [] { Popped(s.queue, t); }
    }
  }

  lemma Popped(q: seq<nat>, t: nat)
    requires q != [] && Distinct(q)
    ensures t in q[1..] <==> t in q && t != q[0]
    ensures Distinct(q[1..])
  {
    if t in q[1..] {
      var i :| 0 <= i < |q[1..]| && q[1..][i] == t;
      assert q[0] != q[i + 1];
    }
    if t in q && t != q[0] {
      var i :| 0 <= i < |q| && q[i] == t;
      assert q[1..][i - 1] == t;
    }
  }

  function Run(s: State, ops: seq<Op>): State {
    if ops == [] then s else Step(Run(s, ops[..|ops| - 1]), ops[|ops| - 1])
  }

  /** So it is in every state that any sequence of operations leads to. */
  lemma {:induction false} RunKeeps(s: State, ops: seq<Op>)
    requires Inv(s)
    ensures Inv(Run(s, ops))
  {
    if ops != [] {
      RunKeeps(s, ops[..|ops| - 1]);
      StepKeeps(Run(s, ops[..|ops| - 1]), ops[|ops| - 1]);
    }
  }

  lemma FromTheStart(ops: seq<Op>)
    ensures Inv(Run(Initial(), ops))
  {
    RunKeeps(Initial(), ops);
  }

  /** The exit path halts exactly when every created thread has finished. */
  lemma HaltsWhenAllDone(s: State)
    requires Inv(s) && s.current.Some? && !s.halted
    ensures Step(s, Exit).halted <==> forall t: nat :: t < s.count ==> t in Step(s, Exit).done
  {
    var s' := Step(s, Exit);
    StepKeeps(s, Exit);
    if s'.halted {
      forall t: nat | t < s.count
        ensures t in s'.done
      {
        assert Roles(s', t) == 1;
      }
    } else {
      var t := s.queue[0];
      assert t in s.queue && Roles(s, t) == if t < s.count then 1 else 0;
      assert Roles(s, s.current.value) == if s.current.value < s.count then 1 else 0;
      assert t !in s'.done;
    }
  }

  /** Processor hand-overs in a run. */
  function Handovers(s: State, ops: seq<Op>): nat {
    if ops == [] then 0
    else
      var n := |ops| - 1;
      Handovers(s, ops[..n]) + if Switches(Run(s, ops[..n]), ops[n]) then 1 else 0
  }

  /** A hand-over moves every queued thread one place forward; nothing else moves it. */
  lemma PlaceAfter(s: State, op: Op, k: nat)
    requires k < |s.queue|
    ensures var s' := Step(s, op);
            if !Switches(s, op) then k < |s'.queue| && s'.queue[k] == s.queue[k]
            else if k == 0 then s'.current == Some(s.queue[0])
            else k - 1 < |s'.queue| && s'.queue[k - 1] == s.queue[k]
  {
  }

  /** The thread at position `k` of the queue stays queued for `k` hand-overs, one place further for each,
      and the next hand-over makes it current, whatever is created or finishes meanwhile. */
  lemma {:induction false} TurnComes(s: State, ops: seq<Op>, k: nat)
    requires k < |s.queue| && Handovers(s, ops) <= k
    ensures var s', n := Run(s, ops), Handovers(s, ops);
            && k - n < |s'.queue| && s'.queue[k - n] == s.queue[k]
            && forall op :: n == k && Switches(s', op) ==> Step(s', op).current == Some(s.queue[k])
  {
    if ops != [] {
      var m := |ops| - 1;
      TurnComes(s, ops[..m], k);
      PlaceAfter(Run(s, ops[..m]), ops[m], k - Handovers(s, ops[..m]));
    }
  }

  /** Yields alone go round: after as many as there are threads in turn, everything is as it was. */
  lemma {:induction false} YieldsRotate(s: State, c: nat, n: nat)
    requires s.current == Some(c) && !s.halted && n <= |s.queue| + 1
    ensures var ring, s' := [c] + s.queue, Run(s, seq(n, _ => Yield));
            s'.current.Some? && [s'.current.value] + s'.queue == ring[n..] + ring[..n]
              && s' == s.(current := s'.current, queue := s'.queue)
  {
    var ring, ops := [c] + s.queue, seq(n, _ => Yield);
    if n > 0 {
      assert ops[..n - 1] == seq(n - 1, _ => Yield);
      YieldsRotate(s, c, n - 1);
      var s1 := Run(s, ops[..n - 1]);
      var r := [s1.current.value] + s1.queue;
      RotateOne(ring, n - 1);
      assert r[1..] == s1.queue;
      var s' := Step(s1, Yield);
      if s1.queue != [] { assert [s'.current.value] + s'.queue == r[1..] + [r[0]]; }
    }
  }

  lemma RotateOne(ring: seq<nat>, n: nat)
    requires n < |ring|
    ensures var r := ring[n..] + ring[..n]; r[1..] + [r[0]] == ring[n + 1..] + ring[..n + 1]
  {
  }

  lemma RoundRobin(s: State, c: nat)
    requires s.current == Some(c) && !s.halted
    ensures Run(s, seq(|s.queue| + 1, _ => Yield)) == s
  {
    var n := |s.queue| + 1;
    YieldsRotate(s, c, n);
    var s' := Run(s, seq(n, _ => Yield));
    var ring := [c] + s.queue;
    assert ring[n..] + ring[..n] == ring;
    assert ([s'.current.value] + s'.queue)[1..] == s'.queue && ring[1..] == s.queue;
    assert ([s'.current.value] + s'.queue)[0] == ring[0];
  }

  // --- What a run has done ---

  /** How often `op` occurs. */
  function Calls(ops: seq<Op>, op: Op): nat {
    if ops == [] then 0 else Calls(ops[..|ops| - 1], op) + if ops[|ops| - 1] == op then 1 else 0
  }

  /** As long as the scheduler has not halted, every creation counts, up to the eighth. */
  lemma {:induction false} CreatesCount(ops: seq<Op>)
    requires !Run(Initial(), ops).halted
    ensures Run(Initial(), ops).count == Min(8, Calls(ops, Create))
  {
    if ops != [] { CreatesCount(ops[..|ops| - 1]); }
  }

  /** Before the start threads only queue up, in the order of their creation; the start then runs the first. */
  lemma {:induction false} FirstCreatedStarts(ops: seq<Op>)
    requires Start !in ops
    ensures var s, n := Run(Initial(), ops), Min(8, Calls(ops, Create));
            && s == State(None, seq(n, i requires 0 <= i => i), {}, n, false)
            && Step(s, Start) == if n == 0 then s
                                 else State(Some(0), seq(n - 1, i requires 0 <= i => i + 1), {}, n, false)
  {
    if ops != [] {
      assert ops == ops[..|ops| - 1] + [ops[|ops| - 1]];
      FirstCreatedStarts(ops[..|ops| - 1]);
    }
    var n := Min(8, Calls(ops, Create));
    if n > 0 { assert seq(n, i requires 0 <= i => i)[1..] == seq(n - 1, i requires 0 <= i => i + 1); }
  }

  /** The thread that joins the queue: a new one, or one that yields while another is ready. */
  function Joining(s: State, op: Op): seq<nat> {
    if s.halted then []
    else
      match op
      case Create => if s.count < 8 then [s.count] else []
      case Yield => if s.current.Some? && s.queue != [] then [s.current.value] else []
      case _ => []
  }

  /** The thread whose turn it is: the first in the queue, when the running thread yields or ends, and at the start. */
  function Turn(s: State, op: Op): seq<nat> {
    var now := !s.halted && if s.current.None? then op == Start else op == Yield || op == Exit;
    if now && s.queue != [] then [s.queue[0]] else []
  }

  lemma StepServes(s: State, op: Op)
    ensures Turn(s, op) + Step(s, op).queue == s.queue + Joining(s, op)
    ensures Step(s, op).current == if Turn(s, op) == [] then s.current else Some(Turn(s, op)[0])
  {
    if s.queue != [] { assert s.queue == [s.queue[0]] + s.queue[1..]; }
  }

  /** The threads that joined the queue in a run, in order. */
  function Joined(ops: seq<Op>): seq<nat> {
    if ops == [] then []
    else Joined(ops[..|ops| - 1]) + Joining(Run(Initial(), ops[..|ops| - 1]), ops[|ops| - 1])
  }

  /** The threads whose turn came in a run, in order. */
  function Served(ops: seq<Op>): seq<nat> {
    if ops == [] then []
    else Served(ops[..|ops| - 1]) + Turn(Run(Initial(), ops[..|ops| - 1]), ops[|ops| - 1])
  }

  /** First come, first served: over every run, the threads whose turn has come followed by those in the queue are
      the threads that joined it, in that order, and the processor belongs to the one whose turn came last. */
  lemma {:induction false} FirstComeFirstServed(ops: seq<Op>)
    ensures Served(ops) + Run(Initial(), ops).queue == Joined(ops)
    ensures Run(Initial(), ops).current == if Served(ops) == [] then None else Some(Served(ops)[|Served(ops)| - 1])
  {
    if ops != [] {
      var rest, op := ops[..|ops| - 1], ops[|ops| - 1];
      var s := Run(Initial(), rest);
      FirstComeFirstServed(rest);
      StepServes(s, op);
      Chained(Served(rest), s.queue, Joining(s, op), Turn(s, op), Step(s, op).queue);
    }
  }

  lemma Chained(a: seq<nat>, q: seq<nat>, j: seq<nat>, t: seq<nat>, q': seq<nat>)
    requires t + q' == q + j
    ensures (a + t) + q' == (a + q) + j
  {
    assert (a + t) + q' == a + (t + q');
  }

  /** The threads that ended, in order. */
  ghost function Ended(ops: seq<Op>): seq<nat> {
    if ops == [] then []
    else
      var n := |ops| - 1;
      var s := Run(Initial(), ops[..n]);
      Ended(ops[..n]) + if ops[n] == Exit && !s.halted && s.current.Some? then [s.current.value] else []
  }

  /** A thread is finished exactly when it was the running one at an exit, and no thread exits twice. */
  lemma {:induction false} DoneExactlyOnce(ops: seq<Op>)
    ensures Distinct(Ended(ops)) && forall t: nat :: t in Run(Initial(), ops).done <==> t in Ended(ops)
  {
    if ops != [] {
      var n := |ops| - 1;
      var s := Run(Initial(), ops[..n]);
      DoneExactlyOnce(ops[..n]);
      FromTheStart(ops[..n]);
      if ops[n] == Exit && !s.halted && s.current.Some? {
        assert s.current.value !in Ended(ops[..n]);
      }
    }
  }
}

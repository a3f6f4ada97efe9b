/**
 The sleep lock (src/sync/sleep.rs): a flag and a queue of wakers under a spin lock, so every
 method is one atomic step. In a run a task is polled again only after a wake and is not cancelled
 while it is pending; what happens otherwise is shown at the end.
 */
module SleepLocks {
  import opened Collections
  import opened Options

  /** A task is named by its waker. */
  type Task = nat

  datatype Inner = Inner(holding: bool, waiting: seq<Task>)

  function Polled(l: Inner, me: Task): (Inner, bool) {
    if l.holding then (l.(waiting := l.waiting + [me]), false) else (l.(holding := true), true)
  }

  function Dropped(l: Inner): (Inner, Option<Task>) {
    if l.waiting == [] then (Inner(false, []), None) else (Inner(false, l.waiting[1..]), Some(l.waiting[0]))
  }

  class SleepLock {
    var holding: bool
    var waiting: seq<Task>

    constructor ()
      ensures State() == Inner(false, [])
    {
      holding, waiting := false, [];
    }

    ghost function State(): Inner
      reads this
    {
      Inner(holding, waiting)
    }

    /** `SleepLockFuture::poll`; true when it returns the guard. */
    method Poll(me: Task) returns (ready: bool)
      modifies this
      ensures holding && (ready <==> !old(holding))
      ensures waiting == if ready then old(waiting) else old(waiting) + [me]
      ensures (State(), ready) == Polled(old(State()), me)
    {
      if holding {
        waiting := waiting + [me];
        ready := false;
      } else {
        holding := true;
        ready := true;
      }
    }

    /** `Drop for SleepLockGuard`; who is woken, if anybody. */
    method DropGuard() returns (woken: Option<Task>)
      modifies this
      ensures !holding && (woken.None? <==> old(waiting) == [])
      ensures old(waiting) == (if woken.Some? then [woken.value] else []) + waiting
      ensures (State(), woken) == Dropped(old(State()))
    {
      holding := false;
      if |waiting| > 0 {
        woken := Some(waiting[0]);
        waiting := waiting[1..];
      } else {
        woken := None;
      }
    }
  }

  // ---- Any number of tasks, all interleavings ----

  /** Not at the lock; about to poll for the first time or after a wake; pending; with the guard. */
  datatype Phase = Idle | Polling(woken: bool) | Waiting | Holding

  datatype System = System(lock: Inner, tasks: map<Task, Phase>)

  function PhaseOf(s: System, t: Task): Phase { if t in s.tasks then s.tasks[t] else Idle }

  function WithPhase(s: System, t: Task, p: Phase): System { s.(tasks := s.tasks[t := p]) }

  /** A waker is called; only a pending task takes notice. */
  function Wake(s: System, w: Option<Task>): System {
    if w.Some? && PhaseOf(s, w.value).Waiting? then WithPhase(s, w.value, Polling(true)) else s
  }

  datatype Label = Start(t: Task) | PollBy(t: Task) | DropBy(t: Task)

  predicate Enabled(s: System, l: Label) {
    match l
    case Start(t) => PhaseOf(s, t).Idle?
    case PollBy(t) => PhaseOf(s, t).Polling?
    case DropBy(t) => PhaseOf(s, t).Holding?
  }

  /** Task `t` polls, whatever its phase. */
  function PolledBy(s: System, t: Task): System {
    var r := Polled(s.lock, t);
    WithPhase(s.(lock := r.0), t, if r.1 then Holding else Waiting)
  }

  function Step(s: System, l: Label): System {
    match l
    case Start(t) => WithPhase(s, t, Polling(false))
    case PollBy(t) => PolledBy(s, t)
    case DropBy(t) =>
      var r := Dropped(s.lock);
      Wake(WithPhase(s.(lock := r.0), t, Idle), r.1)
  }

  /** The state after a sequence of steps. */
  function Exec(s: System, labels: seq<Label>): System {
    if labels == [] then s else Step(Exec(s, labels[..|labels| - 1]), labels[|labels| - 1])
  }

  /** Every step is enabled where it is taken. */
  predicate Runs(s: System, labels: seq<Label>) {
    labels == [] ||
    (var n := |labels| - 1; Runs(s, labels[..n]) && Enabled(Exec(s, labels[..n]), labels[n]))
  }

  ghost predicate Held(s: System) { exists t: Task :: PhaseOf(s, t).Holding? }

  /** Somebody is about to poll; `any` admits tasks that poll for the first time. */
  ghost predicate SomeComing(s: System, any: bool) { exists t: Task :: Coming(s, t, any) }

  predicate Coming(s: System, t: Task, any: bool) { PhaseOf(s, t).Polling? && (any || PhaseOf(s, t).woken) }

  /** At most one guard, and the flag says whether there is one. */
  ghost predicate Guarded(s: System) {
    && (forall t: Task, u: Task :: PhaseOf(s, t).Holding? && PhaseOf(s, u).Holding? ==> t == u)
    && (s.lock.holding <==> Held(s))
  }

  /** The queue holds each pending task once and nothing else. */
  ghost predicate Queued(s: System) {
    (forall t: Task :: PhaseOf(s, t).Waiting? <==> t in s.lock.waiting) && Distinct(s.lock.waiting)
  }

  ghost predicate Inv(s: System, any: bool) {
    Guarded(s) && Queued(s) && (s.lock.waiting != [] ==> s.lock.holding || SomeComing(s, any))
  }

  lemma StartInv(s: System, t: Task, any: bool)
    requires Inv(s, any) && PhaseOf(s, t).Idle?
    ensures Inv(Step(s, Start(t)), any)
  {
    var s' := Step(s, Start(t));
    assert forall u: Task :: u != t ==> PhaseOf(s', u) == PhaseOf(s, u);
    if Held(s) {
      var u :| PhaseOf(s, u).Holding?;
      assert PhaseOf(s', u).Holding?;
    }
    if SomeComing(s, any) {
      var u :| Coming(s, u, any);
      assert Coming(s', u, any);
    }
  }

  lemma PollInv(s: System, t: Task, any: bool)
    requires Inv(s, any) && PhaseOf(s, t).Polling?
    ensures Inv(Step(s, PollBy(t)), any)
  {
    var s' := Step(s, PollBy(t));
    assert forall u: Task :: u != t ==> PhaseOf(s', u) == PhaseOf(s, u);
    if s.lock.holding {
      var u :| PhaseOf(s, u).Holding?;
      assert PhaseOf(s', u).Holding?;
    } else {
      assert PhaseOf(s', t).Holding?;
    }
  }

  lemma DropInv(s: System, t: Task, any: bool)
    requires Inv(s, any) && PhaseOf(s, t).Holding?
    ensures Inv(Step(s, DropBy(t)), any)
    ensures s.lock.waiting != [] ==> PhaseOf(Step(s, DropBy(t)), s.lock.waiting[0]) == Polling(true)
  {
    var s' := Step(s, DropBy(t));
    if s.lock.waiting == [] {
      assert forall u: Task :: u != t ==> PhaseOf(s', u) == PhaseOf(s, u);
    } else {
      var w, rest := s.lock.waiting[0], s.lock.waiting[1..];
      assert PhaseOf(s, w).Waiting?;
      assert forall u: Task :: u != t && u != w ==> PhaseOf(s', u) == PhaseOf(s, u);
      assert Coming(s', w, any);
      assert s.lock.waiting == [w] + rest;
    }
  }

  lemma StepInv(s: System, l: Label, any: bool)
    requires Inv(s, any) && Enabled(s, l)
    ensures Inv(Step(s, l), any)
  {
    match l {
      case Start(t) => StartInv(s, t, any);
      case PollBy(t) => PollInv(s, t, any);
      case DropBy(t) => DropInv(s, t, any);
    }
  }

  lemma {:induction false} RunInv(s: System, labels: seq<Label>, any: bool)
    requires Inv(s, any) && Runs(s, labels)
    ensures Inv(Exec(s, labels), any)
  {
    if labels == [] {
    } else {
      var n := |labels| - 1;
      RunInv(s, labels[..n], any);
      StepInv(Exec(s, labels[..n]), labels[n], any);
    }
  }

  lemma {:induction false} RunsConcat(s: System, a: seq<Label>, b: seq<Label>)
    requires Runs(s, a) && Runs(Exec(s, a), b)
    ensures Runs(s, a + b) && Exec(s, a + b) == Exec(Exec(s, a), b)
  {
    if b == [] {
      assert a + b == a;
    } else {
      var n := |b| - 1;
      RunsConcat(s, a, b[..n]);
      assert (a + b)[..|a + b| - 1] == a + b[..n];
    }
  }

  lemma RunsOne(s: System, l: Label)
    requires Enabled(s, l)
    ensures Runs(s, [l]) && Exec(s, [l]) == Step(s, l)
  {
    assert [l][..0] == [];
  }

  // ---- Nobody is stranded ----

  predicate NoStart(labels: seq<Label>) { forall i :: 0 <= i < |labels| ==> !labels[i].Start? }

  /** The steps wake `w`, and no newcomer takes part. */
  predicate Wakes(s: System, labels: seq<Label>, w: Task) {
    Runs(s, labels) && NoStart(labels) && !PhaseOf(Exec(s, labels), w).Waiting?
  }

  ghost predicate CanWake(s: System, w: Task) { exists labels: seq<Label> :: Wakes(s, labels, w) }

  /** A pending task that only a newcomer could still help. */
  ghost predicate Stranded(s: System) { exists w: Task :: PhaseOf(s, w).Waiting? && !CanWake(s, w) }

  /** Whatever happens from here on, nobody is ever stranded. */
  ghost predicate Safe(s: System) {
    forall labels: seq<Label> :: Runs(s, labels) ==> !Stranded(Exec(s, labels))
  }

  /** A run without newcomers that gives somebody the guard. */
  lemma Acquire(s: System) returns (labels: seq<Label>, h: Task)
    requires Inv(s, true) && s.lock.waiting != []
    ensures Runs(s, labels) && NoStart(labels)
    ensures
      var s' := Exec(s, labels);
      PhaseOf(s', h).Holding? && Inv(s', true) && s'.lock.waiting == s.lock.waiting
  {
    if s.lock.holding {
      labels := [];
      h :| PhaseOf(s, h).Holding?;
    } else {
      h :| Coming(s, h, true);
      labels := [PollBy(h)];
      RunsOne(s, PollBy(h));
      PollInv(s, h, true);
    }
  }

  /** Every queued task can be woken, the one at place `k` by `k + 1` drops. */
  lemma {:induction false} WakeAt(s: System, k: nat) returns (labels: seq<Label>)
    requires Inv(s, true) && k < |s.lock.waiting|
    ensures Wakes(s, labels, s.lock.waiting[k])
    decreases k
  {
    var w := s.lock.waiting[k];
    var a, h := Acquire(s);
    var s1 := Exec(s, a);
    var s2 := Step(s1, DropBy(h));
    RunsOne(s1, DropBy(h));
    DropInv(s1, h, true);
    RunsConcat(s, a, [DropBy(h)]);
    labels := a + [DropBy(h)];
    if k == 0 {
    } else {
      assert s2.lock.waiting == s.lock.waiting[1..];
      var b := WakeAt(s2, k - 1);
      RunsConcat(s, labels, b);
      labels := labels + b;
    }
  }

  lemma InvSafe(s: System)
    requires Inv(s, true)
    ensures Safe(s)
  {
    forall labels: seq<Label> | Runs(s, labels)
      ensures !Stranded(Exec(s, labels))
    {
      RunInv(s, labels, true);
      var s' := Exec(s, labels);
      forall w: Task | PhaseOf(s', w).Waiting?
        ensures CanWake(s', w)
      {
        var k :| 0 <= k < |s'.lock.waiting| && s'.lock.waiting[k] == w;
        var ls := WakeAt(s', k);
      }
    }
  }

  const START: System := System(Inner(false, []), map[])

  /**
   In every run from the start: at most one guard; the flag says whether there is one; if somebody is
   queued then the guard's drop or the poll of a woken task is still to come; and every queued task
   can be woken without any newcomer.
   */
  lemma RunSafe(labels: seq<Label>)
    requires Runs(START, labels)
    ensures Inv(Exec(START, labels), false) && !Stranded(Exec(START, labels))
  {
    assert forall t: Task :: PhaseOf(START, t).Idle?;
    RunInv(START, labels, false);
    InvSafe(START);
  }

  // ---- First come, first woken ----

  function Drops(labels: seq<Label>): nat {
    if labels == [] then 0 else Drops(labels[..|labels| - 1]) + (if labels[|labels| - 1].DropBy? then 1 else 0)
  }

  /** The task is pending all along the run. */
  predicate Pending(s: System, labels: seq<Label>, t: Task) {
    PhaseOf(Exec(s, labels), t).Waiting? && (labels == [] || Pending(s, labels[..|labels| - 1], t))
  }

  /**
   A task at place `k` of the queue that stays queued over a whole run has moved up by one for every
   guard dropped; so it is woken by the drop number `k + 1` at the latest.
   */
  lemma {:induction false} MovesUp(s: System, labels: seq<Label>, t: Task, k: nat)
    requires Inv(s, true) && Runs(s, labels) && k < |s.lock.waiting| && s.lock.waiting[k] == t
    requires Pending(s, labels, t)
    ensures
      var q := Exec(s, labels).lock.waiting;
      Drops(labels) <= k && k - Drops(labels) < |q| && q[k - Drops(labels)] == t
  {
    if labels == [] {
    } else {
      var n := |labels| - 1;
      MovesUp(s, labels[..n], t, k);
      RunInv(s, labels[..n], true);
      StepPlace(Exec(s, labels[..n]), labels[n], t, k - Drops(labels[..n]));
    }
  }

  lemma StepPlace(s: System, l: Label, t: Task, k: nat)
    requires Inv(s, true) && Enabled(s, l) && k < |s.lock.waiting| && s.lock.waiting[k] == t
    requires PhaseOf(Step(s, l), t).Waiting?
    ensures
      var q := Step(s, l).lock.waiting;
      if l.DropBy? then k > 0 && k - 1 < |q| && q[k - 1] == t else k < |q| && q[k] == t
  {
    assert PhaseOf(s, t).Waiting?;
  }

  // ---- Cancelling a woken task ----

  function Cancelled(s: System, t: Task): System { WithPhase(s, t, Idle) }

  /** Without a guard and without anybody about to poll, only newcomers can move. */
  lemma NobodyMoves(s: System, w: Task)
    requires PhaseOf(s, w).Waiting? && forall t: Task :: !PhaseOf(s, t).Holding? && !PhaseOf(s, t).Polling?
    ensures !CanWake(s, w) && Stranded(s)
  {
    forall labels: seq<Label>
      ensures !Wakes(s, labels, w)
    {
      if Runs(s, labels) && labels != [] {
        FirstEnabled(s, labels);
        assert labels[0].Start?;
      }
    }
  }

  lemma {:induction false} FirstEnabled(s: System, labels: seq<Label>)
    requires Runs(s, labels) && labels != []
    ensures Enabled(s, labels[0])
  {
    if |labels| == 1 {
      assert labels[..0] == [];
    } else {
      FirstEnabled(s, labels[..|labels| - 1]);
    }
  }

  /**
   A woken task that is cancelled instead of polled takes its wake with it. With tasks in the queue,
   the first of them can still be woken without a newcomer, and nobody is ever stranded later, if and
   only if the lock is held or some other task is about to poll.
   */
  lemma CancelExact(s: System, t: Task)
    requires Inv(s, false) && PhaseOf(s, t) == Polling(true) && s.lock.waiting != []
    ensures
      var helped := s.lock.holding || exists u: Task :: u != t && PhaseOf(s, u).Polling?;
      && (CanWake(Cancelled(s, t), s.lock.waiting[0]) <==> helped)
      && (Safe(Cancelled(s, t)) <==> helped)
  {
    var s', w := Cancelled(s, t), s.lock.waiting[0];
    assert forall u: Task :: u != t ==> PhaseOf(s', u) == PhaseOf(s, u);
    if s.lock.holding || exists u: Task :: u != t && PhaseOf(s, u).Polling? {
      CancelInv(s, t);
      var labels := WakeAt(s', 0);
      InvSafe(s');
    } else {
      assert PhaseOf(s', w).Waiting?;
      NobodyMoves(s', w);
      assert Runs(s', []) && Exec(s', []) == s';
    }
  }

  lemma CancelInv(s: System, t: Task)
    requires Inv(s, false) && PhaseOf(s, t) == Polling(true)
    requires s.lock.holding || exists u: Task :: u != t && PhaseOf(s, u).Polling?
    ensures Inv(Cancelled(s, t), true)
  {
    var s' := Cancelled(s, t);
    assert forall u: Task :: u != t ==> PhaseOf(s', u) == PhaseOf(s, u);
    if s.lock.holding {
      var h :| PhaseOf(s, h).Holding?;
      assert PhaseOf(s', h).Holding?;
    } else {
      var u: Task :| u != t && PhaseOf(s, u).Polling?;
      assert Coming(s', u, true);
    }
  }

  /** Three tasks come, the first drops its guard, and the second is cancelled: the third is stranded. */
  lemma CancelStrands()
    ensures
      var labels := [Start(0), PollBy(0), Start(1), PollBy(1), Start(2), PollBy(2), DropBy(0)];
      && Runs(START, labels) && PhaseOf(Exec(START, labels), 1) == Polling(true)
      && Stranded(Cancelled(Exec(START, labels), 1))
  {
    hide Runs, Exec, Stranded;
    var s1 := Step(Step(START, Start(0)), PollBy(0));
    var s2 := Step(Step(s1, Start(1)), PollBy(1));
    var s3 := Step(Step(s2, Start(2)), PollBy(2));
    Twice(START, Start(0), PollBy(0));
    Twice(s1, Start(1), PollBy(1));
    Twice(s2, Start(2), PollBy(2));
    RunsOne(s3, DropBy(0));
    var a, b, c, d := [Start(0), PollBy(0)], [Start(1), PollBy(1)], [Start(2), PollBy(2)], [DropBy(0)];
    RunsConcat(START, a, b);
    RunsConcat(START, a + b, c);
    RunsConcat(START, a + b + c, d);
    assert a + b + c + d == [Start(0), PollBy(0), Start(1), PollBy(1), Start(2), PollBy(2), DropBy(0)];
    assert s3 == System(Inner(true, [1, 2]), map[0 := Holding, 1 := Waiting, 2 := Waiting]);
    assert Step(s3, DropBy(0)) == System(Inner(false, [2]), map[0 := Idle, 1 := Polling(true), 2 := Waiting]);
    NobodyMoves(Cancelled(Step(s3, DropBy(0)), 1), 2);
  }

  lemma Twice(s: System, k: Label, l: Label)
    requires Enabled(s, k) && Enabled(Step(s, k), l)
    ensures Runs(s, [k, l]) && Exec(s, [k, l]) == Step(Step(s, k), l)
  {
    RunsOne(s, k);
    RunsOne(Step(s, k), l);
    RunsConcat(s, [k], [l]);
    assert [k] + [l] == [k, l];
  }

  // ---- Polling without a wake, and cancelling a pending task ----

  /** What holds even when tasks poll without a wake or are cancelled. */
  ghost predicate Loose(s: System) {
    Guarded(s) && forall t: Task :: PhaseOf(s, t).Waiting? ==> t in s.lock.waiting
  }

  /** The entry at place `i` is stale: its task is not pending, or is queued further up as well. */
  ghost predicate StaleAt(s: System, i: nat) {
    var q := s.lock.waiting;
    i < |q| && (!PhaseOf(s, q[i]).Waiting? || exists j :: 0 <= j < i && q[j] == q[i])
  }

  ghost predicate Stale(s: System) { exists i: nat :: StaleAt(s, i) }

  ghost predicate Quiet(s: System) { forall t: Task :: !PhaseOf(s, t).Polling? }

  lemma LaterStrands(s: System, a: seq<Label>)
    requires Runs(s, a) && !Safe(Exec(s, a))
    ensures !Safe(s)
  {
    var b :| Runs(Exec(s, a), b) && Stranded(Exec(Exec(s, a), b));
    RunsConcat(s, a, b);
  }

  lemma NextStrands(s: System, l: Label)
    requires Enabled(s, l) && !Safe(Step(s, l))
    ensures !Safe(s)
  {
    RunsOne(s, l);
    LaterStrands(s, [l]);
  }

  lemma NowStrands(s: System)
    requires Stranded(s)
    ensures !Safe(s)
  {
    assert Runs(s, []) && Exec(s, []) == s;
  }

  /** A drop that wakes nobody, with nobody about to poll and `x` pending, strands `x`. */
  lemma WasteStrands(s: System, h: Task, x: Task)
    requires Loose(s) && Quiet(s) && PhaseOf(s, h).Holding? && PhaseOf(s, x).Waiting?
    requires !PhaseOf(s, s.lock.waiting[0]).Waiting?
    ensures !Safe(s)
  {
    var s' := Step(s, DropBy(h));
    assert forall t: Task :: t != h ==> PhaseOf(s', t) == PhaseOf(s, t);
    NobodyMoves(s', x);
    NowStrands(s');
    NextStrands(s, DropBy(h));
  }

  /** Drops and polls bring the stale entry to the front, where a drop is wasted on it. */
  lemma {:induction false} DrainStrands(s: System, h: Task, x: Task, i: nat)
    requires Loose(s) && Quiet(s) && StaleAt(s, i) && PhaseOf(s, h).Holding?
    requires PhaseOf(s, x).Waiting? && x !in s.lock.waiting[..i + 1]
    ensures !Safe(s)
    decreases i
  {
    var q := s.lock.waiting;
    if !PhaseOf(s, q[0]).Waiting? {
      WasteStrands(s, h, x);
    } else {
      var f := q[0];
      var s1 := Step(s, DropBy(h));
      var s2 := Step(s1, PollBy(f));
      assert s2.lock == Inner(true, q[1..]) && PhaseOf(s2, f).Holding?;
      assert forall t: Task :: t != h && t != f ==> PhaseOf(s2, t) == PhaseOf(s, t);
      DrainStale(s, s2, f, h, i);
      assert x != f && q[..i + 1][1..] == q[1..][..i];
      DrainStrands(s2, f, x, i - 1);
      NextStrands(s1, PollBy(f));
      NextStrands(s, DropBy(h));
    }
  }

  lemma DrainStale(s: System, s2: System, f: Task, h: Task, i: nat)
    requires Loose(s) && StaleAt(s, i) && PhaseOf(s, h).Holding? && PhaseOf(s, f).Waiting? && s.lock.waiting[0] == f
    requires s2.lock == Inner(true, s.lock.waiting[1..]) && PhaseOf(s2, f).Holding? && PhaseOf(s2, h).Idle?
    requires forall t: Task :: t != h && t != f ==> PhaseOf(s2, t) == PhaseOf(s, t)
    ensures i > 0 && StaleAt(s2, i - 1) && Loose(s2)
  {
    var q, q2 := s.lock.waiting, s2.lock.waiting;
    assert q2[i - 1] == q[i];
    if PhaseOf(s, q[i]).Waiting? && q[i] != f {
      var j :| 0 <= j < i && q[j] == q[i];
      assert q2[j - 1] == q2[i - 1];
    }
    assert q == [f] + q2;
  }

  /** A task that no entry and no phase mentions. */
  lemma Fresh(s: System) returns (x: Task)
    ensures x !in s.tasks && x !in s.lock.waiting
  {
    x := Above(s.tasks.Keys + set t | t in s.lock.waiting);
  }

  lemma {:induction false} Above(a: set<Task>) returns (x: Task)
    ensures forall t :: t in a ==> t < x
    decreases a
  {
    if a == {} {
      x := 0;
    } else {
      var t :| t in a;
      var y := Above(a - {t});
      x := if t < y then y else t + 1;
      assert a == (a - {t}) + {t};
    }
  }

  /** With the guard taken and nobody about to poll, a newcomer queues behind the stale entry. */
  lemma QuietStrands(s: System, h: Task, i: nat)
    requires Loose(s) && Quiet(s) && StaleAt(s, i) && PhaseOf(s, h).Holding?
    ensures !Safe(s)
  {
    var x := Fresh(s);
    var s1 := Step(s, Start(x));
    var s2 := Step(s1, PollBy(x));
    assert s2.lock == Inner(true, s.lock.waiting + [x]) && PhaseOf(s2, x).Waiting?;
    assert forall t: Task :: t != x ==> PhaseOf(s2, t) == PhaseOf(s, t);
    assert s2.lock.waiting[..i + 1] == s.lock.waiting[..i + 1];
    assert StaleAt(s2, i) by {
      var q, q2 := s.lock.waiting, s2.lock.waiting;
      assert forall j :: 0 <= j <= i ==> q2[j] == q[j];
    }
    DrainStrands(s2, h, x, i);
    NextStrands(s1, PollBy(x));
    NextStrands(s, Start(x));
  }

  function Pollers(s: System): set<Task> { set t | t in s.tasks && s.tasks[t].Polling? }

  /** With the guard taken, every task about to poll queues; a stale entry stays in the queue. */
  lemma {:induction false} HeldStrands(s: System, h: Task)
    requires Loose(s) && Stale(s) && PhaseOf(s, h).Holding?
    ensures !Safe(s)
    decreases Pollers(s)
  {
    var i: nat :| StaleAt(s, i);
    if Pollers(s) == {} {
      QuietStrands(s, h, i) by {
        assert forall t: Task :: PhaseOf(s, t).Polling? ==> t in Pollers(s);
      }
    } else {
      var u :| u in Pollers(s);
      var s1 := Step(s, PollBy(u));
      assert s1.lock == Inner(true, s.lock.waiting + [u]);
      assert forall t: Task :: t != u ==> PhaseOf(s1, t) == PhaseOf(s, t);
      PollStale(s, s1, u, i);
      assert Pollers(s1) == Pollers(s) - {u};
      HeldStrands(s1, h);
      NextStrands(s, PollBy(u));
    }
  }

  lemma PollStale(s: System, s1: System, u: Task, i: nat)
    requires StaleAt(s, i) && PhaseOf(s, u).Polling? && s1.lock.waiting == s.lock.waiting + [u]
    requires forall t: Task :: t != u ==> PhaseOf(s1, t) == PhaseOf(s, t)
    ensures Stale(s1)
  {
    var q, q1 := s.lock.waiting, s1.lock.waiting;
    assert q1[i] == q[i] && q1[|q|] == u;
    if q[i] == u {
      assert StaleAt(s1, |q|);
    } else if exists j :: 0 <= j < i && q[j] == q[i] {
      var j :| 0 <= j < i && q[j] == q[i];
      assert q1[j] == q1[i];
      assert StaleAt(s1, i);
    } else {
      assert StaleAt(s1, i);
    }
  }

  /** Whoever is first to poll, or a newcomer, takes a free lock and leaves the queue alone. */
  lemma StaleStrands(s: System)
    requires Loose(s) && Stale(s)
    ensures !Safe(s)
  {
    var i: nat :| StaleAt(s, i);
    if s.lock.holding {
      var h :| PhaseOf(s, h).Holding?;
      HeldStrands(s, h);
    } else if Quiet(s) {
      var x := Fresh(s);
      var s1 := Step(s, Start(x));
      assert forall t: Task :: t != x ==> PhaseOf(s1, t) == PhaseOf(s, t);
      assert StaleAt(s1, i);
      TakeStrands(s1, x, i);
      NextStrands(s, Start(x));
    } else {
      var u :| PhaseOf(s, u).Polling?;
      TakeStrands(s, u, i);
    }
  }

  lemma TakeStrands(s: System, u: Task, i: nat)
    requires Loose(s) && StaleAt(s, i) && !s.lock.holding && PhaseOf(s, u).Polling?
    ensures !Safe(s)
  {
    var s1 := Step(s, PollBy(u));
    assert PhaseOf(s1, u).Holding? && s1.lock.waiting == s.lock.waiting;
    assert forall t: Task :: t != u ==> PhaseOf(s1, t) == PhaseOf(s, t);
    assert StaleAt(s1, i);
    HeldStrands(s1, u);
    NextStrands(s, PollBy(u));
  }

  /**
   Nobody is ever stranded after `t` is polled once more if and only if `t` was not pending; a pending
   task polled without a wake leaves an entry in the queue that will waste a drop.
   */
  lemma SpuriousPollExact(s: System, t: Task)
    requires Inv(s, true) && (PhaseOf(s, t).Polling? || PhaseOf(s, t).Waiting?)
    ensures Safe(PolledBy(s, t)) <==> !PhaseOf(s, t).Waiting?
  {
    var s' := PolledBy(s, t);
    if PhaseOf(s, t).Waiting? {
      var q := s.lock.waiting;
      var k :| 0 <= k < |q| && q[k] == t;
      assert forall u: Task :: u != t ==> PhaseOf(s', u) == PhaseOf(s, u);
      if s.lock.holding {
        var h :| PhaseOf(s, h).Holding?;
        assert PhaseOf(s', h).Holding?;
        assert s'.lock.waiting == q + [t];
        assert s'.lock.waiting[k] == t && s'.lock.waiting[|q|] == t;
        assert StaleAt(s', |q|);
      } else {
        assert PhaseOf(s', t).Holding?;
        assert StaleAt(s', k);
      }
      StaleStrands(s');
    } else {
      PollInv(s, t, true);
      InvSafe(s');
    }
  }

  /** Cancelling a pending task always leaves such an entry. */
  lemma CancelWaitingStrands(s: System, t: Task)
    requires Inv(s, true) && PhaseOf(s, t).Waiting?
    ensures !Safe(Cancelled(s, t))
  {
    var s' := Cancelled(s, t);
    var k :| 0 <= k < |s.lock.waiting| && s.lock.waiting[k] == t;
    assert forall u: Task :: u != t ==> PhaseOf(s', u) == PhaseOf(s, u);
    if s.lock.holding {
      var h :| PhaseOf(s, h).Holding?;
      assert PhaseOf(s', h).Holding?;
    }
    assert StaleAt(s', k);
    StaleStrands(s');
  }
}

/**
 The cross-thread work queue of the event loop (AsyncCustom in event_loop.cpp, event_async.cpp):
 any number of pushers interleaved with the loop, one step for each lock section or call that
 another thread can observe. The watcher is one pending flag: a notification sets it once the
 watcher is started and has no effect before, and the loop clears it before the callback.
 */
module WorkQueue {

  /** Where the loop thread is: outside the callback, before its swap, or running a batch. */
  datatype Loop = Waiting | Called | Draining(batch: seq<int>)

  /** `busy` holds the pushers between their append and their notification. */
  datatype State = State(
    started: bool,
    pending: bool,
    queue: seq<int>,
    busy: set<nat>,
    loop: Loop,
    direct: seq<int>,
    enqueued: seq<int>,
    executed: seq<int>)

  const INITIAL := State(false, false, [], {}, Waiting, [], [], [])

  datatype Step =
    | Append(pusher: nat, task: int)
    | Notify(pusher: nat)
    | Start
    | Wake
    | Swap
    | Run
    | Return
    | Direct(task: int)

  predicate Enabled(s: State, step: Step) {
    match step
    case Append(p, _) => p !in s.busy
    case Notify(p) => p in s.busy
    case Start => !s.started
    case Wake => s.started && s.pending && s.loop == Waiting
    case Swap => s.loop == Called
    case Run => s.loop.Draining? && s.loop.batch != []
    case Return => s.loop == Draining([])
    case Direct(_) => s.started
  }

  function Apply(s: State, step: Step): (r: State)
    requires Enabled(s, step)
  {
    match step
    case Append(p, t) => s.(queue := s.queue + [t], enqueued := s.enqueued + [t], busy := s.busy + {p})
    case Notify(p) => s.(busy := s.busy - {p}, pending := s.pending || s.started)
    case Start => s.(started := true)
    case Wake => s.(pending := false, loop := Called)
    case Swap => s.(queue := [], loop := Draining(s.queue))
    case Run => s.(executed := s.executed + [s.loop.batch[0]], loop := Draining(s.loop.batch[1..]))
    case Return => s.(loop := Waiting)
    case Direct(t) => s.(direct := s.direct + [t])
  }

  predicate Valid(s: State, run: seq<Step>)
    decreases |run|
  {
    run == [] || (Enabled(s, run[0]) && Valid(Apply(s, run[0]), run[1..]))
  }

  function After(s: State, run: seq<Step>): (r: State)
    requires Valid(s, run)
    decreases |run|
  {
    if run == [] then s else After(Apply(s, run[0]), run[1..])
  }

  // ----- conservation -----

  function Rest(l: Loop): (b: seq<int>) {
    if l.Draining? then l.batch else []
  }

  /** Every task ever appended, in order: run, then in the current batch, then in the queue. */
  predicate Conserved(s: State) {
    s.enqueued == s.executed + Rest(s.loop) + s.queue
  }

  /** Before the watcher starts nothing is pending and the loop has not been called. */
  predicate Dormant(s: State) {
    !s.started ==> !s.pending && s.loop == Waiting && s.executed == []
  }

  lemma StepConserves(s: State, step: Step)
    requires Conserved(s) && Dormant(s) && Enabled(s, step)
    ensures Conserved(Apply(s, step)) && Dormant(Apply(s, step))
  {
    match step
    case Append(_, t) => assert s.executed + Rest(s.loop) + (s.queue + [t]) == s.enqueued + [t];
    case Run =>
      var b := s.loop.batch;
      assert b == [b[0]] + b[1..];
    case _ =>
  }

  lemma {:induction false} RunConserves(s: State, run: seq<Step>)
    requires Conserved(s) && Dormant(s) && Valid(s, run)
    ensures Conserved(After(s, run)) && Dormant(After(s, run))
    decreases |run|
  {
    if run != [] {
      StepConserves(s, run[0]);
      RunConserves(Apply(s, run[0]), run[1..]);
    }
  }

  /** The tasks a run appends, and those it runs at once on the loop thread. */
  function Appended(run: seq<Step>): (ts: seq<int>) {
    if run == [] then [] else (if run[0].Append? then [run[0].task] else []) + Appended(run[1..])
  }

  function Directs(run: seq<Step>): (ts: seq<int>) {
    if run == [] then [] else (if run[0].Direct? then [run[0].task] else []) + Directs(run[1..])
  }

  /** A run records its appended and its direct tasks, in order, and nothing else. */
  lemma {:induction false} RunRecords(s: State, run: seq<Step>)
    requires Valid(s, run)
    ensures After(s, run).enqueued == s.enqueued + Appended(run)
    ensures After(s, run).direct == s.direct + Directs(run)
    ensures After(s, run).started <==> s.started || Start in run
    decreases |run|
  {
    if run != [] {
      var step, rest := run[0], run[1..];
      RunRecords(Apply(s, step), rest);
      assert run == [step] + rest;
      assert After(s, run) == After(Apply(s, step), rest);
      assert s.enqueued + [] == s.enqueued && s.direct + [] == s.direct;
    }
  }

  /** A run without its direct steps. */
  function Indirect(run: seq<Step>): (r: seq<Step>) {
    if run == [] then [] else (if run[0].Direct? then [] else [run[0]]) + Indirect(run[1..])
  }

  /** Tasks run at once leave everything else alone: without them the run goes the same way. */
  lemma {:induction false} DirectsAside(s: State, run: seq<Step>, d: seq<int>)
    requires Valid(s, run)
    ensures Valid(s.(direct := d), Indirect(run))
    ensures After(s.(direct := d), Indirect(run)) == After(s, run).(direct := d)
    decreases |run|
  {
    if run != [] {
      var step, rest, u := run[0], run[1..], s.(direct := d);
      DirectsAside(Apply(s, step), rest, d);
      if step.Direct? {
        assert Indirect(run) == Indirect(rest);
        assert Apply(s, step).(direct := d) == u;
      } else {
        assert Indirect(run)[0] == step && Indirect(run)[1..] == Indirect(rest);
        assert Apply(u, step) == Apply(s, step).(direct := d);
      }
    }
  }

  /**
   In every interleaving the tasks appended are run in that order, each at most once: what has run,
   the rest of the batch and the queue join to them.
   */
  lemma TasksRunInOrder(run: seq<Step>)
    requires Valid(INITIAL, run)
    ensures var s := After(INITIAL, run);
            && Appended(run) == s.executed + Rest(s.loop) + s.queue
            && s.direct == Directs(run)
            && Conserved(s) && s.executed <= s.enqueued == Appended(run)
  {
    RunConserves(INITIAL, run);
    RunRecords(INITIAL, run);
    assert [] + Appended(run) == Appended(run) && [] + Directs(run) == Directs(run);
  }

  // ----- no lost wakeup -----

  /** A waiting task has someone coming for it. */
  predicate Awake(s: State) {
    s.queue != [] ==> s.pending || s.busy != {} || s.loop == Called
  }

  lemma StepKeepsAwake(s: State, step: Step)
    requires s.started && Awake(s) && Enabled(s, step)
    ensures Apply(s, step).started && Awake(Apply(s, step))
  {
    if step.Append? {
      assert step.pusher in Apply(s, step).busy;
    }
  }

  lemma {:induction false} RunKeepsAwake(s: State, run: seq<Step>)
    requires s.started && Awake(s) && Valid(s, run)
    ensures After(s, run).started && Awake(After(s, run))
    decreases |run|
  {
    if run != [] {
      StepKeepsAwake(s, run[0]);
      RunKeepsAwake(Apply(s, run[0]), run[1..]);
    }
  }

  /** Steps other than new work. */
  predicate Internal(step: Step) {
    step.Notify? || step.Wake? || step.Swap? || step.Run? || step.Return?
  }

  ghost predicate Stuck(s: State) {
    !exists step :: Internal(step) && Enabled(s, step)
  }

  /** A push that was notified before the watcher started, with no other push under way. */
  predicate Forgotten(s: State) {
    s.queue != [] && s.busy == {}
  }

  ghost predicate NeverLost(s: State) {
    forall run | Valid(s, run) :: Awake(After(s, run))
  }

  /** No wakeup is ever lost after the start exactly when no task was forgotten at the start. */
  lemma AwakeIffNothingForgotten(before: seq<Step>)
    requires Valid(INITIAL, before) && !After(INITIAL, before).started
    ensures NeverLost(Apply(After(INITIAL, before), Start)) <==> !Forgotten(After(INITIAL, before))
  {
    RunConserves(INITIAL, before);
    var u := After(INITIAL, before);
    var s := Apply(u, Start);
    if Forgotten(u) {
      var none: seq<Step> := [];
      assert Valid(s, none) && After(s, none) == s && !Awake(s);
    } else {
      forall run | Valid(s, run) ensures Awake(After(s, run)) {
        RunKeepsAwake(s, run);
      }
    }
  }

  /** A forgotten task waits, with nothing left for the loop to do, until another push begins. */
  lemma ForgottenWaits(before: seq<Step>, p: nat, t: int)
    requires Valid(INITIAL, before) && !After(INITIAL, before).started && Forgotten(After(INITIAL, before))
    ensures var s := Apply(After(INITIAL, before), Start);
            Stuck(s) && s.executed != s.enqueued && Enabled(s, Append(p, t)) && Awake(Apply(s, Append(p, t)))
  {
    RunConserves(INITIAL, before);
    var s := Apply(After(INITIAL, before), Start);
    assert s.executed == [] && s.enqueued == s.queue;
    assert p in Apply(s, Append(p, t)).busy;
  }

  predicate HasAppend(run: seq<Step>) {
    exists k | 0 <= k < |run| :: run[k].Append?
  }

  /** Nothing is forgotten when every push begins after the start. */
  lemma {:induction false} NoPushNothingForgotten(s: State, before: seq<Step>)
    requires Valid(s, before) && !HasAppend(before) && s.queue == []
    ensures After(s, before).queue == [] && !Forgotten(After(s, before))
    decreases |before|
  {
    if before != [] {
      assert !before[0].Append?;
      var rest := before[1..];
      assert forall k | 0 <= k < |rest| :: rest[k] == before[k + 1];
      NoPushNothingForgotten(Apply(s, before[0]), rest);
    }
  }

  /** Such a task exists: one push, completed before the start. */
  lemma EarlyPushIsForgotten(p: nat, t: int)
    ensures var before := [Append(p, t), Notify(p)];
            Valid(INITIAL, before) && !After(INITIAL, before).started && Forgotten(After(INITIAL, before))
  {
    var a := Apply(INITIAL, Append(p, t));
    var before := [Append(p, t), Notify(p)];
    assert before[1..] == [Notify(p)];
    assert Valid(a, [Notify(p)]) && After(a, [Notify(p)]) == Apply(a, Notify(p));
    assert Apply(a, Notify(p)).busy == {};
  }

  // ----- everything is run -----

  /** A bound on the internal steps still to come. */
  function Pace(s: State): (n: nat) {
    5 * |s.busy| + (if s.pending then 4 else 0)
    + (match s.loop case Waiting => 0 case Called => 3 case Draining(_) => 1)
    + |Rest(s.loop)| + |s.queue|
  }

  lemma InternalStepAdvances(s: State, step: Step)
    requires Enabled(s, step) && Internal(step)
    ensures Pace(Apply(s, step)) < Pace(s) && Apply(s, step).enqueued == s.enqueued
  {
    if step.Notify? {
      assert |s.busy - {step.pusher}| == |s.busy| - 1;
    }
  }

  lemma StuckIsDone(s: State)
    requires s.started && Awake(s) && Conserved(s) && Stuck(s)
    ensures s.executed == s.enqueued
  {
    assert !Enabled(s, Wake) && !Enabled(s, Swap) && !Enabled(s, Run) && !Enabled(s, Return);
    if p :| p in s.busy {
      assert Enabled(s, Notify(p)) && Internal(Notify(p));
    }
  }

  /** A run that ends awake with only new work possible has run every task it appended, in order. */
  lemma NothingLeftUndone(run: seq<Step>)
    requires Valid(INITIAL, run)
    requires var s := After(INITIAL, run); s.started && Awake(s) && Stuck(s)
    ensures After(INITIAL, run).executed == Appended(run)
  {
    TasksRunInOrder(run);
    StuckIsDone(After(INITIAL, run));
  }

  /**
   Once started with nothing forgotten, the steps that are not new work come to an end, within a
   bound known beforehand, and when none is left every task appended so far has run, in order.
   */
  lemma {:induction false} EveryTaskRuns(s: State, run: seq<Step>)
    requires s.started && Awake(s) && Conserved(s) && Valid(s, run)
    requires forall k | 0 <= k < |run| :: Internal(run[k])
    ensures |run| <= Pace(s)
    ensures Stuck(After(s, run)) ==> After(s, run).executed == s.enqueued
    decreases |run|
  {
    if run == [] {
      if Stuck(s) {
        StuckIsDone(s);
      }
    } else {
      assert Internal(run[0]);
      StepConserves(s, run[0]);
      StepKeepsAwake(s, run[0]);
      InternalStepAdvances(s, run[0]);
      EveryTaskRuns(Apply(s, run[0]), run[1..]);
    }
  }

  // ----- the program -----

  /** The queue and its watcher, when each call runs without interruption. */
  class AsyncCustom {
    var started: bool
    var pending: bool
    var callbacks: seq<int>
    var executed: seq<int>
    var direct: seq<int>
    ghost var enqueued: seq<int>

    ghost function View(): (s: State)
      reads this
    {
      State(started, pending, callbacks, {}, Waiting, direct, enqueued, executed)
    }

    constructor ()
      ensures View() == INITIAL
    {
      started, pending, callbacks, executed, direct, enqueued := false, false, [], [], [], [];
    }

    /** `Start` of the watcher. */
    method StartWatcher()
      requires !started
      modifies this
      ensures View() == Apply(old(View()), Start) && started
    {
      started := true;
    }

    /** `Notify`: no effect while there is no started watcher to signal. */
    method Signal()
      modifies this`pending
      ensures pending == (old(pending) || started)
    {
      if started {
        pending := true;
      }
    }

    method Push(func: int)
      modifies this
      ensures Valid(old(View()), [Append(0, func), Notify(0)])
      ensures View() == After(old(View()), [Append(0, func), Notify(0)])
      ensures callbacks == old(callbacks) + [func] && pending == (old(pending) || started)
      ensures started == old(started) && direct == old(direct) && executed == old(executed)
      ensures enqueued == old(enqueued) + [func]
    {
      callbacks := callbacks + [func];
      enqueued := enqueued + [func];
      Signal();
      PushIsTwoSteps(old(View()), func);
    }

    /** `ExecInLoopThread`: on the loop thread the function runs at once, elsewhere it is pushed. */
    method ExecInLoopThread(isLoopThread: bool, func: int)
      requires isLoopThread ==> started
      modifies this
      ensures var run := if isLoopThread then [Step.Direct(func)] else [Append(0, func), Notify(0)];
              Valid(old(View()), run) && View() == After(old(View()), run)
      ensures started == old(started) && executed == old(executed)
      ensures isLoopThread ==>
                && direct == old(direct) + [func]
                && callbacks == old(callbacks) && pending == old(pending) && enqueued == old(enqueued)
      ensures !isLoopThread ==>
                && callbacks == old(callbacks) + [func] && enqueued == old(enqueued) + [func]
                && pending == (old(pending) || started) && direct == old(direct)
    {
      if isLoopThread {
        direct := direct + [func];
        return;
      }
      Push(func);
    }

    /** `Pop`: swap the queue out and run the batch. */
    method Pop()
      modifies this
      ensures callbacks == [] && executed == old(executed) + old(callbacks)
      ensures started == old(started) && pending == old(pending)
      ensures direct == old(direct) && enqueued == old(enqueued)
    {
      var copy := callbacks;
      callbacks := [];
      for i := 0 to |copy|
        invariant callbacks == [] && executed == old(executed) + copy[..i]
        invariant started == old(started) && pending == old(pending)
        invariant direct == old(direct) && enqueued == old(enqueued)
      {
        executed := executed + [copy[i]];
      }
      assert copy[..|copy|] == copy;
    }

    /** The loop turns to a pending watcher: the flag is cleared, then `custom_cb` is called. */
    method Dispatch()
      requires started && pending
      modifies this
      ensures Valid(old(View()), Turn(old(|callbacks|)))
      ensures View() == After(old(View()), Turn(old(|callbacks|)))
      ensures !pending && callbacks == [] && executed == old(executed) + old(callbacks) && direct == old(direct)
    {
      pending := false;
      Pop();
      TurnRunsBatch(old(View()));
    }
  }

  lemma PushIsTwoSteps(s: State, t: int)
    requires 0 !in s.busy
    ensures Valid(s, [Append(0, t), Notify(0)])
    ensures After(s, [Append(0, t), Notify(0)])
         == s.(queue := s.queue + [t], enqueued := s.enqueued + [t], pending := s.pending || s.started)
  {
    var a := Apply(s, Append(0, t));
    assert a.busy - {0} == s.busy;
    assert [Append(0, t), Notify(0)][1..] == [Notify(0)];
    assert After(s, [Append(0, t), Notify(0)]) == After(a, [Notify(0)]) == Apply(a, Notify(0));
  }

  /** One turn of the loop over a batch of n tasks. */
  function Turn(n: nat): (run: seq<Step>) {
    [Wake, Swap] + Drain(n)
  }

  function Drain(n: nat): (run: seq<Step>) {
    if n == 0 then [Return] else [Run] + Drain(n - 1)
  }

  lemma {:induction false} DrainRunsBatch(s: State)
    requires s.loop.Draining?
    ensures Valid(s, Drain(|s.loop.batch|))
    ensures After(s, Drain(|s.loop.batch|)) == s.(executed := s.executed + s.loop.batch, loop := Waiting)
    decreases |s.loop.batch|
  {
    var b := s.loop.batch;
    var run := Drain(|b|);
    if b == [] {
      assert run[1..] == [];
      assert s.executed + b == s.executed;
    } else {
      assert run[0] == Run && run[1..] == Drain(|b| - 1);
      DrainRunsBatch(Apply(s, Run));
      assert s.executed + [b[0]] + b[1..] == s.executed + b;
    }
  }

  lemma TurnRunsBatch(s: State)
    requires s.started && s.pending && s.loop == Waiting
    ensures Valid(s, Turn(|s.queue|))
    ensures After(s, Turn(|s.queue|)) == s.(pending := false, queue := [], executed := s.executed + s.queue)
  {
    var a := Apply(s, Wake);
    var b := Apply(a, Swap);
    DrainRunsBatch(b);
    var run := Turn(|s.queue|);
    assert run[0] == Wake && run[1..][0] == Swap && run[1..][1..] == Drain(|s.queue|);
    assert Valid(a, run[1..]);
    assert After(s, run) == After(a, run[1..]) == After(b, Drain(|s.queue|));
  }
}

/** What holds over every run of the pool, and how it comes to an end. */
module PoolShutdown {
  import opened PoolSteps
  import opened PoolInvariant

  ghost predicate Inv(s: State) {
    Exclusive(s) && NoneForgotten(s) && Phased(s) && OneEach(s) && Jobs(s)
  }

  lemma InvAtStart(s: State)
    requires Init(s)
    ensures Inv(s)
  {
    hide NoneForgotten, Exclusive, Phased, OneEach, Jobs;
    QuietAtStart(s);
    CountsAtStart(s);
    JobsAtStart(s);
  }

  lemma QuietAtStart(s: State)
    requires Init(s)
    ensures Exclusive(s) && NoneForgotten(s) && Phased(s)
  {
    assert forall i :: 0 <= i < |s.workers| ==> s.workers[i] == Entering;
    assert forall p :: 0 <= p < |s.putters| ==> s.putters[p] == PutIdle;
  }

  lemma CountsAtStart(s: State)
    requires Init(s)
    ensures OneEach(s)
  {
    assert forall i :: 0 <= i < |s.workers| ==> s.workers[i] == Entering && Ended(s.workers[i]) == 0;
    SumZero(s.workers, Ended);
  }

  lemma JobsAtStart(s: State)
    requires Init(s)
    ensures Jobs(s)
  {
    assert forall i :: 0 <= i < |s.workers| ==> s.workers[i] == Entering;
    assert forall p :: 0 <= p < |s.putters| ==> s.putters[p] == PutIdle;
  }

  lemma InvKept(s: State, a: Action)
    requires Inv(s) && Enabled(s, a)
    ensures Inv(Apply(s, a))
  {
    hide Exclusive, NoneForgotten, Phased, OneEach, Fifo, PutOnce, QueuedOnce, RunOnce, Recorded, Announced, Apply,
         Enabled;
    ExclusiveKept(s, a);
    NoneForgottenKept(s, a);
    PhasedKept(s, a);
    OneEachKept(s, a);
    FifoKept(s, a);
    PutOnceKept(s, a);
    QueuedOnceKept(s, a);
    RunOnceKept(s, a);
    RecordedKept(s, a);
    AnnouncedKept(s, a);
  }

  lemma {:induction false} InvOverRun(r: seq<State>, k: nat)
    requires Run(r) && k < |r|
    ensures Inv(r[k])
  {
    hide Inv, Init;
    if k == 0 {
      InvAtStart(r[0]);
    } else {
      InvOverRun(r, k - 1);
      assert Step(r[k - 1], r[k - 1 + 1]);
      var a :| Enabled(r[k - 1], a) && r[k] == Apply(r[k - 1], a);
      InvKept(r[k - 1], a);
    }
  }

  /** No wake-up is lost: whenever nobody has the mutex and a worker sleeps, every item in the queue has a
      worker that was woken and has not taken the mutex again yet. */
  lemma NoLostWakeUp(r: seq<State>, k: nat)
    requires Run(r) && k < |r| && r[k].holder == Nobody && SomeoneSleeps(r[k])
    ensures |r[k].queue| <= Sum(r[k].workers, Awake)
  {
    hide Run;
    InvOverRun(r, k);
  }

  /** Over a run, items are taken in the order in which they were put, nothing that was taken comes back,
      and no job is started twice or before it was taken. */
  lemma {:induction false} InOrderOnce(r: seq<State>, j: nat, k: nat)
    requires Run(r) && j <= k < |r|
    ensures r[j].taken <= r[k].taken <= r[k].submitted
    ensures forall a, b :: 0 <= a < b < |r[k].runs| ==> r[k].runs[a] != r[k].runs[b]
    ensures forall id :: id in r[k].runs ==> Job(id) in r[k].taken
    decreases k
  {
    hide Init, Exclusive, NoneForgotten, Phased, OneEach, PutOnce, QueuedOnce, Announced, Apply, Enabled;
    InvOverRun(r, k);
    if j < k {
      InOrderOnce(r, j, k - 1);
      assert Step(r[k - 1], r[k - 1 + 1]);
      var a :| Enabled(r[k - 1], a) && r[k] == Apply(r[k - 1], a);
      InvOverRun(r, k - 1);
      FifoKept(r[k - 1], a);
    }
  }

  // ---- The end ----

  predicate AllExited(s: State) {
    forall i :: 0 <= i < |s.workers| ==> s.workers[i].Exited?
  }

  /** When all workers have exited, the queue is empty and every job that was handed to the pool has finished. */
  lemma AllDone(s: State)
    requires Inv(s) && AllExited(s)
    ensures s.queue == [] && s.taken == s.submitted
    ensures forall id: nat :: id < |s.jobs| ==> s.jobs[id] == Finished && id in s.runs
  {
    SumFull(s.workers, Ended);
    PoisonsOfJoin(s.taken, s.queue);
    NoPoisons(s.queue);
    NoPoisons(s.taken);
    QueueAfterPoison(s);
    forall id: nat | id < |s.jobs|
      ensures s.jobs[id] == Finished
    {
      NobodyPuts(s, id);
      assert Job(id) in s.submitted;
      assert forall i :: 0 <= i < |s.workers| ==> !Carries(s.workers[i], id);
    }
  }

  /** Once a poison item was taken, the queue holds nothing else. */
  lemma QueueAfterPoison(s: State)
    requires Fifo(s) && PoisonsLast(s.submitted) && exists k :: 0 <= k < |s.taken| && s.taken[k].Poison?
    ensures forall k :: 0 <= k < |s.queue| ==> s.queue[k].Poison?
  {
    var j :| 0 <= j < |s.taken| && s.taken[j].Poison?;
    forall k | 0 <= k < |s.queue|
      ensures s.queue[k].Poison?
    {
      assert s.submitted[j] == s.taken[j] && s.submitted[|s.taken| + k] == s.queue[k];
    }
  }

  lemma NobodyPuts(s: State, id: nat)
    requires Phased(s) && !s.phase.Serving?
    ensures !BeingPut(s, id)
  {
  }

  // ---- Getting there ----

  /** A step that the program itself takes: not a call from outside and not a wake-up without a reason. */
  predicate Own(a: Action) {
    !a.WakeUp? && !a.Submit? && !a.BeginStop?
  }

  ghost predicate CanMove(s: State) {
    exists a :: Own(a) && Enabled(s, a)
  }

  /** The thread that has the mutex can always go on. */
  lemma HolderMoves(s: State)
    requires Exclusive(s) && s.holder.Held?
    ensures CanMove(s)
  {
    match s.holder.thread
    case WorkerThread(i) =>
      assert WorkerInside(s.workers[i]);
      var a := if s.workers[i].Leaving? then Unlock(i) else if s.queue == [] then Wait(i) else Take(i);
      assert Own(a) && Enabled(s, a);
    case PutterThread(p) =>
      assert PutterInside(s.putters[p]);
      if s.putters[p].PutSignalling? && SomeoneSleeps(s) {
        var i :| 0 <= i < |s.workers| && s.workers[i].Asleep?;
        assert Own(PutSignal(p, i)) && Enabled(s, PutSignal(p, i));
      } else {
        var a := if s.putters[p].PutPushing? then PutPush(p)
                 else if s.putters[p].PutLeaving? then PutUnlock(p) else PutSignal(p, |s.workers|);
        assert Own(a) && Enabled(s, a);
      }
  }

  lemma CarriedKnown(s: State, i: nat, id: nat)
    requires RunOnce(s) && i < |s.workers| && Carries(s.workers[i], id)
    ensures id < |s.jobs|
  {
  }

  /** A worker that neither sleeps nor has exited can go on when the mutex is free. */
  lemma WorkerMoves(s: State, i: nat)
    requires Exclusive(s) && Jobs(s) && s.holder == Nobody && i < |s.workers|
    requires !s.workers[i].Asleep? && !s.workers[i].Exited?
    ensures CanMove(s)
  {
    var w := s.workers[i];
    assert !WorkerInside(w);
    if w.Busy? {
      CarriedKnown(s, i, w.id);
    } else if w.Got? && w.item.Job? {
      CarriedKnown(s, i, w.item.id);
    }
    var a := if w.Entering? || w.Awakened? then Lock(i) else if w.Busy? then Finish(i)
             else if w.item.Job? then Start(i) else Exit(i);
    assert Own(a) && Enabled(s, a);
  }

  /** When every worker sleeps or has exited and at least one sleeps, nothing waits in the queue. */
  lemma AllAsleep(s: State)
    requires NoneForgotten(s) && s.holder == Nobody && SomeoneSleeps(s)
    requires forall i :: 0 <= i < |s.workers| ==> s.workers[i].Asleep? || s.workers[i].Exited?
    ensures s.queue == []
  {
    SumZero(s.workers, Awake);
  }

  /** The pool never gets stuck before its work is done: with an unfinished job, or while it is being stopped,
      some thread can take a step of its own. */
  lemma NeverStuck(s: State)
    requires Inv(s)
    requires (exists id: nat :: id < |s.jobs| && s.jobs[id] != Finished) || (!s.phase.Serving? && !s.phase.Stopped?)
    ensures CanMove(s)
  {
    hide Exclusive, NoneForgotten, Recorded, PutOnce, QueuedOnce, Fifo;
    if s.holder.Held? {
      HolderMoves(s);
    } else if i :| 0 <= i < |s.workers| && !s.workers[i].Asleep? && !s.workers[i].Exited? {
      WorkerMoves(s, i);
    } else if p :| 0 <= p < |s.putters| && s.putters[p].PutEntering? {
      assert Own(PutLock(p)) && Enabled(s, PutLock(p));
    } else {
      QuietMoves(s);
    }
  }

  /** The case in which all workers sleep or have exited: only the owner can go on, and it can. */
  lemma QuietMoves(s: State)
    requires Inv(s) && s.holder == Nobody
    requires (exists id: nat :: id < |s.jobs| && s.jobs[id] != Finished) || (!s.phase.Serving? && !s.phase.Stopped?)
    requires forall i :: 0 <= i < |s.workers| ==> s.workers[i].Asleep? || s.workers[i].Exited?
    requires forall p :: 0 <= p < |s.putters| ==> !s.putters[p].PutEntering?
    ensures CanMove(s)
  {
    forall p | 0 <= p < |s.putters|
      ensures s.putters[p].PutIdle?
    {
      assert !PutterInside(s.putters[p]);
    }
    if SomeoneSleeps(s) {
      AllAsleep(s);
      NoneLeft(s);
    } else {
      AllDone(s);
    }
    var a := if s.phase.Stopping? then (if s.phase.left > 0 then PutPoison else BeginJoin)
             else if s.phase.next < |s.workers| then Join else EndJoin;
    assert Own(a) && Enabled(s, a);
  }

  /** With an empty queue, idle putters and a worker asleep, all jobs are finished and poison is still owed. */
  lemma NoneLeft(s: State)
    requires Inv(s) && s.queue == [] && SomeoneSleeps(s)
    requires forall i :: 0 <= i < |s.workers| ==> s.workers[i].Asleep? || s.workers[i].Exited?
    requires forall p :: 0 <= p < |s.putters| ==> s.putters[p].PutIdle?
    ensures forall id: nat :: id < |s.jobs| ==> s.jobs[id] == Finished
    ensures !s.phase.Serving? ==> s.phase.Stopping? && s.phase.left > 0
  {
    SumFull(s.workers, Ended);
    assert s.submitted == s.taken;
    forall id: nat | id < |s.jobs|
      ensures s.jobs[id] == Finished
    {
      assert Job(id) in s.submitted;
      assert forall i :: 0 <= i < |s.workers| ==> !Carries(s.workers[i], id);
    }
  }

  function WorkerWeight(w: Worker): nat {
    match w
    case Entering => 2
    case Taking => 1
    case Asleep => 0
    case Awakened => 2
    case Leaving(_) => 6
    case Got(_) => 5
    case Busy(_) => 4
    case Exited => 0
  }

  function PutterWeight(w: Putter): nat {
    match w
    case PutIdle => 0
    case PutEntering(_) => 12
    case PutPushing(_) => 11
    case PutSignalling => 4
    case PutLeaving => 1
  }

  /** Bounds the steps that are left once the pool is being stopped. */
  function Ahead(s: State): nat
    requires Phased(s)
  {
    Sum(s.workers, WorkerWeight) + 6 * |s.queue| + PutterWeight(s.putters[0]) +
    match s.phase
    case Serving => 0
    case Stopping(left) => 13 * left + |s.workers| + 3
    case Joining(next) => |s.workers| - next + 1
    case Stopped => 0
  }

  /** Stopping makes progress with every step but a wake-up without a reason. */
  lemma StepsAhead(s: State, a: Action)
    requires Phased(s) && Enabled(s, a) && !s.phase.Serving?
    ensures Phased(Apply(s, a)) && !Apply(s, a).phase.Serving?
    ensures if a.WakeUp? then Ahead(Apply(s, a)) <= Ahead(s) + 2 else Ahead(Apply(s, a)) < Ahead(s)
  {
    hide Sum;
    PhasedKept(s, a);
    SumAfter(s, a, WorkerWeight);
  }

  // ---- Whole executions of the end ----

  predicate Feasible(s: State, acts: seq<Action>)
    decreases |acts|
  {
    acts != [] ==> Enabled(s, acts[0]) && Feasible(Apply(s, acts[0]), acts[1..])
  }

  function After(s: State, acts: seq<Action>): State
    requires Feasible(s, acts)
    decreases |acts|
  {
    if acts == [] then s else After(Apply(s, acts[0]), acts[1..])
  }

  function WakeUps(acts: seq<Action>): nat {
    if acts == [] then 0 else (if acts[0].WakeUp? then 1 else 0) + WakeUps(acts[1..])
  }

  /** However the threads are scheduled, stopping takes no more than so many steps. */
  lemma {:induction false} StoppingEnds(s: State, acts: seq<Action>)
    requires Inv(s) && !s.phase.Serving? && Feasible(s, acts)
    ensures Inv(After(s, acts)) && !After(s, acts).phase.Serving?
    ensures |acts| <= Ahead(s) + 3 * WakeUps(acts)
    decreases |acts|
  {
    hide Inv, Apply, Enabled, Ahead;
    if acts != [] {
      InvPhased(s);
      InvKept(s, acts[0]);
      StepsAhead(s, acts[0]);
      StoppingEnds(Apply(s, acts[0]), acts[1..]);
    }
  }

  lemma InvPhased(s: State)
    requires Inv(s)
    ensures Phased(s)
  {
  }

  /** And where it ends, all workers have exited, all jobs handed to the pool have run once and finished,
      and nothing is left in the queue. */
  lemma StoppedClean(s: State, acts: seq<Action>)
    requires Inv(s) && !s.phase.Serving? && Feasible(s, acts) && !CanMove(After(s, acts))
    ensures var e := After(s, acts);
            && e.phase.Stopped? && AllExited(e) && e.queue == []
            && forall id: nat :: id < |e.jobs| ==> e.jobs[id] == Finished && id in e.runs
  {
    hide CanMove, Exclusive, NoneForgotten, OneEach, Jobs;
    var e := After(s, acts);
    StoppingEnds(s, acts);
    if !e.phase.Stopped? {
      NeverStuck(e);
    }
    AllDone(e);
  }
}

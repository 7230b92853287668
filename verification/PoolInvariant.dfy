/** What every step of the queue and the pool keeps. */
module PoolInvariant {
  import opened PoolSteps

  // ---- The mutex ----

  predicate WorkerInside(w: Worker) {
    w.Taking? || w.Leaving?
  }

  predicate PutterInside(w: Putter) {
    w.PutPushing? || w.PutSignalling? || w.PutLeaving?
  }

  /** The holder of the mutex is the one thread between locking and unlocking. */
  ghost predicate Exclusive(s: State) {
    WorkersExclude(s) && PuttersExclude(s)
  }

  ghost predicate WorkersExclude(s: State) {
    && (forall i :: 0 <= i < |s.workers| ==> (WorkerInside(s.workers[i]) <==> s.holder == Held(WorkerThread(i))))
    && (s.holder.Held? && s.holder.thread.WorkerThread? ==> s.holder.thread.i < |s.workers|)
  }

  ghost predicate PuttersExclude(s: State) {
    && (forall p :: 0 <= p < |s.putters| ==> (PutterInside(s.putters[p]) <==> s.holder == Held(PutterThread(p))))
    && (s.holder.Held? && s.holder.thread.PutterThread? ==> s.holder.thread.p < |s.putters|)
  }

  lemma WorkersExcludeKept(s: State, a: Action)
    requires Exclusive(s) && Enabled(s, a)
    ensures WorkersExclude(Apply(s, a))
  {
  }

  lemma PuttersExcludeKept(s: State, a: Action)
    requires Exclusive(s) && Enabled(s, a)
    ensures PuttersExclude(Apply(s, a))
  {
  }

  lemma ExclusiveKept(s: State, a: Action)
    requires Exclusive(s) && Enabled(s, a)
    ensures Exclusive(Apply(s, a))
  {
    hide WorkersExclude, PuttersExclude, Enabled, Apply;
    WorkersExcludeKept(s, a);
    PuttersExcludeKept(s, a);
  }

  // ---- Items ----

  /** Items leave the queue in the order in which they were put, none is lost and none is taken twice. */
  ghost predicate Fifo(s: State) {
    s.submitted == s.taken + s.queue
  }

  lemma FifoKept(s: State, a: Action)
    requires Fifo(s) && Enabled(s, a)
    ensures Fifo(Apply(s, a))
    ensures s.taken <= Apply(s, a).taken && s.submitted <= Apply(s, a).submitted
  {
    if a.Take? {
      assert s.queue == [s.queue[0]] + s.queue[1..];
    }
  }

  // ---- Wake-ups ----

  function Awake(w: Worker): nat {
    if w.Awakened? then 1 else 0
  }

  predicate SomeoneSleeps(s: State) {
    exists i :: 0 <= i < |s.workers| && s.workers[i].Asleep?
  }

  /** One item is accounted for by the holder of the mutex: it is about to take it or to signal it. */
  function InHand(s: State): nat {
    match s.holder
    case Nobody => 0
    case Held(WorkerThread(i)) => if i < |s.workers| && s.workers[i].Taking? then 1 else 0
    case Held(PutterThread(p)) => if p < |s.putters| && s.putters[p].PutSignalling? then 1 else 0
  }

  /** While someone sleeps, there is a thread on its way for every item in the queue. */
  ghost predicate NoneForgotten(s: State) {
    SomeoneSleeps(s) ==> |s.queue| <= Sum(s.workers, Awake) + InHand(s)
  }

  /** The worker that a step moves. */
  function Mover(a: Action): (i: int)
    ensures i >= -1
  {
    match a
    case Lock(i) => i
    case Take(i) => i
    case Wait(i) => i
    case Unlock(i) => i
    case Start(i) => i
    case Finish(i) => i
    case Exit(i) => i
    case WakeUp(i) => i
    case PutSignal(_, i) => i
    case _ => -1
  }

  /** What a step does to a sum over the workers. */
  lemma SumAfter(s: State, a: Action, f: Worker -> nat)
    requires Enabled(s, a)
    ensures var s', i := Apply(s, a), Mover(a);
            && |s'.workers| == |s.workers| && |s'.putters| == |s.putters|
            && if 0 <= i < |s.workers| then
              && s'.workers == s.workers[i := s'.workers[i]]
              && Sum(s'.workers, f) + f(s.workers[i]) == Sum(s.workers, f) + f(s'.workers[i])
            else s'.workers == s.workers
  {
    var i := Mover(a);
    if 0 <= i < |s.workers| {
      SumUpdate(s.workers, i, Apply(s, a).workers[i], f);
    }
  }

  lemma NoneForgottenKept(s: State, a: Action)
    requires Exclusive(s) && NoneForgotten(s) && Enabled(s, a)
    ensures NoneForgotten(Apply(s, a))
  {
    hide Sum;
    SumAfter(s, a, Awake);
  }

  // ---- Stopping ----

  function Poisons(q: seq<Item>): nat {
    if q == [] then 0 else (if q[0].Poison? then 1 else 0) + Poisons(q[1..])
  }

  lemma {:induction false} PoisonsOfJoin(a: seq<Item>, b: seq<Item>)
    ensures Poisons(a + b) == Poisons(a) + Poisons(b)
  {
    if a == [] {
      assert a + b == b;
    } else {
      assert (a + b)[1..] == a[1..] + b;
      PoisonsOfJoin(a[1..], b);
    }
  }

  /** 1 for a worker that has taken a poison item. */
  function Ended(w: Worker): nat {
    if w.Exited? || w == Leaving(Poison) || w == Got(Poison) then 1 else 0
  }

  /** Poison items that the owner has still to put. */
  function Owed(s: State): nat
    requires |s.putters| > 0
  {
    (if s.phase.Stopping? then s.phase.left else 0) +
    if s.putters[0] == PutEntering(Poison) || s.putters[0] == PutPushing(Poison) then 1 else 0
  }

  ghost predicate PoisonsLast(q: seq<Item>) {
    forall j, k :: 0 <= j < k < |q| && q[j].Poison? ==> q[k].Poison?
  }

  /** Who is putting what, in which phase. */
  ghost predicate Phased(s: State) {
    && |s.workers| > 0 && |s.putters| > 0
    && (!s.phase.Serving? ==> forall p :: 0 < p < |s.putters| ==> s.putters[p].PutIdle?)
    && (!s.phase.Stopping? ==> s.putters[0].PutIdle?)
    && (s.putters[0].PutEntering? || s.putters[0].PutPushing? ==> s.putters[0].put.Poison?)
    && (forall p :: 0 < p < |s.putters| && (s.putters[p].PutEntering? || s.putters[p].PutPushing?) ==>
          s.putters[p].put.Job?)
    && (s.phase.Joining? ==>
          s.phase.next <= |s.workers| && forall i :: 0 <= i < s.phase.next ==> s.workers[i].Exited?)
    && (s.phase.Stopped? ==> forall i :: 0 <= i < |s.workers| ==> s.workers[i].Exited?)
  }

  /** Every worker gets one poison item, after all jobs. */
  ghost predicate OneEach(s: State) {
    && |s.putters| > 0
    && PoisonsLast(s.submitted)
    && Sum(s.workers, Ended) == Poisons(s.taken)
    && Poisons(s.submitted) + Owed(s) == if s.phase.Serving? then 0 else |s.workers|
  }

  lemma PhasedKept(s: State, a: Action)
    requires Phased(s) && Enabled(s, a)
    ensures Phased(Apply(s, a))
  {
    hide Ended, Sum;
    SumAfter(s, a, Ended);
  }

  lemma PoisonsLastKept(s: State, a: Action)
    requires Phased(s) && OneEach(s) && Enabled(s, a)
    ensures PoisonsLast(Apply(s, a).submitted)
  {
    hide Sum;
    if a.PutPush? && s.putters[a.p].put.Job? {
      NoPoisons(s.submitted);
    }
  }

  lemma EndedKept(s: State, a: Action)
    requires Phased(s) && Enabled(s, a) && Sum(s.workers, Ended) == Poisons(s.taken)
    ensures Sum(Apply(s, a).workers, Ended) == Poisons(Apply(s, a).taken)
  {
    hide Sum;
    SumAfter(s, a, Ended);
    if a.Take? {
      PoisonsOfJoin(s.taken, [s.queue[0]]);
    }
  }

  lemma OwedKept(s: State, a: Action)
    requires Phased(s) && Enabled(s, a) && |s.putters| > 0
    ensures var s' := Apply(s, a);
            && |s'.putters| > 0 && |s'.workers| == |s.workers|
            && Poisons(s'.submitted) + Owed(s') + (if s'.phase.Serving? then |s.workers| else 0)
            == Poisons(s.submitted) + Owed(s) + if s.phase.Serving? then |s.workers| else 0
  {
    hide Poisons;
    if a.PutPush? {
      PoisonsOfJoin(s.submitted, [s.putters[a.p].put]);
      PoisonsOfOne(s.putters[a.p].put);
    }
  }

  lemma PoisonsOfOne(item: Item)
    ensures Poisons([item]) == if item.Poison? then 1 else 0
  {
  }

  lemma OneEachKept(s: State, a: Action)
    requires Phased(s) && OneEach(s) && Enabled(s, a)
    ensures OneEach(Apply(s, a))
  {
    hide Sum, PoisonsLast, Poisons, Owed, Enabled, Phased, Apply;
    EndedKept(s, a);
    OwedKept(s, a);
    PoisonsLastKept(s, a);
  }

  lemma {:induction false} NoPoisons(q: seq<Item>)
    ensures Poisons(q) == 0 <==> forall k :: 0 <= k < |q| ==> q[k].Job?
  {
    if q != [] {
      NoPoisons(q[1..]);
      assert forall k :: 0 <= k < |q| - 1 ==> q[1..][k] == q[k + 1];
      if forall k :: 0 <= k < |q| ==> q[k].Job? {
        assert forall k :: 0 <= k < |q| - 1 ==> q[1..][k].Job?;
      }
      if Poisons(q) == 0 {
        forall k | 0 <= k < |q|
          ensures q[k].Job?
        {
          if k > 0 {
            assert q[1..][k - 1].Job?;
          }
        }
      }
    }
  }

  // ---- Jobs ----

  predicate Carries(w: Worker, id: nat) {
    w == Leaving(Job(id)) || w == Got(Job(id)) || w == Busy(id)
  }

  predicate Puts(w: Putter, id: nat) {
    w == PutEntering(Job(id)) || w == PutPushing(Job(id))
  }

  /** A job that was announced but not queued yet. */
  predicate Fresh(s: State, id: nat) {
    id < |s.jobs| && s.jobs[id] == Created && Job(id) !in s.submitted
  }

  /** A job that is being put is new, and nobody else is putting it. */
  ghost predicate PutOnce(s: State) {
    && (forall p: nat, id: nat :: p < |s.putters| && Puts(s.putters[p], id) ==> Fresh(s, id))
    && (forall p: nat, q: nat, id: nat ::
          p < |s.putters| && q < |s.putters| && Puts(s.putters[p], id) && Puts(s.putters[q], id) ==> p == q)
  }

  /** No job is put twice. */
  ghost predicate QueuedOnce(s: State) {
    && (forall k :: 0 <= k < |s.submitted| && s.submitted[k].Job? ==> s.submitted[k].id < |s.jobs|)
    && (forall j, k :: 0 <= j < k < |s.submitted| && s.submitted[j].Job? ==> s.submitted[j] != s.submitted[k])
    && (forall k :: 0 <= k < |s.queue| && s.queue[k].Job? ==>
          s.queue[k].id < |s.jobs| && s.jobs[s.queue[k].id] == Created)
  }

  /** A worker that carries a job has taken it, and runs it or is about to. */
  predicate InWork(s: State, w: Worker, id: nat) {
    Job(id) in s.taken && id < |s.jobs| && s.jobs[id] == if w.Busy? then Running else Created
  }

  /** A job that was taken is with one worker until it is finished. */
  ghost predicate RunOnce(s: State) {
    && (forall i: nat, id: nat :: i < |s.workers| && Carries(s.workers[i], id) ==> InWork(s, s.workers[i], id))
    && (forall i: nat, j: nat, id: nat ::
          i < |s.workers| && j < |s.workers| && Carries(s.workers[i], id) && Carries(s.workers[j], id) ==> i == j)
    && (forall id: nat :: Job(id) in s.taken && id < |s.jobs| && s.jobs[id] != Finished ==>
          exists i :: 0 <= i < |s.workers| && Carries(s.workers[i], id))
    && (forall id: nat :: id < |s.jobs| && s.jobs[id] != Created ==> Job(id) in s.taken)
  }

  /** A job that was handed to the pool is on its way into the queue or has been there. */
  ghost predicate Announced(s: State) {
    forall id: nat :: id < |s.jobs| ==> Job(id) in s.submitted || BeingPut(s, id)
  }

  predicate BeingPut(s: State, id: nat) {
    exists p :: 0 <= p < |s.putters| && Puts(s.putters[p], id)
  }

  /** The record of runs has each started job once. */
  ghost predicate Recorded(s: State) {
    && (forall j, k :: 0 <= j < k < |s.runs| ==> s.runs[j] != s.runs[k])
    && (forall id: nat :: id in s.runs <==> id < |s.jobs| && s.jobs[id] != Created)
  }

  /** What was taken is no longer in the queue. */
  lemma TakenIsGone(s: State, id: nat)
    requires Fifo(s) && QueuedOnce(s) && Job(id) in s.taken
    ensures Job(id) !in s.queue && Job(id) in s.submitted
  {
    var j :| 0 <= j < |s.taken| && s.taken[j] == Job(id);
    assert s.submitted[j] == Job(id);
    forall k | 0 <= k < |s.queue|
      ensures s.queue[k] != Job(id)
    {
      assert s.submitted[|s.taken| + k] == s.queue[k];
    }
  }

  ghost predicate Jobs(s: State) {
    Fifo(s) && PutOnce(s) && QueuedOnce(s) && RunOnce(s) && Recorded(s) && Announced(s)
  }

  /** A worker that starts a job finds it new: the assertion in yield_ThreadPool (line 128) holds. */
  lemma StartedNew(s: State, i: nat)
    requires Jobs(s) && i < |s.workers| && s.workers[i].Got? && s.workers[i].item.Job?
    ensures s.workers[i].item.id < |s.jobs| && s.jobs[s.workers[i].item.id] == Created
    ensures s.workers[i].item.id !in s.runs
  {
    assert Carries(s.workers[i], s.workers[i].item.id);
  }

  /** What a thread is putting after a step, it was putting before, unless it has just been given it. */
  lemma PutBefore(s: State, a: Action, p: nat, id: nat)
    requires Enabled(s, a) && p < |s.putters| && Puts(Apply(s, a).putters[p], id)
    ensures (Puts(s.putters[p], id) && a != PutPush(p)) || (a == Submit(p) && id == |s.jobs|)
  {
  }

  lemma PutOnceKept(s: State, a: Action)
    requires Jobs(s) && Enabled(s, a)
    ensures PutOnce(Apply(s, a))
  {
    hide Recorded, Announced;
    var s' := Apply(s, a);
    SumAfter(s, a, Ended);
    forall p: nat, id: nat | p < |s.putters| && Puts(s'.putters[p], id)
      ensures Fresh(s', id)
    {
      PutBefore(s, a, p, id);
      NotYetTaken(s, a, p, id);
    }
    forall p: nat, q: nat, id: nat | p < |s.putters| && q < |s.putters| &&
        Puts(s'.putters[p], id) && Puts(s'.putters[q], id)
      ensures p == q
    {
      PutBefore(s, a, p, id);
      PutBefore(s, a, q, id);
      assert Puts(s.putters[p], id) ==> Fresh(s, id);
      assert Puts(s.putters[q], id) ==> Fresh(s, id);
    }
  }

  /** A job that is being put is not started, finished or queued by another thread's step. */
  lemma NotYetTaken(s: State, a: Action, p: nat, id: nat)
    requires Jobs(s) && Enabled(s, a) && p < |s.putters|
    requires (Puts(s.putters[p], id) && a != PutPush(p)) || (a == Submit(p) && id == |s.jobs|)
    ensures Fresh(Apply(s, a), id)
  {
    hide Recorded, Announced, Fifo;
    assert Puts(s.putters[p], id) ==> Fresh(s, id);
    match a
    case Start(i) =>
      assert Carries(s.workers[i], s.workers[i].item.id);
      TakenIsGone(s, s.workers[i].item.id);
    case Finish(i) =>
      assert Carries(s.workers[i], s.workers[i].id);
      TakenIsGone(s, s.workers[i].id);
    case PutPush(q) =>
      assert q != p ==> !Puts(s.putters[q], id);
    case Submit(q) =>
      assert forall k :: 0 <= k < |s.submitted| ==> s.submitted[k] != Job(|s.jobs|);
    case _ =>
  }

  lemma SubmittedOnceKept(s: State, a: Action)
    requires Jobs(s) && Enabled(s, a)
    ensures var s' := Apply(s, a);
            && (forall k :: 0 <= k < |s'.submitted| && s'.submitted[k].Job? ==> s'.submitted[k].id < |s'.jobs|)
            && (forall j, k :: 0 <= j < k < |s'.submitted| && s'.submitted[j].Job? ==>
                 s'.submitted[j] != s'.submitted[k])
  {
    hide Recorded, Fifo, RunOnce, InWork;
    if a.PutPush? && s.putters[a.p].put.Job? {
      assert Puts(s.putters[a.p], s.putters[a.p].put.id);
      assert Fresh(s, s.putters[a.p].put.id);
    }
  }

  lemma QueueCreatedKept(s: State, a: Action)
    requires Jobs(s) && Enabled(s, a)
    ensures var s' := Apply(s, a);
            forall k :: 0 <= k < |s'.queue| && s'.queue[k].Job? ==>
              s'.queue[k].id < |s'.jobs| && s'.jobs[s'.queue[k].id] == Created
  {
    hide Recorded, Fifo, RunOnce, InWork;
    if a.Start? {
      CarriedIsGone(s, a.i, s.workers[a.i].item.id);
    } else if a.Finish? {
      CarriedIsGone(s, a.i, s.workers[a.i].id);
    } else if a.PutPush? && s.putters[a.p].put.Job? {
      assert Puts(s.putters[a.p], s.putters[a.p].put.id);
      assert Fresh(s, s.putters[a.p].put.id);
    }
  }

  lemma QueuedOnceKept(s: State, a: Action)
    requires Jobs(s) && Enabled(s, a)
    ensures QueuedOnce(Apply(s, a))
  {
    hide Jobs, Enabled, Apply;
    SubmittedOnceKept(s, a);
    QueueCreatedKept(s, a);
  }

  lemma CarriedIsGone(s: State, i: nat, id: nat)
    requires Fifo(s) && QueuedOnce(s) && RunOnce(s) && i < |s.workers| && Carries(s.workers[i], id)
    ensures Job(id) !in s.queue && InWork(s, s.workers[i], id)
  {
    hide Fifo, QueuedOnce;
    TakenIsGone(s, id);
  }

  /** The job that worker `i` carries after a step, it carried before or took from the queue. */
  lemma CarriedBefore(s: State, a: Action, i: nat, id: nat)
    requires Enabled(s, a) && i < |s.workers| && Carries(Apply(s, a).workers[i], id)
    ensures Carries(s.workers[i], id) || (a == Take(i) && s.queue != [] && s.queue[0] == Job(id))
    ensures Carries(s.workers[i], id) ==> Apply(s, a).workers[i].Busy? == (s.workers[i].Busy? || a == Start(i))
  {
  }

  lemma OneCarrier(s: State, a: Action, i: nat, j: nat, id: nat)
    requires Jobs(s) && Enabled(s, a) && i < |s.workers| && j < |s.workers|
    requires Carries(Apply(s, a).workers[i], id) && Carries(Apply(s, a).workers[j], id)
    ensures i == j
  {
    hide PutOnce, Recorded, Announced, QueuedOnce, Fifo, Apply, Enabled;
    CarriedBefore(s, a, i, id);
    CarriedBefore(s, a, j, id);
    if Job(id) in s.taken {
      TakenIsGone(s, id);
    }
    assert Carries(s.workers[i], id) ==> InWork(s, s.workers[i], id);
    assert Carries(s.workers[j], id) ==> InWork(s, s.workers[j], id);
  }

  lemma StillInWork(s: State, a: Action, i: nat, id: nat)
    requires Jobs(s) && Enabled(s, a) && i < |s.workers| && Carries(Apply(s, a).workers[i], id)
    ensures InWork(Apply(s, a), Apply(s, a).workers[i], id)
  {
    hide PutOnce, Recorded, Announced;
    CarriedBefore(s, a, i, id);
    assert Carries(s.workers[i], id) ==> InWork(s, s.workers[i], id);
    if a.Start? {
      assert Carries(s.workers[a.i], s.workers[a.i].item.id);
    } else if a.Finish? {
      assert Carries(s.workers[a.i], s.workers[a.i].id);
    }
  }

  /** A job that was taken and is not finished still has its worker. */
  lemma CarrierStays(s: State, a: Action, id: nat)
    requires Jobs(s) && Enabled(s, a) && Job(id) in Apply(s, a).taken && id < |Apply(s, a).jobs|
    requires Apply(s, a).jobs[id] != Finished
    ensures exists i :: 0 <= i < |s.workers| && Carries(Apply(s, a).workers[i], id)
  {
    hide PutOnce, Recorded, Announced, QueuedOnce, Fifo, RunOnce;
    if a.Take? && s.queue[0] == Job(id) {
      assert Carries(Apply(s, a).workers[a.i], id);
    } else {
      var i := CarrierBefore(s, a, id);
      assert Carries(Apply(s, a).workers[i], id);
    }
  }

  /** A job that was taken before has its worker still. */
  lemma CarrierBefore(s: State, a: Action, id: nat) returns (i: nat)
    requires Jobs(s) && Enabled(s, a) && Job(id) in s.taken && id < |Apply(s, a).jobs|
    requires Apply(s, a).jobs[id] != Finished
    ensures i < |s.workers| && Carries(s.workers[i], id) && Carries(Apply(s, a).workers[i], id)
  {
    hide PutOnce, Recorded, Announced, QueuedOnce, Fifo;
    TakenIsGone(s, id);
    KnownJob(s, id);
    if a.Start? {
      CarriedIsGone(s, a.i, s.workers[a.i].item.id);
    }
    assert s.jobs[id] != Finished;
    i :| 0 <= i < |s.workers| && Carries(s.workers[i], id);
  }

  lemma KnownJob(s: State, id: nat)
    requires QueuedOnce(s) && Job(id) in s.submitted
    ensures id < |s.jobs|
  {
    var k :| 0 <= k < |s.submitted| && s.submitted[k] == Job(id);
  }

  lemma RunOnceKept(s: State, a: Action)
    requires Jobs(s) && Enabled(s, a)
    ensures RunOnce(Apply(s, a))
  {
    hide PutOnce, Recorded, QueuedOnce, Fifo, Announced, Ended, Sum;
    SumAfter(s, a, Ended);
    forall i: nat, id: nat | i < |s.workers| && Carries(Apply(s, a).workers[i], id)
      ensures InWork(Apply(s, a), Apply(s, a).workers[i], id)
    {
      StillInWork(s, a, i, id);
    }
    forall i: nat, j: nat, id: nat | i < |s.workers| && j < |s.workers|
        && Carries(Apply(s, a).workers[i], id) && Carries(Apply(s, a).workers[j], id)
      ensures i == j
    {
      OneCarrier(s, a, i, j, id);
    }
    forall id: nat | Job(id) in Apply(s, a).taken && id < |Apply(s, a).jobs| && Apply(s, a).jobs[id] != Finished
      ensures exists i :: 0 <= i < |s.workers| && Carries(Apply(s, a).workers[i], id)
    {
      CarrierStays(s, a, id);
    }
    forall id: nat | id < |Apply(s, a).jobs| && Apply(s, a).jobs[id] != Created
      ensures Job(id) in Apply(s, a).taken
    {
      if a.Start? {
        assert Carries(s.workers[a.i], s.workers[a.i].item.id);
      } else if a.Finish? {
        assert Carries(s.workers[a.i], s.workers[a.i].id);
      }
    }
  }

  lemma RecordedKept(s: State, a: Action)
    requires Jobs(s) && Enabled(s, a)
    ensures Recorded(Apply(s, a))
  {
    hide PutOnce, QueuedOnce, Fifo, Announced, RunOnce;
    if a.Start? {
      StartedNew(s, a.i);
    } else if a.Finish? {
      CarriedIsGone(s, a.i, s.workers[a.i].id);
    }
  }

  lemma AnnouncedKept(s: State, a: Action)
    requires Jobs(s) && Enabled(s, a)
    ensures Announced(Apply(s, a))
  {
    hide Recorded, RunOnce, PutOnce, QueuedOnce, Fifo;
    var s' := Apply(s, a);
    SumAfter(s, a, Ended);
    forall id: nat | id < |s'.jobs|
      ensures Job(id) in s'.submitted || BeingPut(s', id)
    {
      if a.Submit? && id == |s.jobs| {
        assert Puts(s'.putters[a.p], id);
      } else if Job(id) !in s.submitted {
        var p :| 0 <= p < |s.putters| && Puts(s.putters[p], id);
        assert a == PutPush(p) || Puts(s'.putters[p], id);
      }
    }
  }
}

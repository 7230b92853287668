/** The queue of queue.c and the pool of threadpool.c as a transition system: every lock, wait, signal, list
    operation and job is a step of its own, and steps of different threads interleave in any way. */
module PoolSteps {
  /** What is put in the queue: a job, known by the order of its submission, or the pool itself. */
  datatype Item = Job(id: nat) | Poison

  datatype JobState = Created | Running | Finished

  /** Where a pooled thread is in run_PooledThread_, yield_ThreadPool and take_Queue. */
  datatype Worker =
    | Entering            // about to lock the mutex
    | Taking              // has the mutex, about to take the front item
    | Asleep              // waits for the condition, without the mutex
    | Awakened            // about to lock the mutex again
    | Leaving(item: Item) // has the mutex and an item
    | Got(item: Item)     // back from take_Queue
    | Busy(id: nat)       // runs a job
    | Exited

  /** Where a thread is in put_Queue. */
  datatype Putter =
    | PutIdle
    | PutEntering(put: Item)
    | PutPushing(put: Item)
    | PutSignalling
    | PutLeaving

  datatype Thread = WorkerThread(i: nat) | PutterThread(p: nat)

  datatype Holder = Nobody | Held(thread: Thread)

  /** How far the owner of the pool is: putter 0 is its thread, in stopThreads_ThreadPool_. */
  datatype Phase = Serving | Stopping(left: nat) | Joining(next: nat) | Stopped

  datatype State = State(
    queue: seq<Item>,
    holder: Holder,
    workers: seq<Worker>,
    putters: seq<Putter>,
    phase: Phase,
    jobs: seq<JobState>,
    submitted: seq<Item>, // all that was ever put, in order
    taken: seq<Item>,     // all that was ever taken, in order
    runs: seq<nat>        // all jobs that were ever started, in order
  )

  datatype Action =
    | Submit(p: nat)                // run_ThreadPool is called
    | BeginStop
    | PutPoison
    | BeginJoin
    | Join
    | EndJoin
    | PutLock(p: nat)
    | PutPush(p: nat)
    | PutSignal(p: nat, woken: nat) // `woken` is nobody when no worker sleeps
    | PutUnlock(p: nat)
    | Lock(i: nat)
    | Take(i: nat)
    | Wait(i: nat)
    | Unlock(i: nat)
    | Start(i: nat)
    | Finish(i: nat)
    | Exit(i: nat)
    | WakeUp(i: nat)                // a spurious wake-up

  /** The pool has at least one thread (threadpool.c, line 66). */
  predicate Init(s: State) {
    && |s.workers| >= 1 && (forall i :: 0 <= i < |s.workers| ==> s.workers[i] == Entering)
    && |s.putters| >= 1 && (forall p :: 0 <= p < |s.putters| ==> s.putters[p] == PutIdle)
    && s.queue == [] && s.holder == Nobody && s.phase == Serving
    && s.jobs == [] && s.submitted == [] && s.taken == [] && s.runs == []
  }

  predicate Enabled(s: State, a: Action) {
    match a
    case Submit(p) => s.phase.Serving? && 0 < p < |s.putters| && s.putters[p].PutIdle?
    // Nothing is submitted any more once the pool is being stopped.
    case BeginStop => s.phase.Serving? && forall p :: 0 <= p < |s.putters| ==> s.putters[p].PutIdle?
    case PutPoison => s.phase.Stopping? && s.phase.left > 0 && |s.putters| > 0 && s.putters[0].PutIdle?
    case BeginJoin => s.phase.Stopping? && s.phase.left == 0 && |s.putters| > 0 && s.putters[0].PutIdle?
    case Join => s.phase.Joining? && s.phase.next < |s.workers| && s.workers[s.phase.next].Exited?
    case EndJoin => s.phase.Joining? && s.phase.next == |s.workers|
    case PutLock(p) => p < |s.putters| && s.putters[p].PutEntering? && s.holder == Nobody
    case PutPush(p) => p < |s.putters| && s.putters[p].PutPushing?
    case PutSignal(p, j) =>
      && p < |s.putters| && s.putters[p].PutSignalling?
      && if j < |s.workers| then s.workers[j].Asleep?
         else forall i :: 0 <= i < |s.workers| ==> !s.workers[i].Asleep?
    case PutUnlock(p) => p < |s.putters| && s.putters[p].PutLeaving?
    case Lock(i) => i < |s.workers| && (s.workers[i].Entering? || s.workers[i].Awakened?) && s.holder == Nobody
    case Take(i) => i < |s.workers| && s.workers[i].Taking? && s.queue != []
    case Wait(i) => i < |s.workers| && s.workers[i].Taking? && s.queue == []
    case Unlock(i) => i < |s.workers| && s.workers[i].Leaving?
    case Start(i) =>
      i < |s.workers| && s.workers[i].Got? && s.workers[i].item.Job? && s.workers[i].item.id < |s.jobs|
    case Finish(i) => i < |s.workers| && s.workers[i].Busy? && s.workers[i].id < |s.jobs|
    case Exit(i) => i < |s.workers| && s.workers[i] == Got(Poison)
    case WakeUp(i) => i < |s.workers| && s.workers[i].Asleep?
  }

  function SetWorker(s: State, i: nat, w: Worker): State
    requires i < |s.workers|
  {
    s.(workers := s.workers[i := w])
  }

  function SetPutter(s: State, p: nat, w: Putter): State
    requires p < |s.putters|
  {
    s.(putters := s.putters[p := w])
  }

  function Apply(s: State, a: Action): State
    requires Enabled(s, a)
  {
    match a
    case Submit(p) => SetPutter(s, p, PutEntering(Job(|s.jobs|))).(jobs := s.jobs + [Created])
    case BeginStop => s.(phase := Stopping(|s.workers|))
    case PutPoison => SetPutter(s, 0, PutEntering(Poison)).(phase := Stopping(s.phase.left - 1))
    case BeginJoin => s.(phase := Joining(0))
    case Join => s.(phase := Joining(s.phase.next + 1))
    case EndJoin => s.(phase := Stopped)
    case PutLock(p) => SetPutter(s, p, PutPushing(s.putters[p].put)).(holder := Held(PutterThread(p)))
    case PutPush(p) =>
      SetPutter(s, p, PutSignalling).(
        queue := s.queue + [s.putters[p].put], submitted := s.submitted + [s.putters[p].put])
    case PutSignal(p, j) =>
      var t := SetPutter(s, p, PutLeaving);
      if j < |s.workers| then SetWorker(t, j, Awakened) else t
    case PutUnlock(p) => SetPutter(s, p, PutIdle).(holder := Nobody)
    case Lock(i) => SetWorker(s, i, Taking).(holder := Held(WorkerThread(i)))
    case Take(i) =>
      SetWorker(s, i, Leaving(s.queue[0])).(queue := s.queue[1..], taken := s.taken + [s.queue[0]])
    case Wait(i) => SetWorker(s, i, Asleep).(holder := Nobody)
    case Unlock(i) => SetWorker(s, i, Got(s.workers[i].item)).(holder := Nobody)
    case Start(i) =>
      var id := s.workers[i].item.id;
      SetWorker(s, i, Busy(id)).(jobs := s.jobs[id := Running], runs := s.runs + [id])
    case Finish(i) => SetWorker(s, i, Entering).(jobs := s.jobs[s.workers[i].id := Finished])
    case Exit(i) => SetWorker(s, i, Exited)
    case WakeUp(i) => SetWorker(s, i, Awakened)
  }

  ghost predicate Step(s: State, s': State) {
    exists a :: Enabled(s, a) && s' == Apply(s, a)
  }

  /** Everything that can happen to a pool, from the start. */
  ghost predicate Run(r: seq<State>) {
    r != [] && Init(r[0]) && forall k :: 0 <= k < |r| - 1 ==> Step(r[k], r[k + 1])
  }

  // ---- Sums over the threads ----

  function Sum(ws: seq<Worker>, f: Worker -> nat): nat {
    if ws == [] then 0 else f(ws[0]) + Sum(ws[1..], f)
  }

  lemma {:induction false} SumUpdate(ws: seq<Worker>, i: nat, w: Worker, f: Worker -> nat)
    requires i < |ws|
    ensures Sum(ws[i := w], f) + f(ws[i]) == Sum(ws, f) + f(w)
  {
    if i == 0 {
      assert ws[0 := w][1..] == ws[1..];
    } else {
      assert ws[i := w][1..] == ws[1..][i - 1 := w];
      SumUpdate(ws[1..], i - 1, w, f);
    }
  }

  /** A sum of numbers up to 1 is as large as it can be just when each of them is 1. */
  lemma {:induction false} SumFull(ws: seq<Worker>, f: Worker -> nat)
    requires forall w :: f(w) <= 1
    ensures Sum(ws, f) <= |ws|
    ensures Sum(ws, f) == |ws| <==> forall i :: 0 <= i < |ws| ==> f(ws[i]) == 1
  {
    if ws != [] {
      SumFull(ws[1..], f);
      assert forall i :: 0 <= i < |ws| - 1 ==> ws[1..][i] == ws[i + 1];
      if forall i :: 0 <= i < |ws| ==> f(ws[i]) == 1 {
        assert f(ws[0]) == 1;
        forall i | 0 <= i < |ws| - 1
          ensures f(ws[1..][i]) == 1
        {
          assert f(ws[i + 1]) == 1;
        }
      }
      if Sum(ws, f) == |ws| {
        forall i | 0 <= i < |ws|
          ensures f(ws[i]) == 1
        {
          if i > 0 {
            assert f(ws[1..][i - 1]) == 1;
          }
        }
      }
    }
  }

  lemma {:induction false} SumZero(ws: seq<Worker>, f: Worker -> nat)
    ensures Sum(ws, f) == 0 <==> forall i :: 0 <= i < |ws| ==> f(ws[i]) == 0
  {
    if ws != [] {
      SumZero(ws[1..], f);
      assert forall i :: 0 <= i < |ws| - 1 ==> ws[1..][i] == ws[i + 1];
      if forall i :: 0 <= i < |ws| ==> f(ws[i]) == 0 {
        forall i | 0 <= i < |ws| - 1
          ensures f(ws[1..][i]) == 0
        {
          assert f(ws[i + 1]) == 0;
        }
      }
      if Sum(ws, f) == 0 {
        forall i | 0 <= i < |ws|
          ensures f(ws[i]) == 0
        {
          if i > 0 {
            assert f(ws[1..][i - 1]) == 0;
          }
        }
      }
    }
  }
}

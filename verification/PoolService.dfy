/** What the pool does while it serves: every job that is handed to it gets done, and it takes any number of them. */
module PoolService {
  import opened PoolSteps
  import opened PoolInvariant
  import opened PoolShutdown

  function PuttersAhead(ps: seq<Putter>): nat {
    if ps == [] then 0 else PutterWeight(ps[0]) + PuttersAhead(ps[1..])
  }

  lemma {:induction false} PuttersUpdate(ps: seq<Putter>, p: nat, w: Putter)
    requires p < |ps|
    ensures PuttersAhead(ps[p := w]) + PutterWeight(ps[p]) == PuttersAhead(ps) + PutterWeight(w)
  {
    hide PutterWeight;
    if p == 0 {
      assert ps[0 := w][1..] == ps[1..];
    } else {
      assert ps[p := w][1..] == ps[1..][p - 1 := w];
      PuttersUpdate(ps[1..], p - 1, w);
    }
  }

  /** Bounds the steps to come when no further job is submitted. */
  function Pending(s: State): nat {
    Sum(s.workers, WorkerWeight) + 6 * |s.queue| + PuttersAhead(s.putters)
  }

  /** The putter that a step of a serving pool concerns */
  function Caller(a: Action): (p: int) {
    match a
    case Submit(p) => p
    case PutLock(p) => p
    case PutPush(p) => p
    case PutSignal(p, _) => p
    case PutUnlock(p) => p
    case _ => -1
  }

  lemma PuttersAfter(s: State, a: Action)
    requires Enabled(s, a) && s.phase.Serving?
    ensures var s', p := Apply(s, a), Caller(a);
            && |s'.putters| == |s.putters|
            && if p < 0 then s'.putters == s.putters
               else
                 && p < |s.putters|
                 && PuttersAhead(s'.putters) + PutterWeight(s.putters[p])
                 == PuttersAhead(s.putters) + PutterWeight(s'.putters[p])
  {
    hide PuttersAhead, PutterWeight;
    var p := Caller(a);
    if p >= 0 {
      PuttersUpdate(s.putters, p, Apply(s, a).putters[p]);
    }
  }

  /** Each step of the pool's own brings it nearer to having nothing to do. */
  lemma ServingStep(s: State, a: Action)
    requires Phased(s) && Enabled(s, a) && s.phase.Serving? && !a.BeginStop?
    ensures var s' := Apply(s, a);
            && s'.phase.Serving? && Phased(s') && |s'.putters| == |s.putters|
            && |s'.jobs| == |s.jobs| + (if a.Submit? then 1 else 0)
            && Pending(s') <= Pending(s) + (if a.Submit? then 12 else if a.WakeUp? then 2 else -1)
  {
    hide Sum, PuttersAhead;
    PhasedKept(s, a);
    SumAfter(s, a, WorkerWeight);
    PuttersAfter(s, a);
  }

  function Submits(acts: seq<Action>): nat {
    if acts == [] then 0 else (if acts[0].Submit? then 1 else 0) + Submits(acts[1..])
  }

  /** However the threads are scheduled, a serving pool takes no more than so many steps. */
  lemma {:induction false} ServingEnds(s: State, acts: seq<Action>)
    requires Inv(s) && s.phase.Serving? && Feasible(s, acts) && forall a :: a in acts ==> !a.BeginStop?
    ensures var e := After(s, acts);
            Inv(e) && e.phase.Serving? && |e.putters| == |s.putters| && |e.jobs| == |s.jobs| + Submits(acts)
    ensures |acts| <= Pending(s) + 3 * WakeUps(acts) + 13 * Submits(acts)
    decreases |acts|
  {
    hide Inv, Apply, Enabled, Pending;
    if acts != [] {
      InvPhased(s);
      InvKept(s, acts[0]);
      ServingStep(s, acts[0]);
      ServingEnds(Apply(s, acts[0]), acts[1..]);
    }
  }

  /** When no thread can go on, all jobs are done, and every caller is accepted. */
  lemma ServedWhenQuiet(s: State)
    requires Inv(s) && s.phase.Serving? && !CanMove(s)
    ensures forall id: nat :: id < |s.jobs| ==> s.jobs[id] == Finished
    ensures forall p :: 0 < p < |s.putters| ==> Enabled(s, Submit(p))
    ensures Enabled(s, BeginStop)
  {
    hide CanMove, NoneForgotten, OneEach, Jobs;
    if id: nat :| id < |s.jobs| && s.jobs[id] != Finished {
      NeverStuck(s);
    }
    if s.holder.Held? {
      HolderMoves(s);
    }
    forall p | 0 <= p < |s.putters|
      ensures s.putters[p].PutIdle?
    {
      if s.putters[p].PutEntering? {
        PutterMoves(s, p);
      }
      assert !PutterInside(s.putters[p]);
    }
  }

  lemma PutterMoves(s: State, p: nat)
    requires p < |s.putters| && s.putters[p].PutEntering? && s.holder == Nobody
    ensures CanMove(s)
  {
    assert Own(PutLock(p)) && Enabled(s, PutLock(p));
  }

  /** Left alone, the pool comes to that point. */
  lemma {:induction false} Settles(s: State) returns (acts: seq<Action>)
    requires Inv(s) && s.phase.Serving?
    ensures Feasible(s, acts) && (forall a :: a in acts ==> Own(a)) && !CanMove(After(s, acts))
    decreases Pending(s)
  {
    hide Inv, Apply, Enabled, Pending;
    acts := [];
    if CanMove(s) {
      var a :| Own(a) && Enabled(s, a);
      InvPhased(s);
      InvKept(s, a);
      ServingStep(s, a);
      var more := Settles(Apply(s, a));
      acts := [a] + more;
      assert acts[1..] == more;
    }
  }

  lemma {:induction false} FeasibleJoin(s: State, a: seq<Action>, b: seq<Action>)
    requires Feasible(s, a) && Feasible(After(s, a), b)
    ensures Feasible(s, a + b) && After(s, a + b) == After(After(s, a), b)
    decreases |a|
  {
    hide Enabled, Apply;
    if a == [] {
      assert a + b == b;
    } else {
      assert (a + b)[1..] == a[1..] + b;
      FeasibleJoin(Apply(s, a[0]), a[1..], b);
    }
  }

  lemma {:induction false} NoSubmits(acts: seq<Action>)
    requires forall a :: a in acts ==> Own(a)
    ensures Submits(acts) == 0
  {
    if acts != [] {
      assert Own(acts[0]);
      NoSubmits(acts[1..]);
    }
  }

  /** Whatever the pool is busy with, it takes a job from an idle caller and finishes it. */
  lemma TakesJob(s: State, p: nat) returns (acts: seq<Action>)
    requires Inv(s) && s.phase.Serving? && 0 < p < |s.putters| && s.putters[p].PutIdle?
    ensures Feasible(s, [Submit(p)] + acts) && forall a :: a in acts ==> Own(a)
    ensures var e := After(s, [Submit(p)] + acts);
            |e.jobs| == |s.jobs| + 1 && forall id: nat :: id < |e.jobs| ==> e.jobs[id] == Finished
  {
    hide Inv, CanMove, Pending, Apply;
    InvPhased(s);
    InvKept(s, Submit(p));
    ServingStep(s, Submit(p));
    acts := Settles(Apply(s, Submit(p)));
    NoSubmits(acts);
    ServingEnds(Apply(s, Submit(p)), acts);
    ServedWhenQuiet(After(Apply(s, Submit(p)), acts));
    assert ([Submit(p)] + acts)[1..] == acts;
  }

  /** A serving pool can be given any number of further jobs, and finishes them all. */
  lemma {:induction false} ServesAny(s: State, n: nat) returns (acts: seq<Action>)
    requires Inv(s) && s.phase.Serving? && |s.putters| > 1
    ensures Feasible(s, acts)
    ensures var e := After(s, acts);
            && Inv(e) && e.phase.Serving? && !CanMove(e) && |e.jobs| == |s.jobs| + n
            && forall id: nat :: id < |e.jobs| ==> e.jobs[id] == Finished
    decreases n
  {
    hide Inv, CanMove, Pending, Enabled, Apply;
    acts := Settles(s);
    NoSubmits(acts);
    ServingEnds(s, acts);
    var t := After(s, acts);
    ServedWhenQuiet(t);
    if n > 0 {
      InvPhased(t);
      InvKept(t, Submit(1));
      ServingStep(t, Submit(1));
      var more := ServesAny(Apply(t, Submit(1)), n - 1);
      assert ([Submit(1)] + more)[1..] == more;
      FeasibleJoin(s, acts, [Submit(1)] + more);
      acts := acts + ([Submit(1)] + more);
    }
  }

  /** Stopping, left alone, comes to its end. */
  lemma {:induction false} Stops(s: State) returns (acts: seq<Action>)
    requires Inv(s) && !s.phase.Serving?
    ensures Feasible(s, acts) && !CanMove(After(s, acts)) && |After(s, acts).jobs| == |s.jobs|
    decreases if s.phase.Serving? || !Phased(s) then 0 else Ahead(s)
  {
    hide Inv, Apply, Enabled, Ahead;
    acts := [];
    if CanMove(s) {
      var a :| Own(a) && Enabled(s, a);
      InvPhased(s);
      InvKept(s, a);
      StepsAhead(s, a);
      SameJobs(s, a);
      var more := Stops(Apply(s, a));
      acts := [a] + more;
      assert acts[1..] == more;
    }
  }

  lemma SameJobs(s: State, a: Action)
    requires Enabled(s, a) && !a.Submit?
    ensures |Apply(s, a).jobs| == |s.jobs|
  {
  }

  /** There are whole lives of a pool with any number of jobs. */
  lemma WholeLife(s: State, n: nat) returns (acts: seq<Action>)
    requires Init(s) && |s.putters| > 1
    ensures Feasible(s, acts)
    ensures var e := After(s, acts);
            && e.phase.Stopped? && AllExited(e) && e.queue == [] && |e.jobs| == n
            && forall id: nat :: id < n ==> e.jobs[id] == Finished && id in e.runs
  {
    hide Inv, CanMove, Enabled, Apply;
    InvAtStart(s);
    var serve := ServesAny(s, n);
    var t := After(s, serve);
    ServedWhenQuiet(t);
    InvKept(t, BeginStop);
    StopBegins(t);
    var stop := Stops(Apply(t, BeginStop));
    StoppedClean(Apply(t, BeginStop), stop);
    assert ([BeginStop] + stop)[1..] == stop;
    FeasibleJoin(s, serve, [BeginStop] + stop);
    acts := serve + ([BeginStop] + stop);
  }

  lemma StopBegins(s: State)
    requires Enabled(s, BeginStop)
    ensures !Apply(s, BeginStop).phase.Serving? && Apply(s, BeginStop).jobs == s.jobs
  {
  }
}

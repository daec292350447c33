/** A worker group used by one fiber, which makes each call after the one before has returned
    (src/Worker.cpp). */
module WorkerSequential {
  import opened FiberSync
  import opened WorkerGroups
  import opened WorkerProgress

  predicate IsCall(s: Step) {
    s.Call? || s.CallDrain?
  }

  ghost predicate AllReturned(g: Group) {
    forall c :: 0 <= c < |g.callers| ==> g.callers[c].phase.Returned?
  }

  ghost predicate Sequential(steps: seq<Step>, run: seq<Group>)
    requires |run| == |steps| + 1
  {
    forall i :: 0 <= i < |steps| && IsCall(steps[i]) ==> AllReturned(run[i])
  }

  /** Some run in which one fiber makes exactly these calls ends in this state. */
  ghost predicate ReachesAlone(batchSize: nat, calls: seq<Work>, g: Group) {
    exists steps: seq<Step>, run: seq<Group> ::
      IsRun(batchSize, steps, run) && Sequential(steps, run) && CallsOf(steps) == calls && run[|steps|] == g
  }

  /** One fiber that is to make these calls can get stuck at one of them. */
  ghost predicate CanStickAlone(batchSize: nat, calls: seq<Work>) {
    exists k: nat, g: Group :: k <= |calls| && ReachesAlone(batchSize, calls[..k], g) && Stuck(g)
  }

  /** A call that can never return: there are callbacks, and too many of them, or all permits are
      gone for good. */
  ghost predicate Hopeless(batchSize: nat, calls: seq<Work>, i: nat) {
    && i < |calls| && calls[i].Batch? && calls[i].cbs != []
    && (|calls[i].cbs| > batchSize || HasDrain(calls[..i]))
  }

  // ------------------------------------------------------------- what such runs keep

  /** Only the last caller may be under way, and it makes the last call. */
  ghost predicate OneAtATime(g: Group, calls: seq<Work>) {
    && (forall c :: 0 <= c < |g.callers| - 1 ==> g.callers[c].phase.Returned?)
    && (g.callers != [] && !g.callers[|g.callers| - 1].phase.Returned? ==>
          calls != [] && calls[|calls| - 1] == g.callers[|g.callers| - 1].work)
  }

  /** Callers keep what they want, and who has returned has returned. */
  ghost predicate Onward(cs: seq<Caller>, cs': seq<Caller>) {
    && |cs'| == |cs|
    && forall c :: 0 <= c < |cs| ==> cs'[c].work == cs[c].work && (cs[c].phase.Returned? ==> cs'[c].phase.Returned?)
  }

  lemma {:induction false} OneOnward(cs: seq<Caller>, c: nat, me: Caller)
    requires c < |cs| && me.work == cs[c].work && (cs[c].phase.Returned? ==> me.phase.Returned?)
    ensures Onward(cs, cs[c := me])
  {
  }

  lemma {:induction false} FinishOnward(g: Group, i: nat)
    requires Queued(g) && i < |g.running|
    ensures Onward(g.callers, Finished(g, i).callers)
  {
    if g.sem.waiters != [] {
      var c := g.sem.waiters[0];
      OneOnward(g.callers, c, g.callers[c].(phase := Resumed));
    }
  }

  lemma {:induction false} StepOnward(g: Group, s: Step)
    requires Inv(g) && Enabled(g, s) && !IsCall(s)
    ensures Onward(g.callers, Apply(g, s).callers)
  {
    if s.Finish? {
      FinishOnward(g, s.index);
    } else {
      OneOnward(g.callers, s.caller, Apply(g, s).callers[s.caller]);
    }
  }

  lemma {:induction false} CallOneAtATime(g: Group, s: Step, calls: seq<Work>)
    requires AllReturned(g) && IsCall(s)
    ensures OneAtATime(Apply(g, s), calls + CallOf(s))
  {
  }

  lemma {:induction false} OtherOneAtATime(g: Group, g': Group, calls: seq<Work>)
    requires OneAtATime(g, calls) && Onward(g.callers, g'.callers)
    ensures OneAtATime(g', calls)
  {
  }

  lemma {:induction false} StepOneAtATime(g: Group, s: Step, calls: seq<Work>)
    requires Inv(g) && OneAtATime(g, calls) && Enabled(g, s) && (IsCall(s) ==> AllReturned(g))
    ensures OneAtATime(Apply(g, s), calls + CallOf(s))
  {
    if IsCall(s) {
      CallOneAtATime(g, s, calls);
    } else {
      StepOnward(g, s);
      OtherOneAtATime(g, Apply(g, s), calls);
      assert calls + [] == calls;
    }
  }

  lemma {:induction false} RunOneAtATime(batchSize: nat, steps: seq<Step>, run: seq<Group>, n: nat)
    requires IsRun(batchSize, steps, run) && Sequential(steps, run) && n < |run|
    ensures OneAtATime(run[n], CallsOf(steps[..n]))
  {
    if n > 0 {
      RunOneAtATime(batchSize, steps, run, n - 1);
      RunKeeps(batchSize, steps, run, n - 1);
      StepOneAtATime(run[n - 1], steps[n - 1], CallsOf(steps[..n - 1]));
      CallsUpTo(steps, n);
    }
  }

  lemma {:induction false} AloneIs(batchSize: nat, calls: seq<Work>, g: Group)
    requires ReachesAlone(batchSize, calls, g)
    ensures Inv(g) && OneDrain(g) && Fed(g, calls) && OneAtATime(g, calls) && g.batchSize == batchSize
  {
    var steps, run :| IsRun(batchSize, steps, run) && Sequential(steps, run) && CallsOf(steps) == calls
        && run[|steps|] == g;
    assert Reaches(batchSize, calls, g);
    ReachedIs(batchSize, calls, g);
    assert steps[..|steps|] == steps;
    RunOneAtATime(batchSize, steps, run, |steps|);
  }

  lemma {:induction false} StepAlone(batchSize: nat, calls: seq<Work>, g: Group, s: Step)
    requires ReachesAlone(batchSize, calls, g) && Enabled(g, s) && (IsCall(s) ==> AllReturned(g))
    ensures ReachesAlone(batchSize, calls + CallOf(s), Apply(g, s))
  {
    var steps, run :| IsRun(batchSize, steps, run) && Sequential(steps, run) && CallsOf(steps) == calls
        && run[|steps|] == g;
    var g' := Apply(g, s);
    OneStepFurther(batchSize, steps, run, s, g');
    assert (steps + [s])[..|steps|] == steps;
    assert (run + [g'])[|steps + [s]|] == g';
    assert Sequential(steps + [s], run + [g']);
  }

  /** What is stuck is the last caller, at a call that is hopeless. */
  lemma {:induction false} StuckAlone(batchSize: nat, calls: seq<Work>, g: Group)
    requires ReachesAlone(batchSize, calls, g) && Stuck(g)
    ensures calls != [] && Hopeless(batchSize, calls, |calls| - 1)
  {
    AloneIs(batchSize, calls, g);
    BlockedMeansNoPermit(g);
    var c :| 0 <= c < |g.callers| && g.callers[c].phase.Blocked?;
    assert c == |g.callers| - 1;
    assert OnCourse(g, g.callers[c]);
    var front := calls[..|calls| - 1];
    FrontAndLast(calls);
    HasAppend(front, calls[|calls| - 1]);
    if g.callers[c].work.Drain? || !HasDrain(front) {
      forall e | 0 <= e < |g.callers| && e != c
        ensures Owned(g.callers[e]) == 0
      {
        assert g.callers[e].phase.Returned?;
        assert g.callers[e].work.Batch?;
      }
      OnlyOwner(g.callers, c);
    }
  }

  // ----------------------------------------------------------------- serving the calls

  ghost predicate Rested(g: Group) {
    g.running == [] && AllReturned(g) && g.sem.waiters == []
  }

  lemma {:induction false} RestedIs(g: Group)
    requires Inv(g) && OneDrain(g) && Rested(g)
    ensures g.sem == Sem(if g.finish then 0 else g.batchSize, [])
  {
    if g.finish {
      var d :| 0 <= d < |g.callers| && g.callers[d].work.Drain?;
      assert OnCourse(g, g.callers[d]);
      OwnsAPart(g.callers, d);
    } else {
      forall c | 0 <= c < |g.callers|
        ensures Owned(g.callers[c]) == 0
      {
        assert g.callers[c].phase.Returned? && g.callers[c].work.Batch?;
      }
      NoOwner(g.callers);
    }
  }

  /** The last caller makes call `w` and has taken this many permits; this many are left. */
  ghost predicate Serving(g: Group, w: Work, taken: nat, left: nat) {
    && g.callers != [] && g.callers[|g.callers| - 1] == Caller(w, taken, Ready)
    && (forall c :: 0 <= c < |g.callers| - 1 ==> g.callers[c].phase.Returned?)
    && g.sem == Sem(left, []) && g.running == []
  }

  function Needs(w: Work, batchSize: nat): nat {
    if w.Batch? then |w.cbs| else batchSize
  }

  lemma {:induction false} EnterServes(g: Group, w: Work)
    requires Rested(g) && !(w.Drain? && g.finish)
    ensures var s := if w.Batch? then Call(w.cbs) else CallDrain;
      Serving(Apply(g, s), w, 0, g.sem.count)
  {
  }

  lemma {:induction false} AcquireServes(g: Group, w: Work, taken: nat, left: nat)
    requires Serving(g, w, taken, left) && left > 0 && taken < Needs(w, g.batchSize)
    ensures var s := Acquire(|g.callers| - 1);
      Enabled(g, s) && Serving(Apply(g, s), w, taken + 1, left - 1) && Apply(g, s).batchSize == g.batchSize
  {
  }

  lemma {:induction false} Enter(batchSize: nat, calls: seq<Work>, g: Group, w: Work) returns (g': Group)
    requires ReachesAlone(batchSize, calls, g) && Rested(g) && !(w.Drain? && g.finish)
    ensures ReachesAlone(batchSize, calls + [w], g') && Serving(g', w, 0, g.sem.count)
  {
    var s := if w.Batch? then Call(w.cbs) else CallDrain;
    EnterServes(g, w);
    StepAlone(batchSize, calls, g, s);
    g' := Apply(g, s);
  }

  lemma {:induction false} TakeOne(batchSize: nat, calls: seq<Work>, g: Group, w: Work, taken: nat, left: nat)
      returns (g': Group)
    requires ReachesAlone(batchSize, calls, g) && Serving(g, w, taken, left)
    requires left > 0 && taken < Needs(w, batchSize)
    ensures ReachesAlone(batchSize, calls, g') && Serving(g', w, taken + 1, left - 1)
  {
    AloneIs(batchSize, calls, g);
    AcquireServes(g, w, taken, left);
    StepAlone(batchSize, calls, g, Acquire(|g.callers| - 1));
    assert calls + [] == calls;
    g' := Apply(g, Acquire(|g.callers| - 1));
  }

  /** The last caller takes `m` permits that are there. */
  lemma {:induction false} TakeMany(batchSize: nat, calls: seq<Work>, g: Group, w: Work, taken: nat, left: nat, m: nat)
      returns (g': Group)
    requires ReachesAlone(batchSize, calls, g) && Serving(g, w, taken, left)
    requires m <= left && taken + m <= Needs(w, batchSize)
    ensures ReachesAlone(batchSize, calls, g') && Serving(g', w, taken + m, left - m)
    decreases m
  {
    g' := g;
    if m > 0 {
      g' := TakeOne(batchSize, calls, g, w, taken, left);
      g' := TakeMany(batchSize, calls, g', w, taken + 1, left - 1, m - 1);
    }
  }

  /** The callers have returned, and their callbacks are in flight. */
  ghost predicate Served(g: Group) {
    AllReturned(g) && g.sem.waiters == []
  }

  lemma {:induction false} ReturnServed(g: Group, w: Work, left: nat)
    requires Serving(g, w, Needs(w, g.batchSize), left)
    ensures Enabled(g, Return(|g.callers| - 1)) && Served(Apply(g, Return(|g.callers| - 1)))
  {
  }

  lemma {:induction false} FinishServed(g: Group)
    requires Served(g) && g.running != []
    ensures Served(Apply(g, Finish(0))) && |Apply(g, Finish(0)).running| == |g.running| - 1
  {
  }

  lemma {:induction false} LetGo(batchSize: nat, calls: seq<Work>, g: Group, w: Work, left: nat) returns (g': Group)
    requires ReachesAlone(batchSize, calls, g) && Serving(g, w, Needs(w, batchSize), left)
    ensures ReachesAlone(batchSize, calls, g') && Served(g')
  {
    AloneIs(batchSize, calls, g);
    ReturnServed(g, w, left);
    StepAlone(batchSize, calls, g, Return(|g.callers| - 1));
    assert calls + [] == calls;
    g' := Apply(g, Return(|g.callers| - 1));
  }

  /** The callbacks end one after the other. */
  lemma {:induction false} FinishMany(batchSize: nat, calls: seq<Work>, g: Group) returns (g': Group)
    requires ReachesAlone(batchSize, calls, g) && Served(g)
    ensures ReachesAlone(batchSize, calls, g') && Rested(g')
    decreases |g.running|
  {
    g' := g;
    if g.running != [] {
      FinishServed(g);
      StepAlone(batchSize, calls, g, Finish(0));
      assert calls + [] == calls;
      g' := FinishMany(batchSize, calls, Apply(g, Finish(0)));
    }
  }

  /** A call that is not hopeless returns, and all its callbacks end. */
  lemma {:induction false} ServeOne(batchSize: nat, calls: seq<Work>, g: Group, w: Work) returns (g': Group)
    requires ReachesAlone(batchSize, calls, g) && Rested(g)
    requires w.Batch? && w.cbs != [] ==> |w.cbs| <= batchSize && !HasDrain(calls)
    ensures ReachesAlone(batchSize, calls + [w], g') && Rested(g')
  {
    AloneIs(batchSize, calls, g);
    RestedIs(g);
    if w.Drain? && g.finish {
      StepAlone(batchSize, calls, g, CallDrain);
      g' := g;
    } else {
      g' := Enter(batchSize, calls, g, w);
      g' := TakeMany(batchSize, calls + [w], g', w, 0, g.sem.count, Needs(w, batchSize));
      g' := LetGo(batchSize, calls + [w], g', w, g.sem.count - Needs(w, batchSize));
      g' := FinishMany(batchSize, calls + [w], g');
    }
  }

  lemma {:induction false} Serve(batchSize: nat, calls: seq<Work>, n: nat) returns (g: Group)
    requires n <= |calls| && forall i :: 0 <= i < n ==> !Hopeless(batchSize, calls, i)
    ensures ReachesAlone(batchSize, calls[..n], g) && Rested(g)
    decreases n
  {
    if n == 0 {
      g := WorkerGroups.Begin(batchSize);
      var none: seq<Step> := [];
      assert IsRun(batchSize, none, [g]) && Sequential(none, [g]) && [g][|none|] == g;
      assert CallsOf(none) == calls[..0];
    } else {
      var before := Serve(batchSize, calls, n - 1);
      assert !Hopeless(batchSize, calls, n - 1);
      g := ServeOne(batchSize, calls[..n - 1], before, calls[n - 1]);
      OneMoreCall(calls, n);
    }
  }

  lemma {:induction false} OneMoreCall(calls: seq<Work>, n: nat)
    requires 0 < n <= |calls|
    ensures calls[..n - 1] + [calls[n - 1]] == calls[..n]
  {
  }

  lemma {:induction false} ParkSticks(g: Group, w: Work, taken: nat)
    requires Serving(g, w, taken, 0) && taken < Needs(w, g.batchSize)
    ensures Enabled(g, Acquire(|g.callers| - 1)) && Stuck(Apply(g, Acquire(|g.callers| - 1)))
  {
    var g' := Apply(g, Acquire(|g.callers| - 1));
    assert g'.callers[|g.callers| - 1].phase.Blocked?;
  }

  lemma {:induction false} Park(batchSize: nat, calls: seq<Work>, g: Group, w: Work, taken: nat) returns (g': Group)
    requires ReachesAlone(batchSize, calls, g) && Serving(g, w, taken, 0) && taken < Needs(w, batchSize)
    ensures ReachesAlone(batchSize, calls, g') && Stuck(g')
  {
    AloneIs(batchSize, calls, g);
    ParkSticks(g, w, taken);
    StepAlone(batchSize, calls, g, Acquire(|g.callers| - 1));
    assert calls + [] == calls;
    g' := Apply(g, Acquire(|g.callers| - 1));
  }

  /** A hopeless call takes what there is and blocks. */
  lemma {:induction false} Blocks(batchSize: nat, calls: seq<Work>, g: Group, w: Work) returns (g': Group)
    requires ReachesAlone(batchSize, calls, g) && Rested(g)
    requires w.Batch? && w.cbs != [] && (|w.cbs| > batchSize || HasDrain(calls))
    ensures ReachesAlone(batchSize, calls + [w], g') && Stuck(g')
  {
    AloneIs(batchSize, calls, g);
    RestedIs(g);
    g' := Enter(batchSize, calls, g, w);
    g' := TakeMany(batchSize, calls + [w], g', w, 0, g.sem.count, g.sem.count);
    g' := Park(batchSize, calls + [w], g', w, g.sem.count);
  }

  lemma {:induction false} FirstHopeless(batchSize: nat, calls: seq<Work>, j: nat) returns (i: nat)
    requires Hopeless(batchSize, calls, j)
    ensures Hopeless(batchSize, calls, i) && forall k :: 0 <= k < i ==> !Hopeless(batchSize, calls, k)
  {
    i := 0;
    while !Hopeless(batchSize, calls, i)
      invariant i <= j && forall k :: 0 <= k < i ==> !Hopeless(batchSize, calls, k)
      decreases j - i
    {
      i := i + 1;
    }
  }

  /** One fiber on its own gets stuck if and only if one of its calls brings a batch that is longer
      than the group is wide, or brings any callback after a `waitAll`. */
  lemma {:induction false} StickAloneIff(batchSize: nat, calls: seq<Work>)
    ensures CanStickAlone(batchSize, calls) <==> exists i: nat :: Hopeless(batchSize, calls, i)
  {
    if CanStickAlone(batchSize, calls) {
      var k: nat, g: Group :| k <= |calls| && ReachesAlone(batchSize, calls[..k], g) && Stuck(g);
      StuckAlone(batchSize, calls[..k], g);
      assert calls[..k][..k - 1] == calls[..k - 1];
      assert Hopeless(batchSize, calls, k - 1);
    }
    if j: nat :| Hopeless(batchSize, calls, j) {
      var i := FirstHopeless(batchSize, calls, j);
      var g := Serve(batchSize, calls, i);
      g := Blocks(batchSize, calls[..i], g, calls[i]);
      OneMoreCall(calls, i + 1);
    }
  }
}

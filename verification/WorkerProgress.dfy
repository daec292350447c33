/** What the callers of a worker group can rely on (src/Worker.cpp): when a `waitAll` is a
    barrier, and which calls can block each other for good. */
module WorkerProgress {
  import opened Wrappers
  import opened FiberSync
  import opened WorkerGroups

  // ------------------------------------------------------------- who has been called

  function Works(cs: seq<Caller>): seq<Work> {
    seq(|cs|, i requires 0 <= i < |cs| => cs[i].work)
  }

  function CallOf(s: Step): seq<Work> {
    match s
    case Call(cbs) => [Batch(cbs)]
    case CallDrain => [Drain]
    case _ => []
  }

  /** The calls made in a run, in their order. */
  function CallsOf(steps: seq<Step>): seq<Work>
    decreases |steps|
  {
    if steps == [] then [] else CallsOf(steps[..|steps| - 1]) + CallOf(steps[|steps| - 1])
  }

  ghost predicate HasDrain(ws: seq<Work>) {
    exists i :: 0 <= i < |ws| && ws[i].Drain?
  }

  /** There is a callback to be scheduled. */
  ghost predicate HasWork(ws: seq<Work>) {
    exists i :: 0 <= i < |ws| && ws[i].Batch? && ws[i].cbs != []
  }

  /** The permits that a call can hold and still be waiting for one. */
  function Spare(w: Work): nat {
    if w.Batch? && w.cbs != [] then |w.cbs| - 1 else 0
  }

  function Slack(ws: seq<Work>): nat {
    if ws == [] then 0 else Spare(ws[0]) + Slack(ws[1..])
  }

  lemma {:induction false} SlackAppend(ws: seq<Work>, w: Work)
    ensures Slack(ws + [w]) == Slack(ws) + Spare(w)
  {
    if ws == [] {
      assert ws + [w] == [w] && [w][1..] == [];
    } else {
      assert (ws + [w])[1..] == ws[1..] + [w];
      SlackAppend(ws[1..], w);
    }
  }

  lemma {:induction false} WorksSame(cs: seq<Caller>, cs': seq<Caller>)
    requires |cs'| == |cs| && forall c :: 0 <= c < |cs| ==> cs'[c].work == cs[c].work
    ensures Works(cs') == Works(cs)
  {
  }

  lemma {:induction false} WorksMore(cs: seq<Caller>, c: Caller)
    ensures Works(cs + [c]) == Works(cs) + [c.work]
  {
  }

  /** Apart from calls, a step leaves what the callers want as it is. */
  lemma {:induction false} StepWorks(g: Group, s: Step)
    requires Enabled(g, s)
    ensures var g' := Apply(g, s);
      && Works(g'.callers) == (if s.CallDrain? && g.finish then Works(g.callers) else Works(g.callers) + CallOf(s))
      && g'.finish == (g.finish || s.CallDrain?)
  {
    var g' := Apply(g, s);
    if s.Call? {
      WorksMore(g.callers, Caller(Batch(s.cbs), 0, Ready));
    } else if s.CallDrain? {
      WorksMore(g.callers, Caller(Drain, 0, Ready));
    } else {
      WorksSame(g.callers, g'.callers);
      assert Works(g.callers) + [] == Works(g.callers);
    }
  }

  /** One `waitAll` at most drains, and one does once the flag is set. */
  ghost predicate OneDrain(g: Group) {
    && (forall c, d :: 0 <= c < d < |g.callers| ==> !(g.callers[c].work.Drain? && g.callers[d].work.Drain?))
    && (g.finish <==> exists c :: 0 <= c < |g.callers| && g.callers[c].work.Drain?)
  }

  lemma {:induction false} StepOneDrain(g: Group, s: Step)
    requires OneDrain(g) && Enabled(g, s)
    ensures OneDrain(Apply(g, s))
  {
    var g' := Apply(g, s);
    StepWorks(g, s);
    var ws, ws' := Works(g.callers), Works(g'.callers);
    assert forall c :: 0 <= c < |ws| ==> g.callers[c].work == ws[c] == ws'[c];
    assert forall c :: 0 <= c < |ws'| ==> g'.callers[c].work == ws'[c];
    if g.finish {
      var c :| 0 <= c < |g.callers| && g.callers[c].work.Drain?;
      assert g'.callers[c].work.Drain?;
    } else if s.CallDrain? {
      assert g'.callers[|g.callers|].work.Drain?;
    }
  }

  lemma {:induction false} RunOneDrain(batchSize: nat, steps: seq<Step>, run: seq<Group>, n: nat)
    requires IsRun(batchSize, steps, run) && n < |run|
    ensures OneDrain(run[n])
  {
    if n > 0 {
      RunOneDrain(batchSize, steps, run, n - 1);
      StepOneDrain(run[n - 1], steps[n - 1]);
    }
  }

  /** The callers are those that the calls have brought, but for repeated `waitAll`s. */
  ghost predicate Fed(g: Group, calls: seq<Work>) {
    && Slack(Works(g.callers)) == Slack(calls)
    && (g.finish <==> HasDrain(calls))
    && (HasWork(Works(g.callers)) <==> HasWork(calls))
  }

  lemma {:induction false} HasAppend(ws: seq<Work>, w: Work)
    ensures HasDrain(ws + [w]) <==> HasDrain(ws) || w.Drain?
    ensures HasWork(ws + [w]) <==> HasWork(ws) || (w.Batch? && w.cbs != [])
  {
    var all := ws + [w];
    assert all[|ws|] == w;
    assert forall i :: 0 <= i < |ws| ==> all[i] == ws[i];
  }

  lemma {:induction false} StepFed(g: Group, s: Step, calls: seq<Work>)
    requires Fed(g, calls) && Enabled(g, s)
    ensures Fed(Apply(g, s), calls + CallOf(s))
  {
    StepWorks(g, s);
    if s.Call? || s.CallDrain? {
      var w := CallOf(s)[0];
      SlackAppend(calls, w);
      SlackAppend(Works(g.callers), w);
      HasAppend(calls, w);
      HasAppend(Works(g.callers), w);
    } else {
      assert calls + [] == calls && Works(g.callers) + [] == Works(g.callers);
    }
  }

  lemma {:induction false} RunFed(batchSize: nat, steps: seq<Step>, run: seq<Group>, n: nat)
    requires IsRun(batchSize, steps, run) && n < |run|
    ensures Fed(run[n], CallsOf(steps[..n]))
  {
    if n > 0 {
      RunFed(batchSize, steps, run, n - 1);
      StepFed(run[n - 1], steps[n - 1], CallsOf(steps[..n - 1]));
      CallsUpTo(steps, n);
    }
  }

  lemma {:induction false} CallsUpTo(steps: seq<Step>, n: nat)
    requires 0 < n <= |steps|
    ensures CallsOf(steps[..n]) == CallsOf(steps[..n - 1]) + CallOf(steps[n - 1])
  {
    assert steps[..n][..n - 1] == steps[..n - 1];
  }

  // ---------------------------------------------------------------------- barriers

  /** Every callback that ever got a permit has finished. */
  ghost predicate Quiet(g: Group) {
    g.running == [] && g.granted == g.finished
  }

  lemma {:induction false} OnlyOwner(cs: seq<Caller>, d: nat)
    requires d < |cs| && forall c :: 0 <= c < |cs| && c != d ==> Owned(cs[c]) == 0
    ensures Permits(cs) == Owned(cs[d])
  {
    if d == 0 {
      NoOwner(cs[1..]);
    } else {
      assert Owned(cs[0]) == 0;
      OnlyOwner(cs[1..], d - 1);
    }
  }

  lemma {:induction false} NoOwner(cs: seq<Caller>)
    requires forall c :: 0 <= c < |cs| ==> Owned(cs[c]) == 0
    ensures Permits(cs) == 0
  {
    if cs != [] {
      assert Owned(cs[0]) == 0;
      NoOwner(cs[1..]);
    }
  }

  lemma {:induction false} HeldPart(cs: seq<Caller>, c: nat)
    requires c < |cs|
    ensures HeldBy(cs[c]) <= Held(cs)
  {
    if c > 0 {
      HeldPart(cs[1..], c - 1);
    }
  }

  /** Everything has finished exactly when the draining caller and the semaphore have all permits. */
  lemma {:induction false} QuietIff(g: Group, d: nat)
    requires Inv(g) && OneDrain(g) && d < |g.callers| && g.callers[d].work.Drain?
    ensures Quiet(g) <==> g.sem.count + Owned(g.callers[d]) == g.batchSize
  {
    if Quiet(g) {
      assert multiset(g.running) + Held(g.callers) == multiset{};
      forall c | 0 <= c < |g.callers| && c != d
        ensures Owned(g.callers[c]) == 0
      {
        HeldPart(g.callers, c);
        assert OnCourse(g, g.callers[c]);
        var me := g.callers[c];
        assert me.work.Batch?;
        assert Owned(me) > 0 ==> HeldBy(me)[me.work.cbs[..Owned(me)][0]] > 0;
      }
      OnlyOwner(g.callers, d);
    }
    if g.sem.count + Owned(g.callers[d]) == g.batchSize {
      OwnsAPart(g.callers, d);
      NobodyHolds(g.callers, d);
    }
  }

  ghost predicate OwnsAll(g: Group, d: nat) {
    d < |g.callers| && g.callers[d].work.Drain? && Owned(g.callers[d]) == g.batchSize
  }

  lemma {:induction false} OwnsAllStays(g: Group, s: Step, d: nat)
    requires Inv(g) && OwnsAll(g, d) && Enabled(g, s)
    ensures OwnsAll(Apply(g, s), d)
  {
    OwnsAPart(g.callers, d);
    assert OnCourse(g, g.callers[d]);
  }

  lemma {:induction false} OwnsAllQuiet(g: Group, d: nat)
    requires Inv(g) && OwnsAll(g, d)
    ensures Quiet(g) && g.sem.count == 0
  {
    OwnsAPart(g.callers, d);
    NobodyHolds(g.callers, d);
  }

  /** Once the draining caller owns all permits, everything has finished, and stays so in every
      continuation: no other caller gets a permit. */
  lemma {:induction false} BarrierHolds(g: Group, steps: seq<Step>, run: seq<Group>, n: nat, d: nat)
    requires Inv(g) && OwnsAll(g, d) && IsPath(g, steps, run) && n < |run|
    ensures Inv(run[n]) && OwnsAll(run[n], d) && Quiet(run[n]) && run[n].granted == g.granted
  {
    if n > 0 {
      BarrierHolds(g, steps, run, n - 1, d);
      BarrierStep(run[n - 1], steps[n - 1], d);
    }
    OwnsAllQuiet(g, d);
  }

  lemma {:induction false} BarrierStep(g: Group, s: Step, d: nat)
    requires Inv(g) && OwnsAll(g, d) && Enabled(g, s)
    ensures var g' := Apply(g, s); Inv(g') && OwnsAll(g', d) && Quiet(g') && g'.granted == g.granted
  {
    StepKeeps(g, s);
    OwnsAllStays(g, s, d);
    OwnsAllQuiet(g, d);
    GrantsNothing(g, s);
    OwnsAllQuiet(Apply(g, s), d);
  }

  lemma {:induction false} GrantsNothing(g: Group, s: Step)
    requires Enabled(g, s) && g.running == [] && g.sem.count == 0
    ensures Apply(g, s).granted == g.granted
  {
  }

  /** In every continuation everything that got a permit has finished. */
  ghost predicate StaysQuiet(g: Group) {
    forall steps: seq<Step>, run: seq<Group> :: IsPath(g, steps, run) ==> Quiet(run[|steps|])
  }

  lemma {:induction false} QuietNow(g: Group)
    ensures StaysQuiet(g) ==> Quiet(g)
  {
    var none: seq<Step> := [];
    assert IsPath(g, none, [g]) && [g][|none|] == g;
  }

  /** A permit that is still free can go to a callback which has not finished. */
  lemma {:induction false} FreePermitIsTaken(g: Group)
    requires Inv(g) && g.sem.count > 0
    ensures !StaysQuiet(g)
  {
    if Quiet(g) {
      var me := Caller(Batch([7]), 0, Ready);
      var g1 := g.(callers := g.callers + [me]);
      var c := |g.callers|;
      var g2 := Acquired(g1, c);
      assert g1.callers[c] == me;
      assert g2.granted[7] == g.granted[7] + 1;
      assert IsPath(g, [Call([7]), Acquire(c)], [g, g1, g2]);
      assert !Quiet([g, g1, g2][|[Call([7]), Acquire(c)]|]);
    } else {
      QuietNow(g);
    }
  }

  /** A `waitAll` that finds the flag set returns at once and changes nothing.  It returns with
      everything finished if and only if all permits are free or with the caller that drains, and
      everything stays finished, whatever is called later, if and only if that caller owns them all. */
  lemma {:induction false} SecondWaitAllIff(batchSize: nat, steps: seq<Step>, run: seq<Group>, n: nat, d: nat)
    requires IsRun(batchSize, steps, run) && n < |run|
    requires d < |run[n].callers| && run[n].callers[d].work.Drain?
    ensures Apply(run[n], CallDrain) == run[n]
    ensures Quiet(run[n]) <==> run[n].sem.count + Owned(run[n].callers[d]) == batchSize
    ensures StaysQuiet(run[n]) <==> Owned(run[n].callers[d]) == batchSize
  {
    var g := run[n];
    RunKeeps(batchSize, steps, run, n);
    RunOneDrain(batchSize, steps, run, n);
    assert OnCourse(g, g.callers[d]);
    QuietIff(g, d);
    if OwnsAll(g, d) {
      forall more: seq<Step>, path: seq<Group> | IsPath(g, more, path)
        ensures Quiet(path[|more|])
      {
        BarrierHolds(g, more, path, |more|, d);
      }
    } else {
      if StaysQuiet(g) {
        QuietNow(g);
        FreePermitIsTaken(g);
      }
    }
  }

  /** The flag is set exactly when some caller drains, so one of the two lemmas applies. */
  lemma FlagMeansDrain(batchSize: nat, steps: seq<Step>, run: seq<Group>, n: nat)
    requires IsRun(batchSize, steps, run) && n < |run|
    ensures run[n].finish <==> exists d :: 0 <= d < |run[n].callers| && run[n].callers[d].work.Drain?
  {
    RunOneDrain(batchSize, steps, run, n);
  }

  lemma {:induction false} PrefixesGrow(wss: seq<seq<Work>>, m: nat, n: nat)
    requires m <= n < |wss| && forall i :: 0 < i < |wss| ==> wss[i - 1] <= wss[i]
    ensures wss[m] <= wss[n]
  {
    if m < n {
      PrefixesGrow(wss, m, n - 1);
    }
  }

  lemma {:induction false} WorkStays(batchSize: nat, steps: seq<Step>, run: seq<Group>, m: nat, n: nat, c: nat)
    requires IsRun(batchSize, steps, run) && m <= n < |run| && c < |run[m].callers|
    ensures c < |run[n].callers| && run[n].callers[c].work == run[m].callers[c].work
  {
    var wss := seq(|run|, i requires 0 <= i < |run| => Works(run[i].callers));
    forall i | 0 < i < |wss|
      ensures wss[i - 1] <= wss[i]
    {
      StepWorks(run[i - 1], steps[i - 1]);
    }
    PrefixesGrow(wss, m, n);
    assert wss[m][c] == wss[n][c];
  }

  /** A `waitAll` that finds the flag clear always is a barrier: once it has returned, everything
      has finished, and stays so in every continuation. */
  lemma {:induction false} FirstWaitAllIsABarrier(batchSize: nat, steps: seq<Step>, run: seq<Group>, m: nat, n: nat)
    requires IsRun(batchSize, steps, run) && m < n < |run|
    requires steps[m] == CallDrain && !run[m].finish
    ensures var d := |run[m].callers|;
      d < |run[n].callers| && (run[n].callers[d].phase.Returned? ==> StaysQuiet(run[n]))
  {
    var g, d := run[n], |run[m].callers|;
    assert run[m + 1].callers[d].work.Drain?;
    WorkStays(batchSize, steps, run, m + 1, n, d);
    RunKeeps(batchSize, steps, run, n);
    assert OnCourse(g, g.callers[d]);
    SecondWaitAllIff(batchSize, steps, run, n, d);
  }

  lemma {:induction false} OneInFlight() returns (steps: seq<Step>, run: seq<Group>)
    ensures IsRun(1, steps, run) && |run[|steps|].running| == 1 && !run[|steps|].finish
    ensures |run[|steps|].callers| == 1 && run[|steps|].sem == Sem(0, [])
  {
    steps, run := FillingUp(1, [7], 1);
    var g := Apply(run[|steps|], Return(0));
    OneStepFurther(1, steps, run, Return(0), g);
    steps, run := steps + [Return(0)], run + [g];
  }

  /** The flag lets a second `waitAll` return while a callback is still in flight. */
  lemma {:induction false} SecondWaitAllDoesNotWait()
    ensures exists steps: seq<Step>, run: seq<Group> ::
              && IsRun(1, steps, run) && |steps| > 0 && steps[|steps| - 1] == CallDrain
              && run[|steps|] == run[|steps| - 1]
              && |run[|steps|].running| == 1
  {
    var steps, run := OneInFlight();
    var g := Apply(run[|steps|], CallDrain);
    OneStepFurther(1, steps, run, CallDrain, g);
    OneStepFurther(1, steps + [CallDrain], run + [g], CallDrain, g);
    assert IsRun(1, steps + [CallDrain] + [CallDrain], run + [g] + [g]);
  }

  lemma {:induction false} LastPermitHandedOver() returns (steps: seq<Step>, run: seq<Group>)
    ensures IsRun(1, steps, run)
    ensures var g := run[|steps|]; |g.callers| == 2 && g.callers[1] == Caller(Drain, 0, Resumed)
  {
    steps, run := OneInFlight();
    var g0 := run[|steps|];
    RunKeeps(1, steps, run, |steps|);
    var g1 := Apply(g0, CallDrain);
    OneStepFurther(1, steps, run, CallDrain, g1);
    steps, run := steps + [CallDrain], run + [g1];
    var d := |g0.callers|;
    var g2 := Apply(g1, Acquire(d));
    OneStepFurther(1, steps, run, Acquire(d), g2);
    steps, run := steps + [Acquire(d)], run + [g2];
    var g3 := Apply(g2, Finish(0));
    OneStepFurther(1, steps, run, Finish(0), g3);
    steps, run := steps + [Finish(0)], run + [g3];
  }

  /** A permit that has been handed over counts although `wait` has not returned yet: here the
      draining caller has passed no wait at all, and a second `waitAll` is a barrier. */
  lemma {:induction false} HandedOverSuffices()
    ensures exists steps: seq<Step>, run: seq<Group>, d: nat ::
              && IsRun(1, steps, run) && d < |run[|steps|].callers| && run[|steps|].callers[d].work.Drain?
              && run[|steps|].callers[d].taken == 0 && StaysQuiet(run[|steps|])
  {
    var steps, run := LastPermitHandedOver();
    SecondWaitAllIff(1, steps, run, |steps|, 1);
    assert run[|steps|].callers[1].work.Drain? && run[|steps|].callers[1].taken == 0;
  }

  // --------------------------------------------------------------------- progress

  /** Nothing is in flight, somebody is blocked, and nobody can go on. */
  ghost predicate Stuck(g: Group) {
    && g.running == []
    && (exists c :: 0 <= c < |g.callers| && g.callers[c].phase.Blocked?)
    && forall c :: 0 <= c < |g.callers| ==> g.callers[c].phase.Blocked? || g.callers[c].phase.Returned?
  }

  /** Calls that come too late find no permit and never will. */
  ghost predicate Dead(g: Group) {
    && g.running == [] && g.sem.count == 0
    && forall c :: 0 <= c < |g.callers| ==>
         && !g.callers[c].phase.Resumed?
         && (g.callers[c].phase.Ready? ==> g.callers[c].taken == 0)
  }

  lemma {:induction false} DeadStays(g: Group, s: Step)
    requires Inv(g) && Dead(g) && Enabled(g, s)
    ensures Dead(Apply(g, s))
    ensures |g.callers| <= |Apply(g, s).callers|
    ensures forall c :: 0 <= c < |g.callers| && (g.callers[c].phase.Blocked? || g.callers[c].phase.Returned?) ==>
              Apply(g, s).callers[c] == g.callers[c]
  {
    if s.Return? {
      var me := g.callers[s.caller];
      assert me.work.Batch? ==> me.work.cbs == [];
    }
  }

  lemma {:induction false} DeadForGood(g: Group, steps: seq<Step>, run: seq<Group>, n: nat)
    requires Inv(g) && Dead(g) && Stuck(g) && IsPath(g, steps, run) && n < |run|
    ensures Dead(run[n]) && |g.callers| <= |run[n].callers| && run[n].callers[..|g.callers|] == g.callers
  {
    if n > 0 {
      DeadForGood(g, steps, run, n - 1);
      PathKeeps(g, steps, run, n - 1);
      DeadStays(run[n - 1], steps[n - 1]);
      forall c | 0 <= c < |g.callers|
        ensures run[n].callers[c] == g.callers[c]
      {
        assert run[n - 1].callers[..|g.callers|][c] == g.callers[c];
      }
    }
  }

  /** Stuck is stuck for good: in every continuation, later calls included, each caller that is
      blocked stays blocked, and no callback is ever in flight again. */
  lemma {:induction false} StuckForGood(batchSize: nat, steps: seq<Step>, run: seq<Group>, m: nat,
                                        more: seq<Step>, path: seq<Group>, n: nat)
    requires IsRun(batchSize, steps, run) && m < |run| && Stuck(run[m])
    requires IsPath(run[m], more, path) && n < |path|
    ensures |run[m].callers| <= |path[n].callers| && path[n].callers[..|run[m].callers|] == run[m].callers
    ensures path[n].running == []
  {
    RunKeeps(batchSize, steps, run, m);
    BlockedMeansNoPermit(run[m]);
    DeadForGood(run[m], more, path, n);
  }

  lemma {:induction false} BlockedMeansNoPermit(g: Group)
    requires Inv(g) && Stuck(g)
    ensures g.sem.count == 0 && Permits(g.callers) == g.batchSize && Dead(g)
  {
    var c :| 0 <= c < |g.callers| && g.callers[c].phase.Blocked?;
    assert c in g.sem.waiters;
  }

  /** Some run in which exactly these calls are made, in this order, ends in this state. */
  ghost predicate Reaches(batchSize: nat, calls: seq<Work>, g: Group) {
    exists steps: seq<Step>, run: seq<Group> ::
      IsRun(batchSize, steps, run) && CallsOf(steps) == calls && run[|steps|] == g
  }

  /** These calls can get the group stuck. */
  ghost predicate CanStick(batchSize: nat, calls: seq<Work>) {
    exists g :: Reaches(batchSize, calls, g) && Stuck(g)
  }

  lemma {:induction false} OneMore(batchSize: nat, calls: seq<Work>, g: Group, s: Step)
    requires Reaches(batchSize, calls, g) && Enabled(g, s)
    ensures Reaches(batchSize, calls + CallOf(s), Apply(g, s))
  {
    var steps, run :| IsRun(batchSize, steps, run) && CallsOf(steps) == calls && run[|steps|] == g;
    OneStepFurther(batchSize, steps, run, s, Apply(g, s));
    assert (steps + [s])[..|steps|] == steps;
    assert (run + [Apply(g, s)])[|steps + [s]|] == Apply(g, s);
  }

  lemma {:induction false} ReachedIs(batchSize: nat, calls: seq<Work>, g: Group)
    requires Reaches(batchSize, calls, g)
    ensures Inv(g) && OneDrain(g) && Fed(g, calls) && g.batchSize == batchSize
  {
    var steps, run :| IsRun(batchSize, steps, run) && CallsOf(steps) == calls && run[|steps|] == g;
    assert steps[..|steps|] == steps;
    RunKeeps(batchSize, steps, run, |steps|);
    RunOneDrain(batchSize, steps, run, |steps|);
    RunFed(batchSize, steps, run, |steps|);
  }

  lemma {:induction false} PermitsWithinSlack(cs: seq<Caller>)
    requires forall c :: 0 <= c < |cs| ==> Owned(cs[c]) <= Spare(cs[c].work)
    ensures Permits(cs) <= Slack(Works(cs))
  {
    if cs != [] {
      assert Works(cs)[1..] == Works(cs[1..]);
      assert Owned(cs[0]) <= Spare(cs[0].work);
      PermitsWithinSlack(cs[1..]);
    }
  }

  /** What a stuck group shows about its callers. */
  lemma {:induction false} StuckShows(g: Group)
    requires Inv(g) && OneDrain(g) && Stuck(g)
    ensures HasWork(Works(g.callers)) && (g.finish || g.batchSize <= Slack(Works(g.callers)))
  {
    BlockedMeansNoPermit(g);
    assert forall c :: 0 <= c < |g.callers| ==> OnCourse(g, g.callers[c]);
    var ws := Works(g.callers);
    if !g.finish {
      PermitsWithinSlack(g.callers);
    }
    var c :| 0 <= c < |g.callers| && g.callers[c].phase.Blocked?;
    if g.callers[c].work.Batch? {
      assert ws[c].cbs != [];
    } else {
      if forall e :: 0 <= e < |g.callers| && e != c ==> Owned(g.callers[e]) == 0 {
        OnlyOwner(g.callers, c);
      }
      var e :| 0 <= e < |g.callers| && e != c && Owned(g.callers[e]) > 0;
      assert ws[e].Batch? && ws[e].cbs != [];
    }
  }

  // --------------------------------------------------------------- a run that gets stuck

  /** How many permits each caller is given: with a `waitAll` about, all to that one. */
  function Quota(g: Group, c: Caller): nat {
    if g.finish then (if c.work.Drain? then g.batchSize else 0) else Spare(c.work)
  }

  function Quotas(g: Group, cs: seq<Caller>): nat {
    if cs == [] then 0 else Quota(g, cs[0]) + Quotas(g, cs[1..])
  }

  lemma {:induction false} QuotaPart(g: Group, cs: seq<Caller>, c: nat)
    requires c < |cs|
    ensures Quota(g, cs[c]) <= Quotas(g, cs)
  {
    if c > 0 {
      QuotaPart(g, cs[1..], c - 1);
    }
  }

  lemma {:induction false} QuotasAreSlack(g: Group, cs: seq<Caller>)
    requires !g.finish
    ensures Quotas(g, cs) == Slack(Works(cs))
  {
    if cs != [] {
      assert Works(cs)[1..] == Works(cs[1..]);
      QuotasAreSlack(g, cs[1..]);
    }
  }

  lemma {:induction false} QuotasSuffice(g: Group)
    requires OneDrain(g) && (g.finish || g.batchSize <= Slack(Works(g.callers)))
    ensures g.batchSize <= Quotas(g, g.callers)
  {
    if g.finish {
      var d :| 0 <= d < |g.callers| && g.callers[d].work.Drain?;
      QuotaPart(g, g.callers, d);
    } else {
      QuotasAreSlack(g, g.callers);
    }
  }

  lemma {:induction false} SomeoneBelow(g: Group, cs: seq<Caller>) returns (c: nat)
    requires Permits(cs) < Quotas(g, cs)
    ensures c < |cs| && Owned(cs[c]) < Quota(g, cs[c])
  {
    if Owned(cs[0]) < Quota(g, cs[0]) {
      c := 0;
    } else {
      c := SomeoneBelow(g, cs[1..]);
      c := c + 1;
    }
  }

  /** Nobody has got more than its quota, and only empty batches have been handed over. */
  ghost predicate Brewing(g: Group) {
    && g.running == []
    && forall c :: 0 <= c < |g.callers| ==>
         && !g.callers[c].phase.Resumed?
         && g.callers[c].taken <= Quota(g, g.callers[c])
         && (g.callers[c].phase.Returned? && g.callers[c].work.Batch? ==> g.callers[c].work.cbs == [])
  }

  ghost predicate AllReady(g: Group) {
    forall c :: 0 <= c < |g.callers| ==> g.callers[c].phase.Ready?
  }

  ghost predicate Entered(g: Group, batchSize: nat) {
    && Brewing(g) && AllReady(g) && g.sem == Sem(batchSize, []) && g.batchSize == batchSize
    && forall c :: 0 <= c < |g.callers| ==> g.callers[c].taken == 0
  }

  lemma {:induction false} EnterOne(g: Group, batchSize: nat, s: Step)
    requires Entered(g, batchSize) && (s.Call? || s.CallDrain?)
    ensures Entered(Apply(g, s), batchSize)
  {
  }

  lemma {:induction false} Outset(batchSize: nat) returns (g: Group)
    ensures Reaches(batchSize, [], g) && Entered(g, batchSize)
  {
    g := WorkerGroups.Begin(batchSize);
    var none: seq<Step> := [];
    assert IsRun(batchSize, none, [g]) && [g][|none|] == g;
  }

  lemma {:induction false} EnterMore(batchSize: nat, calls: seq<Work>, g: Group, w: Work) returns (g': Group)
    requires Reaches(batchSize, calls, g) && Entered(g, batchSize)
    ensures Reaches(batchSize, calls + [w], g') && Entered(g', batchSize)
  {
    var s := if w.Batch? then Call(w.cbs) else CallDrain;
    EnterOne(g, batchSize, s);
    OneMore(batchSize, calls, g, s);
    g' := Apply(g, s);
  }

  lemma {:induction false} FrontAndLast<T>(s: seq<T>)
    requires s != []
    ensures s[..|s| - 1] + [s[|s| - 1]] == s
  {
  }

  /** All the calls are made first. */
  lemma {:induction false} EnterAll(batchSize: nat, calls: seq<Work>) returns (g: Group)
    ensures Reaches(batchSize, calls, g) && Entered(g, batchSize)
    decreases |calls|
  {
    if calls == [] {
      g := Outset(batchSize);
    } else {
      var before := EnterAll(batchSize, calls[..|calls| - 1]);
      g := EnterMore(batchSize, calls[..|calls| - 1], before, calls[|calls| - 1]);
      FrontAndLast(calls);
    }
  }

  /** The permits are given out one by one, within the quotas. */
  lemma {:induction false} GiveOut(batchSize: nat, calls: seq<Work>, g: Group) returns (g': Group)
    requires Reaches(batchSize, calls, g) && Brewing(g) && AllReady(g) && g.batchSize <= Quotas(g, g.callers)
    ensures Reaches(batchSize, calls, g') && Brewing(g') && g'.sem.count == 0
    decreases g.sem.count
  {
    g' := g;
    if g.sem.count > 0 {
      g' := GiveOne(batchSize, calls, g);
      g' := GiveOut(batchSize, calls, g');
    }
  }

  lemma {:induction false} GiveOne(batchSize: nat, calls: seq<Work>, g: Group) returns (g': Group)
    requires Reaches(batchSize, calls, g) && Brewing(g) && AllReady(g) && g.batchSize <= Quotas(g, g.callers)
    requires g.sem.count > 0
    ensures Reaches(batchSize, calls, g') && Brewing(g') && AllReady(g') && g'.batchSize <= Quotas(g', g'.callers)
    ensures g'.sem.count == g.sem.count - 1
  {
    ReachedIs(batchSize, calls, g);
    var c := SomeoneBelow(g, g.callers);
    OneMore(batchSize, calls, g, Acquire(c));
    assert calls + [] == calls;
    g' := Apply(g, Acquire(c));
    SameQuotas(g, g', g.callers, g'.callers);
  }

  lemma {:induction false} SameQuotas(g: Group, g': Group, cs: seq<Caller>, cs': seq<Caller>)
    requires g'.finish == g.finish && g'.batchSize == g.batchSize && |cs'| == |cs|
    requires forall c :: 0 <= c < |cs| ==> cs'[c].work == cs[c].work
    ensures Quotas(g', cs') == Quotas(g, cs)
  {
    if cs != [] {
      assert cs'[0].work == cs[0].work;
      SameQuotas(g, g', cs[1..], cs'[1..]);
    }
  }

  /** The first `k` callers have nothing left to try. */
  ghost predicate NoneReady(g: Group, k: nat) {
    k <= |g.callers| && forall c :: 0 <= c < k ==> !g.callers[c].phase.Ready?
  }

  /** Without a permit left, each caller from `k` on leaves if it has nothing to wait for, and
      blocks otherwise. */
  lemma {:induction false} EachBlocks(batchSize: nat, calls: seq<Work>, g: Group, k: nat) returns (g': Group)
    requires Reaches(batchSize, calls, g) && k <= |g.callers| && Brewing(g) && g.sem.count == 0
    requires NoneReady(g, k)
    ensures Reaches(batchSize, calls, g') && Brewing(g') && NoneReady(g', |g'.callers|)
    decreases |g.callers| - k
  {
    g' := g;
    if k < |g.callers| {
      g' := OneBlocks(batchSize, calls, g, k);
      g' := EachBlocks(batchSize, calls, g', k + 1);
    }
  }

  lemma {:induction false} OneBlocks(batchSize: nat, calls: seq<Work>, g: Group, k: nat) returns (g': Group)
    requires Reaches(batchSize, calls, g) && Brewing(g) && g.sem.count == 0
    requires k < |g.callers| && NoneReady(g, k)
    ensures Reaches(batchSize, calls, g') && Brewing(g') && g'.sem.count == 0
    ensures |g'.callers| == |g.callers| && NoneReady(g', k + 1)
  {
    g' := g;
    if g.callers[k].phase.Ready? {
      ReachedIs(batchSize, calls, g);
      assert OnCourse(g, g.callers[k]);
      var s := if g.callers[k].taken < Goal(g, g.callers[k]) then Acquire(k) else Return(k);
      OneMore(batchSize, calls, g, s);
      assert calls + [] == calls;
      g' := Apply(g, s);
    }
  }

  lemma {:induction false} GetsStuck(batchSize: nat, calls: seq<Work>)
    requires HasWork(calls) && (HasDrain(calls) || batchSize <= Slack(calls))
    ensures CanStick(batchSize, calls)
  {
    var g := EnterAll(batchSize, calls);
    ReachedIs(batchSize, calls, g);
    QuotasSuffice(g);
    g := GiveOut(batchSize, calls, g);
    g := EachBlocks(batchSize, calls, g, 0);
    ReachedIs(batchSize, calls, g);
    var c :| 0 <= c < |Works(g.callers)| && Works(g.callers)[c].Batch? && Works(g.callers)[c].cbs != [];
    assert g.callers[c].phase.Blocked?;
    assert Stuck(g);
  }

  /** Which calls can get a group stuck: if and only if there is a callback to be scheduled, and
      either `waitAll` is among the calls or the batches can hold all permits while each still
      waits for one. */
  lemma {:induction false} StickIff(batchSize: nat, calls: seq<Work>)
    ensures CanStick(batchSize, calls) <==>
            HasWork(calls) && (HasDrain(calls) || batchSize <= Slack(calls))
  {
    if CanStick(batchSize, calls) {
      var g :| Reaches(batchSize, calls, g) && Stuck(g);
      ReachedIs(batchSize, calls, g);
      StuckShows(g);
    }
    if HasWork(calls) && (HasDrain(calls) || batchSize <= Slack(calls)) {
      GetsStuck(batchSize, calls);
    }
  }

  /** Two batches can block each other exactly when all but one of the callbacks of each, taken
      together, use up the width; so batches that fit one at a time can. */
  lemma {:induction false} TwoBatchesDeadlock(batchSize: nat, a: seq<Callback>, b: seq<Callback>)
    requires a != [] && b != []
    ensures CanStick(batchSize, [Batch(a), Batch(b)]) <==> |a| + |b| >= batchSize + 2
  {
    var calls := [Batch(a), Batch(b)];
    StickIff(batchSize, calls);
    assert calls[0].Batch? && calls[0].cbs != [];
    assert calls == [] + [Batch(a)] + [Batch(b)];
    SlackAppend([], Batch(a));
    SlackAppend([] + [Batch(a)], Batch(b));
    assert forall i :: 0 <= i < |calls| ==> calls[i].Batch?;
  }

  lemma {:induction false} SinglesHaveNoSlack(calls: seq<Work>)
    requires forall i :: 0 <= i < |calls| ==> calls[i].Batch? && |calls[i].cbs| <= 1
    ensures Slack(calls) == 0
  {
    if calls != [] {
      assert |calls[0].cbs| <= 1;
      SinglesHaveNoSlack(calls[1..]);
    }
  }

  lemma {:induction false} SingleCalls(steps: seq<Step>)
    requires forall i :: 0 <= i < |steps| ==> (steps[i].Call? ==> |steps[i].cbs| <= 1) && !steps[i].CallDrain?
    ensures forall i :: 0 <= i < |CallsOf(steps)| ==> CallsOf(steps)[i].Batch? && |CallsOf(steps)[i].cbs| <= 1
    decreases |steps|
  {
    if steps != [] {
      SingleCalls(steps[..|steps| - 1]);
    }
  }

  /** With callbacks scheduled one at a time and nobody draining, a group of positive width
      never gets stuck. */
  lemma {:induction false} SinglesNeverStick(batchSize: nat, steps: seq<Step>, run: seq<Group>, n: nat)
    requires IsRun(batchSize, steps, run) && n < |run| && batchSize > 0
    requires forall i :: 0 <= i < |steps| ==> (steps[i].Call? ==> |steps[i].cbs| <= 1) && !steps[i].CallDrain?
    ensures !Stuck(run[n])
  {
    var calls := CallsOf(steps[..n]);
    SingleCalls(steps[..n]);
    SinglesHaveNoSlack(calls);
    StickIff(batchSize, calls);
    var before, upTo := steps[..n], run[..n + 1];
    assert IsRun(batchSize, before, upTo) && upTo[|before|] == run[n];
    assert Reaches(batchSize, calls, run[n]);
  }
}

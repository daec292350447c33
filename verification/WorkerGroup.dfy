/** Worker groups over a fiber semaphore (src/Worker.cpp).

    The fibers inside `schedule` and `waitAll` are callers; each is somewhere in its loop of
    semaphore waits.  A step is one critical section of the semaphore, one hand-over to the
    scheduler, or one return.  A single `schedule` is a batch of one callback. */
module WorkerGroups {
  import opened Wrappers
  import opened FiberSync
  import opened Multisets

  type Callback = nat

  datatype Work = Batch(cbs: seq<Callback>) | Drain

  /** Resumed: a notification has handed over a permit, and `wait` is yet to return. */
  datatype Phase = Ready | Blocked | Resumed | Returned

  datatype Caller = Caller(work: Work, taken: nat, phase: Phase)

  /** `granted` and `finished` list the callbacks that ever got a permit, or ended. */
  datatype Group = Group(
    batchSize: nat, sem: Sem<nat>, finish: bool, callers: seq<Caller>, running: seq<Callback>,
    granted: multiset<Callback>, finished: multiset<Callback>)

  function Begin(batchSize: nat): Group {
    Group(batchSize, Sem(batchSize, []), false, [], [], multiset{}, multiset{})
  }

  function Goal(g: Group, c: Caller): nat {
    if c.work.Batch? then |c.work.cbs| else g.batchSize
  }

  datatype Step =
    | Call(cbs: seq<Callback>)   // schedule is entered
    | CallDrain                  // waitAll is entered
    | Acquire(caller: nat)       // one wait
    | Resume(caller: nat)        // the wait of a woken fiber returns
    | Return(caller: nat)        // the loop is over: hand over the batch, or leave waitAll
    | Finish(index: nat)         // doWork: the callback ends and its permit is given back

  predicate Enabled(g: Group, s: Step) {
    match s
    case Call(_) => true
    case CallDrain => true
    case Acquire(c) => c < |g.callers| && g.callers[c].phase.Ready? && g.callers[c].taken < Goal(g, g.callers[c])
    case Resume(c) => c < |g.callers| && g.callers[c].phase.Resumed?
    case Return(c) => c < |g.callers| && g.callers[c].phase.Ready? && g.callers[c].taken == Goal(g, g.callers[c])
    case Finish(i) => i < |g.running|
  }

  /** The callback a caller is getting its next permit for. */
  function NextWork(c: Caller): multiset<Callback> {
    if c.work.Batch? && c.taken < |c.work.cbs| then multiset{c.work.cbs[c.taken]} else multiset{}
  }

  function Acquired(g: Group, c: nat): Group
    requires c < |g.callers|
  {
    var me := g.callers[c];
    match AfterWait(g.sem, c)
    case Granted(sem) =>
      g.(sem := sem, callers := g.callers[c := me.(taken := me.taken + 1)], granted := g.granted + NextWork(me))
    case Parked(sem) =>
      g.(sem := sem, callers := g.callers[c := me.(phase := Blocked)])
  }

  function Returning(g: Group, c: nat): Group
    requires c < |g.callers|
  {
    var me := g.callers[c];
    g.(callers := g.callers[c := me.(phase := Returned)],
    running := g.running + if me.work.Batch? then me.work.cbs else [])
  }

  function Finished(g: Group, i: nat): Group
    requires i < |g.running|
  {
    var g' := g.(running := g.running[..i] + g.running[i + 1..], finished := g.finished + multiset{g.running[i]});
    var (sem, next) := AfterNotify(g.sem);
    if next.Some? && next.value < |g.callers| then
      var c := g.callers[next.value];
      g'.(sem := sem, callers := g.callers[next.value := c.(phase := Resumed)], granted := g.granted + NextWork(c))
    else g'.(sem := sem)
  }

  /** A second `waitAll` finds the group finished and returns at once. */
  function Apply(g: Group, s: Step): Group
    requires Enabled(g, s)
  {
    match s
    case Call(cbs) => g.(callers := g.callers + [Caller(Batch(cbs), 0, Ready)])
    case CallDrain => if g.finish then g else g.(finish := true, callers := g.callers + [Caller(Drain, 0, Ready)])
    case Acquire(c) => Acquired(g, c)
    case Resume(c) => g.(callers := g.callers[c := g.callers[c].(taken := g.callers[c].taken + 1, phase := Ready)])
    case Return(c) => Returning(g, c)
    case Finish(i) => Finished(g, i)
  }

  /** `run[i]` is the state before `steps[i]`. */
  ghost predicate IsPath(g: Group, steps: seq<Step>, run: seq<Group>) {
    && |run| == |steps| + 1 && run[0] == g
    && forall i :: 0 <= i < |steps| ==> Enabled(run[i], steps[i]) && run[i + 1] == Apply(run[i], steps[i])
  }

  ghost predicate IsRun(batchSize: nat, steps: seq<Step>, run: seq<Group>) {
    IsPath(Begin(batchSize), steps, run)
  }

  // ---------------------------------------------------------- permits in hand

  /** Permits a caller has in hand; a batch passes its permits on when it is handed over. */
  function Owned(c: Caller): nat {
    if c.phase.Returned? && c.work.Batch? then 0
    else c.taken + if c.phase.Resumed? then 1 else 0
  }

  function Permits(cs: seq<Caller>): nat {
    if cs == [] then 0 else Owned(cs[0]) + Permits(cs[1..])
  }

  /** The callbacks a caller has permits for but has not handed over. */
  function HeldBy(c: Caller): multiset<Callback> {
    if c.work.Batch? && Owned(c) <= |c.work.cbs| then multiset(c.work.cbs[..Owned(c)]) else multiset{}
  }

  function Held(cs: seq<Caller>): multiset<Callback> {
    if cs == [] then multiset{} else HeldBy(cs[0]) + Held(cs[1..])
  }

  lemma {:induction false} PermitsMove(cs: seq<Caller>, i: nat, c: Caller)
    requires i < |cs|
    ensures Permits(cs[i := c]) + Owned(cs[i]) == Permits(cs) + Owned(c)
  {
    if i == 0 {
      assert cs[i := c][1..] == cs[1..];
    } else {
      assert cs[i := c][1..] == cs[1..][i - 1 := c];
      PermitsMove(cs[1..], i - 1, c);
    }
  }

  lemma {:induction false} HeldMove(cs: seq<Caller>, i: nat, c: Caller)
    requires i < |cs|
    ensures Held(cs[i := c]) + HeldBy(cs[i]) == Held(cs) + HeldBy(c)
  {
    if i == 0 {
      assert cs[i := c][1..] == cs[1..];
    } else {
      assert cs[i := c][1..] == cs[1..][i - 1 := c];
      HeldMove(cs[1..], i - 1, c);
      Swapped(Held(cs[1..][i - 1 := c]), Held(cs[1..]), HeldBy(cs[i]), HeldBy(c), HeldBy(cs[0]));
    }
  }

  lemma {:induction false} OneMoreCaller(cs: seq<Caller>, c: Caller)
    ensures Permits(cs + [c]) == Permits(cs) + Owned(c)
    ensures Held(cs + [c]) == Held(cs) + HeldBy(c)
  {
    if cs == [] {
      assert cs + [c] == [c] && [c][1..] == [];
    } else {
      assert (cs + [c])[1..] == cs[1..] + [c];
      OneMoreCaller(cs[1..], c);
    }
  }

  lemma {:induction false} OwnsAPart(cs: seq<Caller>, i: nat)
    requires i < |cs|
    ensures Owned(cs[i]) <= Permits(cs)
  {
    if i > 0 {
      OwnsAPart(cs[1..], i - 1);
    }
  }

  lemma {:induction false} TwoOwnersOwnBoth(cs: seq<Caller>, i: nat, j: nat)
    requires i < |cs| && j < |cs| && i != j
    ensures Owned(cs[i]) + Owned(cs[j]) <= Permits(cs)
  {
    if i == 0 {
      OwnsAPart(cs[1..], j - 1);
    } else if j == 0 {
      OwnsAPart(cs[1..], i - 1);
    } else {
      TwoOwnersOwnBoth(cs[1..], i - 1, j - 1);
    }
  }

  /** The queue of the semaphore is exactly the blocked callers, each once. */
  ghost predicate Queued(g: Group) {
    && (forall i :: 0 <= i < |g.sem.waiters| ==>
          g.sem.waiters[i] < |g.callers| && g.callers[g.sem.waiters[i]].phase.Blocked?)
    && (forall i, j :: 0 <= i < j < |g.sem.waiters| ==> g.sem.waiters[i] != g.sem.waiters[j])
    && (forall c :: 0 <= c < |g.callers| && g.callers[c].phase.Blocked? ==> c in g.sem.waiters)
  }

  ghost predicate OnCourse(g: Group, c: Caller) {
    && Owned(c) <= Goal(g, c)
    && (c.phase.Blocked? ==> c.taken < Goal(g, c))
    && (c.work.Drain? ==> g.finish && (c.phase.Returned? ==> c.taken == g.batchSize))
  }

  ghost predicate Orderly(g: Group) {
    && Tight(g.sem) && Queued(g)
    && forall c :: 0 <= c < |g.callers| ==> OnCourse(g, g.callers[c])
  }

  ghost predicate Conserved(g: Group) {
    && g.sem.count + Permits(g.callers) + |g.running| == g.batchSize
    && g.granted == g.finished + multiset(g.running) + Held(g.callers)
  }

  ghost predicate Inv(g: Group) {
    Orderly(g) && Conserved(g)
  }

  lemma CallKeeps(g: Group, work: Work, g': Group)
    requires Inv(g)
    requires g' == g.(finish := g.finish || work.Drain?, callers := g.callers + [Caller(work, 0, Ready)])
    ensures Inv(g')
  {
    CallOrderly(g, work, g');
    OneMoreCaller(g.callers, Caller(work, 0, Ready));
  }

  lemma CallOrderly(g: Group, work: Work, g': Group)
    requires Orderly(g)
    requires g' == g.(finish := g.finish || work.Drain?, callers := g.callers + [Caller(work, 0, Ready)])
    ensures Orderly(g')
  {
    forall c | 0 <= c < |g.callers|
      ensures OnCourse(g', g'.callers[c])
    {
      assert OnCourse(g, g.callers[c]);
    }
  }

  /** One caller changes hands: what it gains is granted, what it loses goes on running. */
  lemma StaysConserved(g: Group, g': Group, c: nat, more: multiset<Callback>, out: seq<Callback>)
    requires Conserved(g) && c < |g.callers| && g'.batchSize == g.batchSize && g'.finished == g.finished
    requires |g'.callers| == |g.callers| && g'.callers == g.callers[c := g'.callers[c]]
    requires g'.running == g.running + out && g'.granted == g.granted + more
    requires HeldBy(g'.callers[c]) + multiset(out) == HeldBy(g.callers[c]) + more
    requires g'.sem.count + Owned(g'.callers[c]) + |out| == g.sem.count + Owned(g.callers[c])
    ensures Conserved(g')
  {
    PermitsMove(g.callers, c, g'.callers[c]);
    HeldMove(g.callers, c, g'.callers[c]);
    Cancelled(Held(g.callers), Held(g'.callers), HeldBy(g.callers[c]), HeldBy(g'.callers[c]),
              g.finished + multiset(g.running), more, multiset(out));
    assert g.finished + (multiset(g.running) + multiset(out)) == (g.finished + multiset(g.running)) + multiset(out);
  }

  lemma TakesOneMore(c: Caller, c': Caller)
    requires Owned(c') == Owned(c) + 1 && c'.work == c.work && Owned(c) == c.taken
    requires c.work.Batch? ==> Owned(c') <= |c.work.cbs|
    ensures HeldBy(c') == HeldBy(c) + NextWork(c)
  {
    if c.work.Batch? {
      assert c.work.cbs[..c.taken + 1] == c.work.cbs[..c.taken] + [c.work.cbs[c.taken]];
    }
  }

  lemma AcquireOrderly(g: Group, c: nat, g': Group)
    requires Orderly(g) && Enabled(g, Acquire(c)) && g' == Acquired(g, c)
    ensures Orderly(g')
  {
    if g.sem.count == 0 {
      assert g'.sem.waiters[|g.sem.waiters|] == c;
      forall d | 0 <= d < |g'.callers| && g'.callers[d].phase.Blocked?
        ensures d in g'.sem.waiters
      {
        assert d != c ==> d in g.sem.waiters;
      }
    }
  }

  lemma KeepsItsPermits(c: Caller, c': Caller)
    requires c'.work == c.work && Owned(c') == Owned(c)
    ensures HeldBy(c') == HeldBy(c)
  {
  }

  lemma GrantedConserved(g: Group, c: nat, g': Group)
    requires Conserved(g) && Enabled(g, Acquire(c)) && g.sem.count > 0 && g' == Acquired(g, c)
    ensures Conserved(g')
  {
    var me := g.callers[c];
    TakesOneMore(me, g'.callers[c]);
    StaysConserved(g, g', c, NextWork(me), []);
  }

  lemma ParkedConserved(g: Group, c: nat, g': Group)
    requires Conserved(g) && Enabled(g, Acquire(c)) && g.sem.count == 0 && g' == Acquired(g, c)
    ensures Conserved(g')
  {
    KeepsItsPermits(g.callers[c], g'.callers[c]);
    StaysConserved(g, g', c, multiset{}, []);
  }

  lemma AcquireKeeps(g: Group, c: nat)
    requires Inv(g) && Enabled(g, Acquire(c))
    ensures Inv(Acquired(g, c))
  {
    AcquireOrderly(g, c, Acquired(g, c));
    if g.sem.count > 0 {
      GrantedConserved(g, c, Acquired(g, c));
    } else {
      ParkedConserved(g, c, Acquired(g, c));
    }
  }

  lemma ResumeOrderly(g: Group, c: nat, g': Group)
    requires Orderly(g) && c < |g.callers| && g.callers[c].phase.Resumed?
    requires g' == g.(callers := g.callers[c := g.callers[c].(taken := g.callers[c].taken + 1, phase := Ready)])
    ensures Orderly(g')
  {
    assert OnCourse(g, g.callers[c]);
  }

  lemma ResumeKeeps(g: Group, c: nat, g': Group)
    requires Inv(g) && c < |g.callers| && g.callers[c].phase.Resumed?
    requires g' == g.(callers := g.callers[c := g.callers[c].(taken := g.callers[c].taken + 1, phase := Ready)])
    ensures Inv(g')
  {
    ResumeOrderly(g, c, g');
    KeepsItsPermits(g.callers[c], g'.callers[c]);
    StaysConserved(g, g', c, multiset{}, []);
  }

  lemma ReturnOrderly(g: Group, c: nat, g': Group)
    requires Orderly(g) && Enabled(g, Return(c)) && g' == Returning(g, c)
    ensures Orderly(g')
  {
    assert OnCourse(g, g.callers[c]);
  }

  lemma ReturnConserved(g: Group, c: nat, g': Group)
    requires Conserved(g) && Enabled(g, Return(c)) && g' == Returning(g, c)
    ensures Conserved(g')
  {
    var me := g.callers[c];
    if me.work.Batch? {
      assert me.work.cbs[..|me.work.cbs|] == me.work.cbs;
      StaysConserved(g, g', c, multiset{}, me.work.cbs);
    } else {
      StaysConserved(g, g', c, multiset{}, []);
    }
  }

  lemma ReturnKeeps(g: Group, c: nat, g': Group)
    requires Inv(g) && Enabled(g, Return(c)) && g' == Returning(g, c)
    ensures Inv(g')
  {
    ReturnOrderly(g, c, g');
    ReturnConserved(g, c, g');
  }

  lemma FinishQueued(g: Group, i: nat, g': Group)
    requires Orderly(g) && Enabled(g, Finish(i)) && g' == Finished(g, i)
    ensures Queued(g')
  {
    if g.sem.waiters != [] {
      forall d | 0 <= d < |g'.callers| && g'.callers[d].phase.Blocked?
        ensures d in g'.sem.waiters
      {
        var k :| 0 <= k < |g.sem.waiters| && g.sem.waiters[k] == d;
        assert g'.sem.waiters[k - 1] == d;
      }
    }
  }

  lemma FinishOrderly(g: Group, i: nat, g': Group)
    requires Orderly(g) && Enabled(g, Finish(i)) && g' == Finished(g, i)
    ensures Orderly(g')
  {
    FinishQueued(g, i, g');
    forall c | 0 <= c < |g'.callers|
      ensures OnCourse(g', g'.callers[c])
    {
      assert OnCourse(g, g.callers[c]);
    }
  }

  /** The group between the end of a callback and the notification. */
  function Ended(g: Group, i: nat): Group
    requires i < |g.running|
  {
    g.(sem := g.sem.(count := g.sem.count + 1), running := g.running[..i] + g.running[i + 1..],
    finished := g.finished + multiset{g.running[i]})
  }

  lemma EndedConserved(g: Group, i: nat)
    requires Conserved(g) && i < |g.running|
    ensures Conserved(Ended(g, i))
  {
    assert g.running == g.running[..i] + [g.running[i]] + g.running[i + 1..];
  }

  lemma FinishKeeps(g: Group, i: nat, g': Group)
    requires Inv(g) && Enabled(g, Finish(i)) && g' == Finished(g, i)
    ensures Inv(g')
  {
    FinishOrderly(g, i, g');
    EndedConserved(g, i);
    if g.sem.waiters != [] {
      HandedOver(g, Ended(g, i), g.sem.waiters[0], g');
    } else {
      assert g' == Ended(g, i);
    }
  }

  lemma HandedOver(g: Group, ended: Group, c: nat, g': Group)
    requires c < |g.callers| && g.callers[c].phase.Blocked? && OnCourse(g, g.callers[c])
    requires Conserved(ended) && ended.callers == g.callers && ended.sem.count == 1 && g'.sem.count == 0
    requires g' == ended.(sem := g'.sem, callers := g.callers[c := g.callers[c].(phase := Resumed)],
                          granted := ended.granted + NextWork(g.callers[c]))
    ensures Conserved(g')
  {
    TakesOneMore(g.callers[c], g'.callers[c]);
    StaysConserved(ended, g', c, NextWork(g.callers[c]), []);
  }

  lemma StepKeeps(g: Group, s: Step)
    requires Inv(g) && Enabled(g, s)
    ensures Inv(Apply(g, s)) && Apply(g, s).batchSize == g.batchSize
  {
    match s
    case Call(cbs) => CallKeeps(g, Batch(cbs), Apply(g, s));
    case CallDrain => if !g.finish { CallKeeps(g, Drain, Apply(g, s)); }
    case Acquire(c) => AcquireKeeps(g, c);
    case Resume(c) => ResumeKeeps(g, c, Apply(g, s));
    case Return(c) => ReturnKeeps(g, c, Apply(g, s));
    case Finish(i) => FinishKeeps(g, i, Apply(g, s));
  }

  lemma {:induction false} PathKeeps(g: Group, steps: seq<Step>, run: seq<Group>, n: nat)
    requires Inv(g) && IsPath(g, steps, run) && n < |run|
    ensures Inv(run[n]) && run[n].batchSize == g.batchSize
  {
    if n > 0 {
      PathKeeps(g, steps, run, n - 1);
      StepKeeps(run[n - 1], steps[n - 1]);
    }
  }

  lemma RunKeeps(batchSize: nat, steps: seq<Step>, run: seq<Group>, n: nat)
    requires IsRun(batchSize, steps, run) && n < |run|
    ensures Inv(run[n]) && run[n].batchSize == batchSize
  {
    PathKeeps(Begin(batchSize), steps, run, n);
  }

  lemma OneStepFurther(batchSize: nat, steps: seq<Step>, run: seq<Group>, s: Step, g: Group)
    requires IsRun(batchSize, steps, run) && Enabled(run[|steps|], s) && g == Apply(run[|steps|], s)
    ensures IsRun(batchSize, steps + [s], run + [g])
  {
  }

  // ------------------------------------------------------------- bound and barrier

  /** In every run: permits are conserved, and at most `batchSize` callbacks are in flight. */
  lemma PermitsConserved(batchSize: nat, steps: seq<Step>, run: seq<Group>, n: nat)
    requires IsRun(batchSize, steps, run) && n < |run|
    ensures var g := run[n];
            && g.sem.count + Permits(g.callers) + |g.running| == batchSize
            && |g.running| <= batchSize
            && g.granted == g.finished + multiset(g.running) + Held(g.callers)
  {
    RunKeeps(batchSize, steps, run, n);
  }

  lemma {:induction false} NobodyHolds(cs: seq<Caller>, d: nat)
    requires d < |cs| && cs[d].work.Drain? && Permits(cs) == Owned(cs[d])
    ensures Held(cs) == multiset{}
    ensures forall c :: 0 <= c < |cs| && c != d ==> Owned(cs[c]) == 0
  {
    forall c | 0 <= c < |cs| && c != d
      ensures Owned(cs[c]) == 0
    {
      TwoOwnersOwnBoth(cs, c, d);
    }
    HoldersOwn(cs);
  }

  lemma {:induction false} HoldersOwn(cs: seq<Caller>)
    requires forall c :: 0 <= c < |cs| ==> cs[c].work.Drain? || Owned(cs[c]) == 0
    ensures Held(cs) == multiset{}
  {
    if cs != [] {
      assert cs[0].work.Drain? || Owned(cs[0]) == 0;
      HoldersOwn(cs[1..]);
    }
  }

  /** The barrier: in any state in which the draining `waitAll` has all its permits, nothing is in
      flight, every callback that ever got a permit has finished, and no other caller holds one. */
  lemma WaitAllIsABarrier(batchSize: nat, steps: seq<Step>, run: seq<Group>, n: nat, d: nat)
    requires IsRun(batchSize, steps, run) && n < |run|
    requires d < |run[n].callers| && run[n].callers[d].work.Drain? && run[n].callers[d].taken == batchSize
    ensures var g := run[n];
            && g.running == [] && g.granted == g.finished && g.sem.count == 0
            && forall c :: 0 <= c < |g.callers| && c != d ==> Owned(g.callers[c]) == 0
  {
    RunKeeps(batchSize, steps, run, n);
    var g := run[n];
    OwnsAPart(g.callers, d);
    assert OnCourse(g, g.callers[d]);
    NobodyHolds(g.callers, d);
  }

  // -------------------------------------------------------------------- launching

  /** A batch acquiring all its permits in a row on a fresh group. */
  function Filled(batchSize: nat, cbs: seq<Callback>, k: nat): Group
    requires k <= |cbs| && k <= batchSize
  {
    Group(batchSize, Sem(batchSize - k, []), false, [Caller(Batch(cbs), k, Ready)], [], multiset(cbs[..k]), multiset{})
  }

  lemma {:induction false} FilledStep(batchSize: nat, cbs: seq<Callback>, k: nat)
    requires k < |cbs| && k < batchSize
    ensures var g := Filled(batchSize, cbs, k);
      Enabled(g, Acquire(0)) && Apply(g, Acquire(0)) == Filled(batchSize, cbs, k + 1)
  {
    assert cbs[..k + 1] == cbs[..k] + [cbs[k]];
  }

  lemma {:induction false} FillingUp(batchSize: nat, cbs: seq<Callback>, k: nat)
    returns (steps: seq<Step>, run: seq<Group>)
    requires k <= |cbs| && k <= batchSize
    ensures IsRun(batchSize, steps, run) && run[|steps|] == Filled(batchSize, cbs, k)
  {
    if k == 0 {
      steps, run := [Call(cbs)], [Begin(batchSize), Filled(batchSize, cbs, 0)];
    } else {
      var before, until := FillingUp(batchSize, cbs, k - 1);
      var s, g := Acquire(0), Filled(batchSize, cbs, k);
      FilledStep(batchSize, cbs, k - 1);
      OneStepFurther(batchSize, before, until, s, g);
      steps, run := before + [s], until + [g];
    }
  }

  /** Some caller has handed over this batch to the scheduler. */
  ghost predicate Launched(g: Group, cbs: seq<Callback>) {
    exists c :: 0 <= c < |g.callers| && g.callers[c].work == Batch(cbs) && g.callers[c].phase.Returned?
  }

  ghost predicate CanLaunch(batchSize: nat, cbs: seq<Callback>) {
    exists steps: seq<Step>, run: seq<Group> :: IsRun(batchSize, steps, run) && Launched(run[|steps|], cbs)
  }

  /** Only a batch within the limit has ever been handed over. */
  ghost predicate SmallOnly(g: Group) {
    forall c :: 0 <= c < |g.callers| && g.callers[c].phase.Returned? && g.callers[c].work.Batch? ==>
                  |g.callers[c].work.cbs| <= g.batchSize
  }

  lemma ReturnLaunchesSmall(g: Group, c: nat)
    requires Inv(g) && SmallOnly(g) && Enabled(g, Return(c))
    ensures SmallOnly(Returning(g, c))
  {
    OwnsAPart(g.callers, c);
  }

  lemma AcquireLaunchesNone(g: Group, c: nat)
    requires SmallOnly(g) && Enabled(g, Acquire(c))
    ensures SmallOnly(Acquired(g, c))
  {
  }

  lemma FinishLaunchesNone(g: Group, i: nat)
    requires Queued(g) && SmallOnly(g) && Enabled(g, Finish(i))
    ensures SmallOnly(Finished(g, i))
  {
  }

  lemma StepLaunchesSmall(g: Group, s: Step)
    requires Inv(g) && SmallOnly(g) && Enabled(g, s)
    ensures SmallOnly(Apply(g, s))
  {
    match s
    case Call(_) =>
    case CallDrain =>
    case Acquire(c) => AcquireLaunchesNone(g, c);
    case Resume(c) =>
    case Return(c) => ReturnLaunchesSmall(g, c);
    case Finish(i) => FinishLaunchesNone(g, i);
  }

  lemma {:induction false} RunLaunchesSmall(batchSize: nat, steps: seq<Step>, run: seq<Group>, n: nat)
    requires IsRun(batchSize, steps, run) && n < |run|
    ensures SmallOnly(run[n])
  {
    if n > 0 {
      RunLaunchesSmall(batchSize, steps, run, n - 1);
      RunKeeps(batchSize, steps, run, n - 1);
      StepLaunchesSmall(run[n - 1], steps[n - 1]);
    }
  }

  /** A batch takes all its permits before it hands anything over, so it can be handed over
      in some run exactly when it is no longer than the group is wide. */
  lemma BatchLaunchesIff(batchSize: nat, cbs: seq<Callback>)
    ensures CanLaunch(batchSize, cbs) <==> |cbs| <= batchSize
  {
    if CanLaunch(batchSize, cbs) {
      var steps, run :| IsRun(batchSize, steps, run) && Launched(run[|steps|], cbs);
      RunLaunchesSmall(batchSize, steps, run, |steps|);
      RunKeeps(batchSize, steps, run, |steps|);
    }
    if |cbs| <= batchSize {
      var steps, run := FillingUp(batchSize, cbs, |cbs|);
      var g := Apply(run[|steps|], Return(0));
      OneStepFurther(batchSize, steps, run, Return(0), g);
      assert g.callers[0].work == Batch(cbs) && g.callers[0].phase.Returned?;
      assert Launched((run + [g])[|steps + [Return(0)]|], cbs);
    }
  }
}

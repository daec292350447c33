/** What every operation on the event table keeps, and when it does not; whole runs. */
module EventTableRuns {
  import opened Wrappers
  import opened EventTable

  // ---------------------------------------------------------------- one operation

  predicate Proper(who: Context) {
    Slot(true, who)
  }

  lemma AddSlot(f: Fd, e: Event, who: Context)
    requires Sound(f) && !Has(f.events, e) && Proper(who)
    ensures var f' := Put(f, e, who).(events := With(f.events, e));
            && Sound(f') && Registered(f') == Registered(f) + multiset{who}
            && Bit(f'.events.read) + Bit(f'.events.write) == Bit(f.events.read) + Bit(f.events.write) + 1
  {
  }

  lemma AddAccepted(t: Table, fd: nat, e: Event, who: Context)
    requires Inv(t) && Proper(who) && fd < |t.fds| && !Has(t.fds[fd].events, e)
    ensures var (t', outcome) := AddEvent(t, fd, e, who, false);
            outcome.Ok? && Inv(t') && t'.added == t.added + multiset{who}
                && t'.fds[fd].events == With(t.fds[fd].events, e)
  {
    var f := t.fds[fd];
    assert Sound(f);
    AddSlot(f, e, who);
    var op := if f.events != NONE then MOD else ADD;
    assert EpollCtl(t.kernel, op, fd, With(f.events, e), false) == Some(t.kernel[fd := With(f.events, e)]);
    var t' := AddEvent(t, fd, e, who, false).0;
    assert t'.kernel - {fd} == t.kernel - {fd};
    OneFdChanges(t, t', fd, multiset{who}, multiset{});
  }

  lemma AddOutcome(t: Table, fd: nat, e: Event, who: Context, refuse: bool)
    requires Inv(t) && Proper(who) && fd < |t.fds|
    ensures var (t', outcome) := AddEvent(t, fd, e, who, refuse);
            && Inv(t')
            && (outcome.Abort? <==> Has(t.fds[fd].events, e))
            && (outcome.Ok? <==> !outcome.Abort? && !refuse)
            && (outcome.Ok? ==> t'.added == t.added + multiset{who} && t'.fds[fd].events == With(t.fds[fd].events, e))
            && (!outcome.Ok? ==> t' == t)
  {
    assert Sound(t.fds[fd]);
    if !Has(t.fds[fd].events, e) && !refuse {
      AddAccepted(t, fd, e, who);
    }
  }

  /** Adding never loses anything: it is refused only by the kernel's own will, and it
      aborts only for an event already registered. */
  lemma AddKeeps(t: Table, fd: nat, e: Event, who: Context, refuse: bool)
    requires Inv(t) && Proper(who)
    ensures fd < |Roomy(t.fds, fd)|
    ensures var (t', outcome) := AddEvent(t, fd, e, who, refuse);
            && Inv(t')
            && (outcome.Abort? <==> fd < |t.fds| && Has(t.fds[fd].events, e))
            && (outcome.Ok? <==> !outcome.Abort? && !refuse)
            && (outcome.Ok? ==>
                t'.added == t.added + multiset{who}
                && t'.fds[fd].events == With(Roomy(t.fds, fd)[fd].events, e))
            && (!outcome.Ok? ==> t' == t.(fds := Roomy(t.fds, fd)))
  {
    RoomyKeeps(t, fd);
    var t0 := t.(fds := Roomy(t.fds, fd));
    RoomyFds(t.fds, fd, t0.fds);
    AddOutcome(t0, fd, e, who, refuse);
    AddInRoomy(t, fd, e, who, refuse, t0);
  }

  lemma AddInRoomy(t: Table, fd: nat, e: Event, who: Context, refuse: bool, t0: Table)
    requires t0 == t.(fds := Roomy(t.fds, fd)) && fd < |t0.fds|
    ensures AddEvent(t, fd, e, who, refuse) == AddEvent(t0, fd, e, who, refuse)
  {
  }

  /** The exact inputs on which `delEvent` and `cancelEvent` are safe: the guard does not test
      the bit, so they are not when only the other event is registered. */
  predicate RemovalFits(t: Table, fd: nat, e: Event, refuse: bool) {
    fd < |t.fds| ==> t.fds[fd].events == NONE || Has(t.fds[fd].events, e) || refuse
  }

  /** An accepted DEL or MOD: legal exactly because the mask was not empty. */
  lemma NarrowIsLegal(t: Table, fd: nat, left: Mask, refuse: bool)
    requires InKernel(t) && fd < |t.fds|
    ensures Narrow(t, fd, left, refuse) ==
            if t.fds[fd].events == NONE || refuse then None
            else Some(Narrowed(t.kernel, fd, left))
  {
  }

  function Narrowed(kernel: map<nat, Mask>, fd: nat, left: Mask): map<nat, Mask> {
    if left == NONE then kernel - {fd} else kernel[fd := left]
  }

  lemma NarrowedAt(kernel: map<nat, Mask>, kernel': map<nat, Mask>, fd: nat, left: Mask)
    requires kernel' == Narrowed(kernel, fd, left)
    ensures fd in kernel' <==> left != NONE
    ensures fd in kernel' ==> kernel'[fd] == left
    ensures kernel' - {fd} == kernel - {fd}
  {
  }

  lemma RemoveSlot(f: Fd, e: Event)
    requires Sound(f) && Has(f.events, e)
    ensures var f' := Put(f, e, EMPTY).(events := Without(f.events, e));
            && Sound(f') && Registered(f') + multiset{At(f, e)} == Registered(f)
            && At(f, e) != EMPTY
            && Bit(f'.events.read) + Bit(f'.events.write) + 1 == Bit(f.events.read) + Bit(f.events.write)
  {
  }

  lemma DropTallies(t: Table, t': Table, fd: nat, e: Event)
    requires Inv(t) && fd < |t.fds| && Has(t.fds[fd].events, e)
    requires var left := Without(t.fds[fd].events, e);
             t' == t.(fds := t.fds[fd := Put(t.fds[fd], e, EMPTY).(events := left)],
                 kernel := Narrowed(t.kernel, fd, left),
                      pending := t.pending - 1, dropped := t.dropped + multiset{At(t.fds[fd], e)})
    ensures Inv(t')
  {
    RemoveSlot(t.fds[fd], e);
    NarrowedAt(t.kernel, t'.kernel, fd, Without(t.fds[fd].events, e));
    OneFdChanges(t, t', fd, multiset{}, multiset{At(t.fds[fd], e)});
  }

  lemma DelRegistered(t: Table, fd: nat, e: Event)
    requires Inv(t) && fd < |t.fds| && Has(t.fds[fd].events, e)
    ensures Inv(DelEvent(t, fd, e, false).0)
    ensures DelEvent(t, fd, e, false).0.dropped == t.dropped + multiset{At(t.fds[fd], e)}
  {
    NarrowIsLegal(t, fd, Without(t.fds[fd].events, e), false);
    RemoveSlot(t.fds[fd], e);
    DropTallies(t, DelEvent(t, fd, e, false).0, fd, e);
  }

  /** Deleting an event of which only the other one is registered miscounts. */
  lemma DelUnregistered(t: Table, fd: nat, e: Event)
    requires Inv(t) && fd < |t.fds| && !Has(t.fds[fd].events, e) && t.fds[fd].events != NONE
    ensures var t' := DelEvent(t, fd, e, false).0; t' == t.(pending := t.pending - 1) && !Inv(t')
  {
    var f := t.fds[fd];
    NarrowIsLegal(t, fd, Without(f.events, e), false);
    assert Sound(f);
    assert Put(f, e, EMPTY).(events := Without(f.events, e)) == f;
    assert t.fds[fd := f] == t.fds;
    assert t.kernel[fd := f.events] == t.kernel;
    assert t.dropped + multiset{} == t.dropped;
  }

  lemma DelKeepsIff(t: Table, fd: nat, e: Event, refuse: bool)
    requires Inv(t)
    ensures var (t', outcome) := DelEvent(t, fd, e, refuse);
            && (Inv(t') <==> RemovalFits(t, fd, e, refuse))
            && (outcome.Ok? <==> fd < |t.fds| && t.fds[fd].events != NONE && !refuse)
            && (!outcome.Ok? ==> t' == t)
            && (outcome.Ok? && Has(t.fds[fd].events, e) ==> t'.dropped == t.dropped + multiset{At(t.fds[fd], e)})
  {
    if fd < |t.fds| {
      NarrowIsLegal(t, fd, Without(t.fds[fd].events, e), refuse);
      if t.fds[fd].events != NONE && !refuse {
        if Has(t.fds[fd].events, e) {
          DelRegistered(t, fd, e);
        } else {
          DelUnregistered(t, fd, e);
        }
      }
    }
  }

  /** The waiters of the given events, in the order they are fired. */
  function Fired(f: Fd, which: Mask): seq<Context> {
    (if which.read then [f.read] else []) + (if which.write then [f.write] else [])
  }

  function AfterFiring(f: Fd, which: Mask): Fd {
    Fd(Minus(f.events, which), if which.read then EMPTY else f.read, if which.write then EMPTY else f.write)
  }

  lemma TriggerAllIs(t: Table, fd: nat, which: Mask)
    requires fd < |t.fds| && Within(which, t.fds[fd].events)
    ensures TriggerAll(t, fd, which) ==
            (t.(fds := t.fds[fd := AfterFiring(t.fds[fd], which)],
             scheduled := t.scheduled + Fired(t.fds[fd], which),
             pending := t.pending - Bit(which.read) - Bit(which.write)), Ok)
  {
    var f := t.fds[fd];
    var t1 := if which.read then Trigger(t, fd, READ) else t;
    var t2 := if which.write then Trigger(t1, fd, WRITE) else t1;
    assert t2.fds == t.fds[fd := AfterFiring(f, which)];
    assert t2.scheduled == t.scheduled + Fired(f, which);
  }

  lemma FiredSlots(f: Fd, which: Mask)
    requires Sound(f) && Within(which, f.events)
    ensures Sound(AfterFiring(f, which))
    ensures Registered(AfterFiring(f, which)) + multiset(Fired(f, which)) == Registered(f)
    ensures Bit(AfterFiring(f, which).events.read) + Bit(AfterFiring(f, which).events.write)
         == Bit(f.events.read) + Bit(f.events.write) - Bit(which.read) - Bit(which.write)
  {
    assert multiset(Fired(f, which)) == (if which.read then multiset{f.read} else multiset{})
                                        + (if which.write then multiset{f.write} else multiset{});
  }

  /** Firing registered events after the kernel's mask has been narrowed by them. */
  lemma FiringKeeps(t: Table, fd: nat, which: Mask, kernel: map<nat, Mask>)
    requires Inv(t) && fd < |t.fds| && Within(which, t.fds[fd].events) && t.fds[fd].events != NONE
    requires kernel == Narrowed(t.kernel, fd, Minus(t.fds[fd].events, which))
    ensures var (t', outcome) := TriggerAll(t.(kernel := kernel), fd, which);
            && outcome.Ok? && Inv(t')
            && t'.scheduled == t.scheduled + Fired(t.fds[fd], which)
            && t'.fds[fd].events == Minus(t.fds[fd].events, which)
  {
    TriggerAllIs(t.(kernel := kernel), fd, which);
    FiringTallies(t, TriggerAll(t.(kernel := kernel), fd, which).0, fd, which);
  }

  lemma FiringTallies(t: Table, t': Table, fd: nat, which: Mask)
    requires Inv(t) && fd < |t.fds| && Within(which, t.fds[fd].events) && t.fds[fd].events != NONE
    requires t' == t.(fds := t.fds[fd := AfterFiring(t.fds[fd], which)], kernel := t'.kernel,
                      scheduled := t.scheduled + Fired(t.fds[fd], which),
                      pending := t.pending - Bit(which.read) - Bit(which.write))
    requires t'.kernel == Narrowed(t.kernel, fd, Minus(t.fds[fd].events, which))
    ensures Inv(t')
  {
    FiredSlots(t.fds[fd], which);
    assert multiset(t'.scheduled) == multiset(t.scheduled) + multiset(Fired(t.fds[fd], which));
    NarrowedAt(t.kernel, t'.kernel, fd, Minus(t.fds[fd].events, which));
    OneFdChanges(t, t', fd, multiset{}, multiset(Fired(t.fds[fd], which)));
  }

  function Only(e: Event): Mask {
    With(NONE, e)
  }

  /** Cancelling a registered event that the kernel lets go. */
  lemma {:induction false} CancelRegistered(t: Table, fd: nat, e: Event)
    requires Inv(t) && fd < |t.fds| && Has(t.fds[fd].events, e)
    ensures var (t', outcome) := CancelEvent(t, fd, e, false);
            && outcome.Ok? && Inv(t')
            && t'.scheduled == t.scheduled + [At(t.fds[fd], e)] && !Has(t'.fds[fd].events, e)
  {
    var left := Without(t.fds[fd].events, e);
    var kernel := Narrowed(t.kernel, fd, left);
    NarrowIsLegal(t, fd, left, false);
    assert Minus(t.fds[fd].events, Only(e)) == left;
    FiringKeeps(t, fd, Only(e), kernel);
    TriggerAllIs(t.(kernel := kernel), fd, Only(e));
    assert AfterFiring(t.fds[fd], Only(e)) == Put(t.fds[fd], e, EMPTY).(events := left);
  }

  /** And of any other. */
  lemma {:induction false} CancelOthers(t: Table, fd: nat, e: Event, refuse: bool)
    requires Inv(t) && (fd < |t.fds| && Has(t.fds[fd].events, e) ==> refuse)
    ensures var (t', outcome) := CancelEvent(t, fd, e, refuse);
            && (outcome.Abort? <==> fd < |t.fds| && t.fds[fd].events != NONE && !refuse) && !outcome.Ok?
            && (outcome.Refused? ==> t' == t)
  {
    if fd < |t.fds| {
      NarrowIsLegal(t, fd, Without(t.fds[fd].events, e), refuse);
    }
  }

  /** `cancelEvent` aborts on exactly the inputs on which `delEvent` miscounts; otherwise the
      waiter, if there is one, is scheduled once. */
  lemma CancelKeepsIff(t: Table, fd: nat, e: Event, refuse: bool)
    requires Inv(t)
    ensures var (t', outcome) := CancelEvent(t, fd, e, refuse);
            && (outcome.Abort? <==> !RemovalFits(t, fd, e, refuse))
            && (!outcome.Abort? ==> Inv(t'))
            && (outcome.Ok? <==> fd < |t.fds| && Has(t.fds[fd].events, e) && !refuse)
            && (outcome.Ok? ==> t'.scheduled == t.scheduled + [At(t.fds[fd], e)] && !Has(t'.fds[fd].events, e))
            && (outcome.Refused? ==> t' == t)
  {
    if fd < |t.fds| && Has(t.fds[fd].events, e) && !refuse {
      CancelRegistered(t, fd, e);
    } else {
      CancelOthers(t, fd, e, refuse);
    }
  }

  /** `cancelAll` never aborts; it schedules every waiter of the descriptor. */
  lemma CancelAllKeeps(t: Table, fd: nat, refuse: bool)
    requires Inv(t)
    ensures var (t', outcome) := CancelAll(t, fd, refuse);
            && Inv(t')
            && (outcome.Ok? <==> fd < |t.fds| && t.fds[fd].events != NONE && !refuse)
            && (outcome.Ok? ==> t'.fds[fd] == IDLE && t'.scheduled == t.scheduled + Fired(t.fds[fd], t.fds[fd].events))
            && (!outcome.Ok? ==> outcome.Refused? && t' == t)
  {
    if fd < |t.fds| && t.fds[fd].events != NONE && !refuse {
      var events := t.fds[fd].events;
      assert Minus(events, events) == NONE;
      FiringKeeps(t, fd, events, t.kernel - {fd});
      assert Sound(CancelAll(t, fd, refuse).0.fds[fd]);
    }
  }

  /** The exact inputs on which a turn of `idle` is safe: it narrows the mask by the reported
      events but fires them all, so a stale report beside a live one is fatal. */
  predicate DispatchFits(t: Table, fd: nat, reported: Mask, broken: bool, refuse: bool)
    requires fd < |t.fds|
  {
    var due := RealEvents(t.fds[fd].events, reported, broken);
    refuse || !Meets(t.fds[fd].events, due) || Within(due, t.fds[fd].events)
  }

  lemma DispatchFires(t: Table, fd: nat, reported: Mask, broken: bool)
    requires Inv(t) && fd < |t.fds|
    requires var due := RealEvents(t.fds[fd].events, reported, broken);
             Meets(t.fds[fd].events, due) && Within(due, t.fds[fd].events)
    ensures var due, (t', outcome) := RealEvents(t.fds[fd].events, reported, broken),
            Dispatch(t, fd, reported, broken, false);
            && outcome.Ok? && Inv(t')
            && t'.scheduled == t.scheduled + Fired(t.fds[fd], due)
            && t'.fds[fd].events == Minus(t.fds[fd].events, due)
  {
    var due := RealEvents(t.fds[fd].events, reported, broken);
    var left := Minus(t.fds[fd].events, due);
    NarrowIsLegal(t, fd, left, false);
    FiringKeeps(t, fd, due, Narrowed(t.kernel, fd, left));
  }

  lemma DispatchAborts(t: Table, fd: nat, due: Mask)
    requires fd < |t.fds| && !Within(due, t.fds[fd].events)
    ensures TriggerAll(t, fd, due).1.Abort?
  {
  }

  lemma DispatchKeepsIff(t: Table, fd: nat, reported: Mask, broken: bool, refuse: bool)
    requires Inv(t) && fd < |t.fds|
    ensures var due, (t', outcome) := RealEvents(t.fds[fd].events, reported, broken),
            Dispatch(t, fd, reported, broken, refuse);
            && (outcome.Abort? <==> !DispatchFits(t, fd, reported, broken, refuse))
            && (!outcome.Abort? ==> Inv(t'))
            && (outcome.Ok? ==>
                  && t'.scheduled == t.scheduled + Fired(t.fds[fd], due)
                  && t'.fds[fd].events == Minus(t.fds[fd].events, due))
            && (outcome.Refused? ==> t' == t)
  {
    var events := t.fds[fd].events;
    var due := RealEvents(events, reported, broken);
    if Meets(events, due) && !refuse {
      if Within(due, events) {
        DispatchFires(t, fd, reported, broken);
      } else {
        NarrowIsLegal(t, fd, Minus(events, due), refuse);
        var left := Minus(events, due);
        DispatchAborts(t.(kernel := Narrowed(t.kernel, fd, left)), fd, due);
      }
    }
  }

  // -------------------------------------------------------------- what is promised

  /** An accepted `addEvent` for READ: the callback waits if there is one, and the running fiber
      otherwise; the other event, all other descriptors and what has been scheduled stay. */
  lemma {:induction false} AddReadStores(t: Table, fd: nat, scheduler: nat, fiber: nat, callback: Option<nat>,
                                         refuse: bool)
    requires Inv(t) && fd < |Roomy(t.fds, fd)|
    ensures var (t', outcome) := AddEvent(t, fd, READ, Waiter(scheduler, fiber, callback), refuse);
      outcome.Ok? ==>
        && fd < |t'.fds| && t'.fds[fd].events.read
        && t'.fds[fd].read == Context(Some(scheduler), if callback.Some? then None else Some(fiber), callback)
        && (fd < |t.fds| ==>
              && !t.fds[fd].events.read
              && t'.fds[fd].events.write == t.fds[fd].events.write && t'.fds[fd].write == t.fds[fd].write)
        && (forall i :: 0 <= i < |t.fds| && i != fd ==> i < |t'.fds| && t'.fds[i] == t.fds[i])
        && t'.pending == t.pending + 1 && t'.scheduled == t.scheduled
  {
    RoomyFds(t.fds, fd, Roomy(t.fds, fd));
  }

  /** Likewise for WRITE. */
  lemma {:induction false} AddWriteStores(t: Table, fd: nat, scheduler: nat, fiber: nat, callback: Option<nat>,
                                          refuse: bool)
    requires Inv(t) && fd < |Roomy(t.fds, fd)|
    ensures var (t', outcome) := AddEvent(t, fd, WRITE, Waiter(scheduler, fiber, callback), refuse);
      outcome.Ok? ==>
        && fd < |t'.fds| && t'.fds[fd].events.write
        && t'.fds[fd].write == Context(Some(scheduler), if callback.Some? then None else Some(fiber), callback)
        && (fd < |t.fds| ==>
              && !t.fds[fd].events.write
              && t'.fds[fd].events.read == t.fds[fd].events.read && t'.fds[fd].read == t.fds[fd].read)
        && (forall i :: 0 <= i < |t.fds| && i != fd ==> i < |t'.fds| && t'.fds[i] == t.fds[i])
        && t'.pending == t.pending + 1 && t'.scheduled == t.scheduled
  {
    RoomyFds(t.fds, fd, Roomy(t.fds, fd));
  }

  /** `delEvent` and `cancelEvent` of a registered event clear its bit and its context and leave the
      other event alone; only the latter schedules the waiter. */
  lemma {:induction false} RemovesJustThis(t: Table, fd: nat, read: bool, refuse: bool)
    requires Inv(t) && fd < |t.fds| && (if read then t.fds[fd].events.read else t.fds[fd].events.write) && !refuse
    ensures var f, e := t.fds[fd], if read then READ else WRITE;
      var left :=
        if read then Fd(Mask(false, f.events.write), EMPTY, f.write) else Fd(Mask(f.events.read, false), f.read, EMPTY);
      var (d, dropped) := DelEvent(t, fd, e, refuse);
      var (c, cancelled) := CancelEvent(t, fd, e, refuse);
      && dropped.Ok? && d.fds == t.fds[fd := left] && d.scheduled == t.scheduled && d.pending == t.pending - 1
      && cancelled.Ok? && c.fds == t.fds[fd := left] && c.pending == t.pending - 1
      && c.scheduled == t.scheduled + [if read then f.read else f.write]
  {
    var e := if read then READ else WRITE;
    assert Sound(t.fds[fd]);
    NarrowIsLegal(t, fd, Without(t.fds[fd].events, e), refuse);
  }

  /** `cancelAll` schedules the waiter for READ and then that for WRITE, as far as they are there. */
  lemma {:induction false} CancelAllSchedules(t: Table, fd: nat)
    requires Inv(t) && fd < |t.fds| && (t.fds[fd].events.read || t.fds[fd].events.write)
    ensures var f, (t', outcome) := t.fds[fd], CancelAll(t, fd, false);
      && outcome.Ok? && t'.fds == t.fds[fd := Fd(Mask(false, false), EMPTY, EMPTY)]
      && t'.scheduled
         == t.scheduled + (if f.events.read then [f.read] else []) + (if f.events.write then [f.write] else [])
  {
    var f := t.fds[fd];
    assert Sound(f);
    TriggerAllIs(t.(kernel := t.kernel - {fd}), fd, f.events);
  }

  /** When a turn of `idle` is safe, written out: the kernel refuses, or nothing reported is
      registered, or everything reported is. */
  lemma {:induction false} DispatchFitsIff(t: Table, fd: nat, reported: Mask, broken: bool, refuse: bool)
    requires fd < |t.fds|
    ensures var events := t.fds[fd].events;
      var read := events.read && (reported.read || broken);
      var write := events.write && (reported.write || broken);
      DispatchFits(t, fd, reported, broken, refuse) <==>
        refuse || (!read && !write) || ((reported.read ==> events.read) && (reported.write ==> events.write))
  {
  }

  /** What a safe turn of `idle` does, if the kernel accepts: the waiter for READ is scheduled if and
      only if READ is registered and has been reported, or there has been an error; then likewise
      the one for WRITE; no other, and those that have been scheduled wait no more. */
  lemma {:induction false} DispatchWakes(t: Table, fd: nat, reported: Mask, broken: bool)
    requires Inv(t) && fd < |t.fds| && DispatchFits(t, fd, reported, broken, false)
    ensures var f, (t', outcome) := t.fds[fd], Dispatch(t, fd, reported, broken, false);
      var read := f.events.read && (reported.read || broken);
      var write := f.events.write && (reported.write || broken);
      && (outcome.Ok? <==> read || write) && (!outcome.Ok? ==> outcome.Refused? && t' == t)
      && t'.scheduled == t.scheduled + (if read then [f.read] else []) + (if write then [f.write] else [])
      && t'.fds == t.fds[fd := Fd(Mask(f.events.read && !read, f.events.write && !write),
                                  if read then EMPTY else f.read, if write then EMPTY else f.write)]
  {
    var f := t.fds[fd];
    var due := RealEvents(f.events, reported, broken);
    if Meets(f.events, due) {
      NarrowIsLegal(t, fd, Minus(f.events, due), false);
      TriggerAllIs(t.(kernel := Narrowed(t.kernel, fd, Minus(f.events, due))), fd, due);
    } else {
      assert t.fds[fd := f] == t.fds;
    }
  }

  // -------------------------------------------------------------------- whole runs

  datatype Op =
    | DoAdd(fd: nat, event: Event, scheduler: nat, fiber: nat, callback: Option<nat>)
    | DoDel(fd: nat, event: Event)
    | DoCancel(fd: nat, event: Event)
    | DoCancelAll(fd: nat)
    | DoDispatch(fd: nat, reported: Mask, broken: bool)

  datatype Call = Call(op: Op, refuse: bool)

  /** A report names a descriptor whose context exists. */
  predicate Possible(t: Table, c: Call) {
    match c.op
    case DoAdd(fd, _, _, _, _) => fd < |Roomy(t.fds, fd)|
    case DoDispatch(fd, _, _) => fd < |t.fds|
    case _ => true
  }

  function After(t: Table, c: Call): (Table, Outcome)
    requires Possible(t, c)
  {
    match c.op
    case DoAdd(fd, e, s, f, cb) => AddEvent(t, fd, e, Waiter(s, f, cb), c.refuse)
    case DoDel(fd, e) => DelEvent(t, fd, e, c.refuse)
    case DoCancel(fd, e) => CancelEvent(t, fd, e, c.refuse)
    case DoCancelAll(fd) => CancelAll(t, fd, c.refuse)
    case DoDispatch(fd, r, broken) => Dispatch(t, fd, r, broken, c.refuse)
  }

  /** The condition on a call, readable off the table before it. */
  predicate Fits(t: Table, c: Call)
    requires Possible(t, c)
  {
    match c.op
    case DoAdd(fd, e, _, _, _) => fd < |t.fds| ==> !Has(t.fds[fd].events, e)
    case DoDel(fd, e) => RemovalFits(t, fd, e, c.refuse)
    case DoCancel(fd, e) => RemovalFits(t, fd, e, c.refuse)
    case DoCancelAll(_) => true
    case DoDispatch(fd, r, broken) => DispatchFits(t, fd, r, broken, c.refuse)
  }

  ghost predicate Safe(t: Table, c: Call)
    requires Possible(t, c)
  {
    !After(t, c).1.Abort? && Inv(After(t, c).0)
  }

  lemma SafeIffFits(t: Table, c: Call)
    requires Inv(t) && Possible(t, c)
    ensures Safe(t, c) <==> Fits(t, c)
  {
    match c.op
    case DoAdd(fd, e, s, f, cb) => AddKeeps(t, fd, e, Waiter(s, f, cb), c.refuse);
    case DoDel(fd, e) => DelKeepsIff(t, fd, e, c.refuse);
    case DoCancel(fd, e) => CancelKeepsIff(t, fd, e, c.refuse);
    case DoCancelAll(fd) => CancelAllKeeps(t, fd, c.refuse);
    case DoDispatch(fd, r, broken) => DispatchKeepsIff(t, fd, r, broken, c.refuse);
  }

  ghost predicate IsRun(run: seq<Table>, calls: seq<Call>) {
    && |run| == |calls| + 1 && run[0] == Fresh()
    && forall i :: 0 <= i < |calls| ==> Possible(run[i], calls[i]) && run[i + 1] == After(run[i], calls[i]).0
  }

  ghost predicate AllFit(run: seq<Table>, calls: seq<Call>)
    requires IsRun(run, calls)
  {
    forall i :: 0 <= i < |calls| ==> Fits(run[i], calls[i])
  }

  lemma {:induction false} RunIsGood(run: seq<Table>, calls: seq<Call>, n: nat)
    requires IsRun(run, calls) && AllFit(run, calls) && n < |run|
    ensures Inv(run[n])
  {
    if n == 0 {
      FreshIsGood();
    } else {
      RunIsGood(run, calls, n - 1);
      SafeIffFits(run[n - 1], calls[n - 1]);
      assert Fits(run[n - 1], calls[n - 1]);
    }
  }

  /** A run never aborts and keeps the table consistent throughout, if and only if every call
      fits the table it meets. */
  lemma RunSafeIff(run: seq<Table>, calls: seq<Call>)
    requires IsRun(run, calls)
    ensures AllFit(run, calls) <==>
            (forall n :: 0 <= n < |run| ==> Inv(run[n]))
            && (forall i :: 0 <= i < |calls| ==> !After(run[i], calls[i]).1.Abort?)
  {
    if AllFit(run, calls) {
      forall n | 0 <= n < |run|
        ensures Inv(run[n])
      {
        RunIsGood(run, calls, n);
      }
      forall i | 0 <= i < |calls|
        ensures !After(run[i], calls[i]).1.Abort?
      {
        RunIsGood(run, calls, i);
        SafeIffFits(run[i], calls[i]);
      }
    } else if (forall n :: 0 <= n < |run| ==> Inv(run[n]))
        && (forall i :: 0 <= i < |calls| ==> !After(run[i], calls[i]).1.Abort?) {
      forall i | 0 <= i < |calls|
        ensures Fits(run[i], calls[i])
      {
        assert Inv(run[i]) && Inv(run[i + 1]);
        SafeIffFits(run[i], calls[i]);
      }
    }
  }

  /** In such a run every accepted registration is, at any moment, in exactly one place: still
      registered, scheduled, or dropped. */
  lemma ScheduledOnceOrDroppedOnce(run: seq<Table>, calls: seq<Call>, n: nat)
    requires IsRun(run, calls) && AllFit(run, calls) && n < |run|
    ensures run[n].added == multiset(run[n].scheduled) + run[n].dropped + Live(run[n].fds)
    ensures run[n].pending == Total(run[n].fds)
  {
    RunIsGood(run, calls, n);
  }

  lemma {:induction false} NoBits(fds: seq<Fd>, i: nat)
    requires Total(fds) == 0 && i < |fds|
    ensures fds[i].events == NONE
    ensures Live(fds) == multiset{}
  {
    if i > 0 {
      NoBits(fds[1..], i - 1);
    } else if |fds| > 1 {
      NoBits(fds[1..], 0);
    }
  }

  /** `stopping` reads the counter only; in such a run a zero counter means that nothing is
      registered, that the kernel watches nothing, and that every waiter was dealt with. */
  lemma NothingPending(run: seq<Table>, calls: seq<Call>, n: nat)
    requires IsRun(run, calls) && AllFit(run, calls) && n < |run|
    ensures run[n].pending == 0 ==>
              && (forall fd :: 0 <= fd < |run[n].fds| ==> run[n].fds[fd].events == NONE)
              && run[n].kernel == map[]
              && run[n].added == multiset(run[n].scheduled) + run[n].dropped
  {
    RunIsGood(run, calls, n);
    var t := run[n];
    if t.pending == 0 {
      forall fd | 0 <= fd < |t.fds|
        ensures t.fds[fd].events == NONE
      {
        NoBits(t.fds, fd);
      }
      NoBits(t.fds, 0);
    }
  }

  /** A report is fresh when it is part of the mask the kernel was last given. */
  lemma FreshReportsFit(t: Table, fd: nat, reported: Mask, broken: bool, refuse: bool)
    requires Inv(t) && fd < |t.fds| && fd in t.kernel && Within(reported, t.kernel[fd])
    ensures DispatchFits(t, fd, reported, broken, refuse)
  {
  }

  // ------------------------------------------------------------- what goes wrong

  function Other(e: Event): Event {
    if e.READ? then WRITE else READ
  }

  /** Deleting one event where only the other waits, and nothing else does, zeroes the
      counter: `stopping` may then hold although a fiber is still waiting. */
  lemma DeletingTheOtherEventLosesOne(t: Table, fd: nat, e: Event)
    requires Inv(t) && fd < |t.fds| && t.fds[fd].events == Only(e) && t.pending == 1
    ensures var (t', outcome) := DelEvent(t, fd, Other(e), false);
            outcome.Ok? && t'.pending == 0 && t'.fds == t.fds && Has(t'.fds[fd].events, e)
  {
    DelUnregistered(t, fd, Other(e));
  }

  lemma StaleAborts(t: Table, fd: nat, e: Event)
    requires Inv(t) && fd < |t.fds| && t.fds[fd].events == Only(e)
    ensures Dispatch(t, fd, Mask(true, true), false, false).1.Abort?
  {
    DispatchKeepsIff(t, fd, Mask(true, true), false, false);
  }

  lemma CancelLeavesOther(t: Table, fd: nat, e: Event, t': Table)
    requires Inv(t) && fd < |t.fds| && t.fds[fd].events == Mask(true, true) && t' == CancelEvent(t, fd, e, false).0
    ensures CancelEvent(t, fd, e, false).1.Ok? && Inv(t') && fd < |t'.fds| && t'.fds[fd].events == Only(Other(e))
  {
    CancelKeepsIff(t, fd, e, false);
  }

  /** A report of both events was fit to act on when the kernel made it, and is fatal once
      either of them has been cancelled. */
  lemma StaleReportAborts(t: Table, fd: nat, e: Event)
    requires Inv(t) && fd < |t.fds| && t.fds[fd].events == Mask(true, true)
    ensures Dispatch(t, fd, Mask(true, true), false, false).1.Ok?
    ensures var (t', outcome) := CancelEvent(t, fd, e, false);
            outcome.Ok? && fd < |t'.fds| && Dispatch(t', fd, Mask(true, true), false, false).1.Abort?
  {
    DispatchFires(t, fd, Mask(true, true), false);
    var t' := CancelEvent(t, fd, e, false).0;
    CancelLeavesOther(t, fd, e, t');
    StaleAborts(t', fd, Other(e));
  }
}

/** The IO manager's descriptor contexts as objects (src/IoManager.cpp, src/IoManager.h).

    Every method performs the critical section of its namesake on the fields, and is tied to
    the table functions.  Outcome Abort stands for a failed assertion of the program. */
module IoObjects {
  import opened Wrappers
  import opened EventTable
  import opened EventTableRuns

  class FdContext {
    const fd: nat
    var read: Context
    var write: Context
    var events: Mask

    constructor (fd: nat)
      ensures this.fd == fd && AsFd() == IDLE
    {
      this.fd, read, write, events := fd, EMPTY, EMPTY, NONE;
    }

    function AsFd(): Fd
      reads this
    {
      Fd(events, read, write)
    }

    method SetContext(e: Event, c: Context)
      modifies this`read, this`write
      ensures AsFd() == Put(old(AsFd()), e, c)
    {
      match e
      case READ => read := c;
      case WRITE => write := c;
    }

    /** The waiter is swapped out, so the context is left empty. */
    method TriggerEvent(e: Event) returns (waiter: Context)
      requires Has(events, e)
      modifies this
      ensures waiter == At(old(AsFd()), e)
      ensures AsFd() == Put(old(AsFd()), e, EMPTY).(events := Without(old(events), e))
    {
      events := Without(events, e);
      waiter := At(AsFd(), e);
      SetContext(e, EMPTY);
    }
  }

  class IOManager {
    var contexts: seq<FdContext>
    var pendingEventCount: int
    var kernel: map<nat, Mask>       // what epoll has been told
    var scheduled: seq<Context>      // what has been handed to schedulers

    ghost var model: Table

    ghost predicate Valid()
      reads this, contexts
    {
      && |contexts| == |model.fds|
      && (forall i :: 0 <= i < |contexts| ==> contexts[i].fd == i && contexts[i].AsFd() == model.fds[i])
      && pendingEventCount == model.pending && kernel == model.kernel && scheduled == model.scheduled
    }

    constructor ()
      ensures Valid() && fresh(contexts) && model == Fresh()
    {
      contexts, pendingEventCount, kernel, scheduled := [], 0, map[], [];
      model := Table([], 0, map[], [], multiset{}, multiset{});
      new;
      ContextResize(32);
    }

    method ContextResize(size: nat)
      requires Valid()
      modifies `contexts, `model
      ensures Valid() && fresh(set c | c in contexts && c !in old(contexts))
      ensures model == old(model).(fds := Resized(old(model).fds, size))
    {
      if size <= |contexts| {
        contexts := contexts[..size];
      }
      var n := |contexts|;
      while |contexts| < size
        invariant model == old(model)
        invariant n <= |contexts| && (size <= n ==> |contexts| == n)
        invariant n < size ==> |contexts| <= size
        invariant fresh(set c | c in contexts && c !in old(contexts))
        invariant forall i :: 0 <= i < n ==>
                i < |old(contexts)| && contexts[i] == old(contexts)[i]
                && contexts[i].AsFd() == model.fds[i]
        invariant forall i :: n <= i < |contexts| ==>
                                fresh(contexts[i]) && contexts[i].fd == i && contexts[i].AsFd() == IDLE
        decreases size - |contexts|
      {
        var c := new FdContext(|contexts|);
        contexts := contexts + [c];
      }
      model := model.(fds := Resized(model.fds, size));
    }

    /** True when the kernel accepts. */
    method EpollCtl(op: CtlOp, fd: nat, mask: Mask, refuse: bool) returns (accepted: bool)
      requires Valid()
      modifies `kernel, `model
      ensures Valid()
      ensures accepted == EventTable.EpollCtl(old(model).kernel, op, fd, mask, refuse).Some?
      ensures model == if accepted then old(model).(kernel := EventTable.EpollCtl(old(model).kernel, op, fd, mask,
              refuse).value)
                       else old(model)
    {
      match EventTable.EpollCtl(kernel, op, fd, mask, refuse)
      case None =>
        accepted := false;
      case Some(k) =>
        kernel := k;
        model := model.(kernel := k);
        accepted := true;
    }

    method AddEvent(fd: nat, e: Event, scheduler: nat, fiber: nat, callback: Option<nat>, refuse: bool)
      returns (outcome: Outcome)
      requires Valid() && fd < |Roomy(model.fds, fd)|
      modifies this, contexts
      ensures Valid() && fresh(set c | c in contexts && c !in old(contexts))
      ensures (model, outcome) == EventTable.AddEvent(old(model), fd, e, Waiter(scheduler, fiber, callback), refuse)
    {
      if |contexts| <= fd {
        ContextResize(fd * 3 / 2);
      }
      var ctx := contexts[fd];
      if Has(ctx.events, e) {
        return Abort;
      }
      var events := With(ctx.events, e);
      var accepted := EpollCtl(if ctx.events != NONE then MOD else ADD, fd, events, refuse);
      if !accepted {
        return Refused;
      }
      if At(ctx.AsFd(), e) != EMPTY {
        return Abort;
      }
      Register(ctx, events, e, Waiter(scheduler, fiber, callback));
      return Ok;
    }

    /** The waiter is stored and counted. */
    method Register(ctx: FdContext, events: Mask, e: Event, who: Context)
      requires Valid() && ctx in contexts
      modifies `pendingEventCount, `model, ctx
      ensures Valid()
      ensures model == old(model).(
                         fds := old(model).fds[ctx.fd := Put(old(ctx.AsFd()), e, who).(events := events)],
                         pending := old(model).pending + 1, added := old(model).added + multiset{who})
    {
      pendingEventCount := pendingEventCount + 1;
      ctx.events := events;
      ctx.SetContext(e, who);
      model := model.(fds := model.fds[ctx.fd := ctx.AsFd()], pending := pendingEventCount,
                      added := model.added + multiset{who});
    }

    method DelEvent(fd: nat, e: Event, refuse: bool) returns (outcome: Outcome)
      requires Valid()
      modifies this, contexts
      ensures Valid() && contexts == old(contexts)
      ensures (model, outcome) == EventTable.DelEvent(old(model), fd, e, refuse)
    {
      if |contexts| <= fd {
        return Refused;
      }
      var ctx := contexts[fd];
      if TurnedAway(ctx.events, e) {
        return Refused;
      }
      var left := Without(ctx.events, e);
      var accepted := EpollCtl(if left != NONE then MOD else DEL, fd, left, refuse);
      if !accepted {
        return Refused;
      }
      pendingEventCount := pendingEventCount - 1;
      ctx.events := left;
      ghost var gone := At(ctx.AsFd(), e);
      ctx.SetContext(e, EMPTY);
      model := model.(fds := model.fds[fd := ctx.AsFd()], pending := pendingEventCount,
                      dropped := model.dropped + if gone != EMPTY then multiset{gone} else multiset{});
      return Ok;
    }

    /** Trigger a registered event, hand its waiter over, and count it off. */
    method Fire(fd: nat, e: Event)
      requires Valid() && fd < |contexts| && Has(contexts[fd].events, e)
      modifies this, contexts
      ensures Valid() && contexts == old(contexts)
      ensures model == Trigger(old(model), fd, e)
    {
      var waiter := contexts[fd].TriggerEvent(e);
      scheduled := scheduled + [waiter];
      pendingEventCount := pendingEventCount - 1;
      model := Trigger(model, fd, e);
    }

    method CancelEvent(fd: nat, e: Event, refuse: bool) returns (outcome: Outcome)
      requires Valid()
      modifies this, contexts
      ensures Valid() && contexts == old(contexts)
      ensures (model, outcome) == EventTable.CancelEvent(old(model), fd, e, refuse)
    {
      if |contexts| <= fd {
        return Refused;
      }
      var ctx := contexts[fd];
      if TurnedAway(ctx.events, e) {
        return Refused;
      }
      var left := Without(ctx.events, e);
      var accepted := EpollCtl(if left != NONE then MOD else DEL, fd, left, refuse);
      if !accepted {
        return Refused;
      }
      if !Has(ctx.events, e) {
        return Abort;
      }
      Fire(fd, e);
      return Ok;
    }

    method FireAll(fd: nat, which: Mask) returns (outcome: Outcome)
      requires Valid() && fd < |contexts|
      modifies this, contexts
      ensures Valid() && contexts == old(contexts)
      ensures (model, outcome) == TriggerAll(old(model), fd, which)
    {
      if which.read {
        if !contexts[fd].events.read {
          return Abort;
        }
        Fire(fd, READ);
      }
      if which.write {
        if !contexts[fd].events.write {
          return Abort;
        }
        Fire(fd, WRITE);
      }
      return Ok;
    }

    method CancelAll(fd: nat, refuse: bool) returns (outcome: Outcome)
      requires Valid()
      modifies this, contexts
      ensures Valid() && contexts == old(contexts)
      ensures (model, outcome) == EventTable.CancelAll(old(model), fd, refuse)
    {
      if |contexts| <= fd {
        return Refused;
      }
      if contexts[fd].events == NONE {
        return Refused;
      }
      var accepted := EpollCtl(DEL, fd, NONE, refuse);
      if !accepted {
        return Refused;
      }
      outcome := FireAll(fd, contexts[fd].events);
    }

    /** One report of epoll_wait. */
    method Dispatch(fd: nat, reported: Mask, broken: bool, refuse: bool) returns (outcome: Outcome)
      requires Valid() && fd < |contexts|
      modifies this, contexts
      ensures Valid() && contexts == old(contexts)
      ensures (model, outcome) == EventTable.Dispatch(old(model), fd, reported, broken, refuse)
    {
      var ctx := contexts[fd];
      var due := RealEvents(ctx.events, reported, broken);
      if !Meets(ctx.events, due) {
        return Refused;
      }
      var left := Minus(ctx.events, due);
      var accepted := EpollCtl(if left != NONE then MOD else DEL, fd, left, refuse);
      if !accepted {
        return Refused;
      }
      outcome := FireAll(fd, due);
    }
  }
}

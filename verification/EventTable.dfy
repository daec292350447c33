/** The per-descriptor event table of the IO manager as a value (src/IoManager.cpp).

    The kernel is a map from descriptors to interest masks.  It rejects an ADD for a known
    descriptor and a MOD or DEL for an unknown one; it may also refuse for reasons of its own,
    which is an input.  An assertion failure of the program is the outcome Abort. */
module EventTable {
  import opened Wrappers
  import opened Multisets

  datatype Event = READ | WRITE

  datatype Mask = Mask(read: bool, write: bool)

  const NONE := Mask(false, false)

  predicate Has(m: Mask, e: Event) {
    if e.READ? then m.read else m.write
  }

  function With(m: Mask, e: Event): Mask {
    if e.READ? then m.(read := true) else m.(write := true)
  }

  function Without(m: Mask, e: Event): Mask {
    if e.READ? then m.(read := false) else m.(write := false)
  }

  function Minus(m: Mask, other: Mask): Mask {
    Mask(m.read && !other.read, m.write && !other.write)
  }

  predicate Meets(m: Mask, other: Mask) {
    (m.read && other.read) || (m.write && other.write)
  }

  predicate Within(m: Mask, other: Mask) {
    (m.read ==> other.read) && (m.write ==> other.write)
  }

  /** Who is to be scheduled when an event fires. */
  datatype Context = Context(scheduler: Option<nat>, fiber: Option<nat>, callback: Option<nat>)

  const EMPTY := Context(None, None, None)

  /** What `addEvent` stores: the callback if there is one, the running fiber otherwise. */
  function Waiter(scheduler: nat, fiber: nat, callback: Option<nat>): Context {
    if callback.Some? then Context(Some(scheduler), None, callback) else Context(Some(scheduler), Some(fiber), None)
  }

  datatype Fd = Fd(events: Mask, read: Context, write: Context)

  const IDLE := Fd(NONE, EMPTY, EMPTY)

  function At(f: Fd, e: Event): Context {
    if e.READ? then f.read else f.write
  }

  function Put(f: Fd, e: Event, c: Context): Fd {
    if e.READ? then f.(read := c) else f.(write := c)
  }

  /** `scheduled` lists what was handed to a scheduler; `added` and `dropped` are the
      registrations accepted, and those deleted without being scheduled.  The counter is
      kept as an integer: fewer than 2^64 events are ever registered at once. */
  datatype Table = Table(
    fds: seq<Fd>, pending: int, kernel: map<nat, Mask>, scheduled: seq<Context>,
    added: multiset<Context>, dropped: multiset<Context>)

  datatype Outcome = Ok | Refused | Abort

  datatype CtlOp = ADD | MOD | DEL

  function EpollCtl(kernel: map<nat, Mask>, op: CtlOp, fd: nat, mask: Mask, refuse: bool): Option<map<nat, Mask>> {
    if refuse || (op.ADD? <==> fd in kernel) then None
    else if op.DEL? then Some(kernel - {fd})
    else Some(kernel[fd := mask])
  }

  /** `contextResize`: missing contexts are created empty. */
  function Resized(fds: seq<Fd>, size: nat): seq<Fd> {
    if size <= |fds| then fds[..size] else fds + seq(size - |fds|, i => IDLE)
  }

  /** The table a call to `addEvent` looks the descriptor up in. */
  function Roomy(fds: seq<Fd>, fd: nat): seq<Fd> {
    if |fds| > fd then fds else Resized(fds, fd * 3 / 2)
  }

  /** A descriptor's event fires: its bit is cleared and its waiter handed out.  Swapping
      the waiter out leaves an empty context. */
  function Trigger(t: Table, fd: nat, e: Event): (r: Table)
    requires fd < |t.fds|
    ensures |r.fds| == |t.fds|
  {
    var f := t.fds[fd];
    t.(fds := t.fds[fd := Put(f, e, EMPTY).(events := Without(f.events, e))],
    scheduled := t.scheduled + [At(f, e)], pending := t.pending - 1)
  }

  function AddEvent(t: Table, fd: nat, e: Event, who: Context, refuse: bool): (Table, Outcome)
    requires fd < |Roomy(t.fds, fd)|
  {
    var fds := Roomy(t.fds, fd);
    var f := fds[fd];
    if Has(f.events, e) then (t.(fds := fds), Abort)
    else
      var events := With(f.events, e);
      match EpollCtl(t.kernel, if f.events != NONE then MOD else ADD, fd, events, refuse)
      case None => (t.(fds := fds), Refused)
      case Some(kernel) =>
        if At(f, e) != EMPTY then (t.(fds := fds, kernel := kernel), Abort)
        else (t.(fds := fds[fd := Put(f, e, who).(events := events)], kernel := kernel,
              pending := t.pending + 1, added := t.added + multiset{who}), Ok)
  }

  /** The guard of `delEvent` and `cancelEvent`: the logical negation of the mask, and-ed with
      the bit.  Since READ is the lowest bit, only READ on an idle descriptor is turned away. */
  predicate TurnedAway(events: Mask, e: Event) {
    events == NONE && e.READ?
  }

  function Narrow(t: Table, fd: nat, left: Mask, refuse: bool): Option<map<nat, Mask>> {
    EpollCtl(t.kernel, if left != NONE then MOD else DEL, fd, left, refuse)
  }

  function DelEvent(t: Table, fd: nat, e: Event, refuse: bool): (Table, Outcome) {
    if |t.fds| <= fd || TurnedAway(t.fds[fd].events, e) then (t, Refused)
    else
      var f := t.fds[fd];
      var left := Without(f.events, e);
      match Narrow(t, fd, left, refuse)
      case None => (t, Refused)
      case Some(kernel) =>
        (t.(fds := t.fds[fd := Put(f, e, EMPTY).(events := left)], kernel := kernel, pending := t.pending - 1,
         dropped := t.dropped + if At(f, e) != EMPTY then multiset{At(f, e)} else multiset{}), Ok)
  }

  function CancelEvent(t: Table, fd: nat, e: Event, refuse: bool): (Table, Outcome) {
    if |t.fds| <= fd || TurnedAway(t.fds[fd].events, e) then (t, Refused)
    else
      match Narrow(t, fd, Without(t.fds[fd].events, e), refuse)
      case None => (t, Refused)
      case Some(kernel) =>
        if !Has(t.fds[fd].events, e) then (t.(kernel := kernel), Abort)
        else (Trigger(t.(kernel := kernel), fd, e), Ok)
  }

  /** Fire the given events one after the other, as far as the assertion allows. */
  function TriggerAll(t: Table, fd: nat, which: Mask): (Table, Outcome)
    requires fd < |t.fds|
  {
    if which.read && !t.fds[fd].events.read then (t, Abort)
    else
      var t1 := if which.read then Trigger(t, fd, READ) else t;
      if which.write && !t1.fds[fd].events.write then (t1, Abort)
      else (if which.write then Trigger(t1, fd, WRITE) else t1, Ok)
  }

  function CancelAll(t: Table, fd: nat, refuse: bool): (Table, Outcome) {
    if |t.fds| <= fd || t.fds[fd].events == NONE then (t, Refused)
    else
      match EpollCtl(t.kernel, DEL, fd, NONE, refuse)
      case None => (t, Refused)
      case Some(kernel) => TriggerAll(t.(kernel := kernel), fd, t.fds[fd].events)
  }

  /** The events `idle` acts on: those reported, and on an error or hang-up those registered. */
  function RealEvents(events: Mask, reported: Mask, broken: bool): Mask {
    Mask(reported.read || (broken && events.read), reported.write || (broken && events.write))
  }

  /** One turn of the loop in `idle`. */
  function Dispatch(t: Table, fd: nat, reported: Mask, broken: bool, refuse: bool): (Table, Outcome)
    requires fd < |t.fds|
  {
    var events := t.fds[fd].events;
    var due := RealEvents(events, reported, broken);
    if !Meets(events, due) then (t, Refused)
    else
      match Narrow(t, fd, Minus(events, due), refuse)
      case None => (t, Refused)
      case Some(kernel) => TriggerAll(t.(kernel := kernel), fd, due)
  }

  // ------------------------------------------------------------------ invariant

  function Bit(b: bool): nat {
    if b then 1 else 0
  }

  function Total(fds: seq<Fd>): nat {
    if fds == [] then 0 else Bit(fds[0].events.read) + Bit(fds[0].events.write) + Total(fds[1..])
  }

  function Registered(f: Fd): multiset<Context> {
    (if f.events.read then multiset{f.read} else multiset{})
        + (if f.events.write then multiset{f.write} else multiset{})
  }

  function Live(fds: seq<Fd>): multiset<Context> {
    if fds == [] then multiset{} else Registered(fds[0]) + Live(fds[1..])
  }

  /** A bit is set exactly when its context has a scheduler and one of fiber and callback;
      otherwise the context is empty. */
  predicate Slot(bit: bool, c: Context) {
    if bit then c.scheduler.Some? && (c.fiber.Some? <==> c.callback.None?) else c == EMPTY
  }

  predicate Sound(f: Fd) {
    Slot(f.events.read, f.read) && Slot(f.events.write, f.write)
  }

  ghost predicate InKernel(t: Table) {
    && (forall fd :: 0 <= fd < |t.fds| && t.fds[fd].events != NONE ==>
          fd in t.kernel && t.kernel[fd] == t.fds[fd].events)
    && (forall fd :: fd in t.kernel ==> fd < |t.fds| && t.fds[fd].events != NONE)
  }

  ghost predicate Counted(t: Table) {
    && t.pending == Total(t.fds)
    && t.added == t.dropped + multiset(t.scheduled) + Live(t.fds)
  }

  ghost predicate Inv(t: Table) {
    && |t.fds| >= 32
    && (forall fd :: 0 <= fd < |t.fds| ==> Sound(t.fds[fd]))
    && InKernel(t) && Counted(t)
  }

  function Fresh(): Table {
    Table(Resized([], 32), 0, map[], [], multiset{}, multiset{})
  }

  lemma {:induction false} TotalMoves(fds: seq<Fd>, i: nat, f: Fd)
    requires i < |fds|
    ensures Total(fds[i := f]) + Bit(fds[i].events.read) + Bit(fds[i].events.write)
         == Total(fds) + Bit(f.events.read) + Bit(f.events.write)
  {
    if i == 0 {
      assert fds[i := f][1..] == fds[1..];
    } else {
      assert fds[i := f][1..] == fds[1..][i - 1 := f];
      TotalMoves(fds[1..], i - 1, f);
    }
  }

  lemma {:induction false} LiveMoves(fds: seq<Fd>, i: nat, f: Fd)
    requires i < |fds|
    ensures Live(fds[i := f]) + Registered(fds[i]) == Live(fds) + Registered(f)
  {
    if i == 0 {
      assert fds[i := f][1..] == fds[1..];
    } else {
      assert fds[i := f][1..] == fds[1..][i - 1 := f];
      LiveMoves(fds[1..], i - 1, f);
      Swapped(Live(fds[1..][i - 1 := f]), Live(fds[1..]), Registered(fds[i]), Registered(f), Registered(fds[0]));
    }
  }

  lemma {:induction false} IdleAddsNothing(fds: seq<Fd>, more: nat)
    ensures Total(fds + seq(more, i => IDLE)) == Total(fds)
    ensures Live(fds + seq(more, i => IDLE)) == Live(fds)
    decreases |fds| + more
  {
    var all := fds + seq(more, i => IDLE);
    if fds != [] {
      assert all[1..] == fds[1..] + seq(more, i => IDLE);
      IdleAddsNothing(fds[1..], more);
    } else if more > 0 {
      assert all[1..] == [] + seq(more - 1, i => IDLE);
      IdleAddsNothing([], more - 1);
    }
  }

  lemma FreshIsGood()
    ensures Inv(Fresh())
  {
    FreshFds(Fresh().fds);
  }

  lemma FreshFds(fds: seq<Fd>)
    requires fds == Resized([], 32)
    ensures |fds| == 32 && Total(fds) == 0 && Live(fds) == multiset{}
    ensures forall fd :: 0 <= fd < |fds| ==> fds[fd] == IDLE
  {
    IdleAddsNothing([], 32);
    assert [] + seq(32, i => IDLE) == fds;
  }

  /** The growth factor always makes room. */
  lemma RoomyFds(fds: seq<Fd>, fd: nat, fds': seq<Fd>)
    requires |fds| >= 32 && fds' == Roomy(fds, fd)
    ensures |fds'| == if fd < |fds| then |fds| else fd + fd / 2
    ensures fd < |fds'| && |fds| <= |fds'| && Total(fds') == Total(fds) && Live(fds') == Live(fds)
    ensures forall i :: 0 <= i < |fds| ==> fds'[i] == fds[i]
    ensures forall i :: |fds| <= i < |fds'| ==> fds'[i] == IDLE
  {
    if |fds| <= fd {
      IdleAddsNothing(fds, fd * 3 / 2 - |fds|);
    }
  }

  lemma RoomyKeeps(t: Table, fd: nat)
    requires Inv(t)
    ensures fd < |Roomy(t.fds, fd)| && Inv(t.(fds := Roomy(t.fds, fd)))
    ensures forall i :: 0 <= i < |t.fds| ==> Roomy(t.fds, fd)[i] == t.fds[i]
  {
    var fds := Roomy(t.fds, fd);
    RoomyFds(t.fds, fd, fds);
    RoomyInv(t, t.(fds := fds));
  }

  lemma RoomyInv(t: Table, t': Table)
    requires Inv(t) && t' == t.(fds := t'.fds) && |t.fds| <= |t'.fds|
    requires Total(t'.fds) == Total(t.fds) && Live(t'.fds) == Live(t.fds)
    requires forall i :: 0 <= i < |t.fds| ==> t'.fds[i] == t.fds[i]
    requires forall i :: |t.fds| <= i < |t'.fds| ==> t'.fds[i] == IDLE
    ensures Inv(t')
  {
    assert Counted(t');
    RoomyInKernel(t, t');
    forall i | 0 <= i < |t'.fds|
      ensures Sound(t'.fds[i])
    {
      assert i < |t.fds| ==> Sound(t.fds[i]);
    }
  }

  lemma RoomyInKernel(t: Table, t': Table)
    requires InKernel(t) && t'.kernel == t.kernel && |t.fds| <= |t'.fds|
    requires forall i :: 0 <= i < |t.fds| ==> t'.fds[i] == t.fds[i]
    requires forall i :: |t.fds| <= i < |t'.fds| ==> t'.fds[i] == IDLE
    ensures InKernel(t')
  {
  }

  /** A change confined to one descriptor, to its kernel entry and to the tallies: `more` is
      newly registered, `out` has been scheduled or dropped. */
  lemma OneFdChanges(t: Table, t': Table, fd: nat, more: multiset<Context>, out: multiset<Context>)
    requires Inv(t) && fd < |t.fds| && |t'.fds| == |t.fds| && t'.fds == t.fds[fd := t'.fds[fd]]
    requires Sound(t'.fds[fd])
    requires fd in t'.kernel <==> t'.fds[fd].events != NONE
    requires fd in t'.kernel ==> t'.kernel[fd] == t'.fds[fd].events
    requires t'.kernel - {fd} == t.kernel - {fd}
    requires t'.pending - Bit(t'.fds[fd].events.read) - Bit(t'.fds[fd].events.write)
          == t.pending - Bit(t.fds[fd].events.read) - Bit(t.fds[fd].events.write)
    requires t'.added == t.added + more
    requires t'.dropped + multiset(t'.scheduled) == t.dropped + multiset(t.scheduled) + out
    requires Registered(t'.fds[fd]) + out == Registered(t.fds[fd]) + more
    ensures Inv(t')
  {
    TotalMoves(t.fds, fd, t'.fds[fd]);
    OthersInKernel(t, t', fd);
    StaysTallied(t, t', fd, more, out);
  }

  lemma OthersInKernel(t: Table, t': Table, fd: nat)
    requires InKernel(t) && fd < |t.fds| && |t'.fds| == |t.fds| && t'.fds == t.fds[fd := t'.fds[fd]]
    requires fd in t'.kernel <==> t'.fds[fd].events != NONE
    requires fd in t'.kernel ==> t'.kernel[fd] == t'.fds[fd].events
    requires t'.kernel - {fd} == t.kernel - {fd}
    ensures InKernel(t')
  {
    forall i | i != fd
      ensures i in t'.kernel <==> i in t.kernel
      ensures i in t'.kernel ==> t'.kernel[i] == t.kernel[i]
    {
      assert i in t'.kernel - {fd} <==> i in t.kernel - {fd};
      assert i in t'.kernel ==> (t'.kernel - {fd})[i] == (t.kernel - {fd})[i];
    }
  }

  lemma StaysTallied(t: Table, t': Table, fd: nat, more: multiset<Context>, out: multiset<Context>)
    requires fd < |t.fds| && |t'.fds| == |t.fds| && t'.fds == t.fds[fd := t'.fds[fd]]
    requires t.added == t.dropped + multiset(t.scheduled) + Live(t.fds)
    requires t'.added == t.added + more
    requires t'.dropped + multiset(t'.scheduled) == t.dropped + multiset(t.scheduled) + out
    requires Registered(t'.fds[fd]) + out == Registered(t.fds[fd]) + more
    ensures t'.added == t'.dropped + multiset(t'.scheduled) + Live(t'.fds)
  {
    LiveMoves(t.fds, fd, t'.fds[fd]);
    Cancelled(Live(t.fds), Live(t'.fds), Registered(t.fds[fd]), Registered(t'.fds[fd]),
              t.dropped + multiset(t.scheduled), more, out);
  }
}

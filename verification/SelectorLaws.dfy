/** What selector calls amount to: the entry of a descriptor in the table is decided by the
    last calls on it that speak of its parts. */
module SelectorLaws {
  import opened Wrappers
  import opened SelectorTable
  import opened Dispatch

  datatype Bit = Reading | Writing

  function BitOf(i: Interest, b: Bit): bool {
    match b case Reading => i.read case Writing => i.write
  }

  predicate Succeeded(a: Action, fd: int) {
    a.Did? && a.op.fd == fd && a.status.Success?
  }

  /** What a call on `fd` says about one bit of its interest: a registration and a setting
      give it, an addition can only raise it, a removal only clear it. */
  function Said(a: Action, fd: int, b: Bit): Option<bool> {
    if !Succeeded(a, fd) then None else
    match a.op
    case Register(_, _, interest, _) => Some(BitOf(interest, b))
    case SetInterest(_, i) => Some(BitOf(i, b))
    case AddInterest(_, i) => if BitOf(i, b) then Some(true) else None
    case RemoveInterest(_, i) => if BitOf(i, b) then Some(false) else None
    case Unregister(_) => None
  }

  function LastSaid(bit: bool, log: Log, fd: int, b: Bit): bool
    decreases |log|
  {
    if log == [] then bit
    else LastSaid(if Said(log[0], fd, b).Some? then Said(log[0], fd, b).value else bit, log[1..], fd, b)
  }

  function LastHandler(handler: Handler, log: Log, fd: int): Handler
    decreases |log|
  {
    if log == [] then handler
    else
      var now := if Registers(log[0], fd) && log[0].op.handler.Some? then log[0].op.handler.value else handler;
      LastHandler(now, log[1..], fd)
  }

  /** Whether the last successful registration or unregistration of `fd` was the former. */
  function LastRegistered(registered: bool, log: Log, fd: int): bool
    decreases |log|
  {
    if log == [] then registered
    else
      var now := if Registers(log[0], fd) then true
                 else if Unregisters(log[0]) && log[0].op.fd == fd then false
                 else registered;
      LastRegistered(now, log[1..], fd)
  }

  lemma {:induction false} RegisteredIsLast(t: Table, log: Log, fd: int)
    requires Always(t, log, Truthful())
    ensures fd in Replay(t, log) <==> LastRegistered(fd in t, log, fd)
    decreases |log|
  {
    if log != [] { RegisteredIsLast(Effect(t, log[0]), log[1..], fd); }
  }

  lemma {:induction false} InterestIsLast(t: Table, log: Log, fd: int, bit: bool, b: Bit)
    requires Always(t, log, Truthful()) && fd in Replay(t, log)
    requires fd in t ==> BitOf(t[fd].interest, b) == bit
    ensures BitOf(Replay(t, log)[fd].interest, b) == LastSaid(bit, log, fd, b)
    decreases |log|
  {
    if log != [] {
      var said := Said(log[0], fd, b);
      InterestIsLast(Effect(t, log[0]), log[1..], fd, if said.Some? then said.value else bit, b);
    }
  }

  lemma {:induction false} HandlerIsLast(t: Table, log: Log, fd: int, handler: Handler)
    requires Always(t, log, Truthful()) && fd in Replay(t, log)
    requires fd in t ==> t[fd].handler == handler
    ensures Replay(t, log)[fd].handler == LastHandler(handler, log, fd)
    decreases |log|
  {
    if log != [] {
      var now := if Registers(log[0], fd) && log[0].op.handler.Some? then log[0].op.handler.value else handler;
      HandlerIsLast(Effect(t, log[0]), log[1..], fd, now);
    }
  }

  /** The whole entry of a descriptor after any calls, whoever makes them: it is there iff
      the last registration or unregistration was the former; its handler and data are those
      of the last registration; each bit of its interest is what the last call said that
      speaks of it. */
  lemma EntryIsHistory(t: Table, log: Log, fd: int, start: Registration)
    requires Always(t, log, Truthful()) && (fd in t ==> t[fd] == start)
    ensures fd in Replay(t, log) <==> LastRegistered(fd in t, log, fd)
    ensures fd in Replay(t, log) ==>
              var entry := Replay(t, log)[fd];
              && entry.handler == LastHandler(start.handler, log, fd)
              && entry.data == LastData(start.data, log, fd)
              && entry.interest.read == LastSaid(start.interest.read, log, fd, Reading)
              && entry.interest.write == LastSaid(start.interest.write, log, fd, Writing)
  {
    RegisteredIsLast(t, log, fd);
    if fd in Replay(t, log) {
      HandlerIsLast(t, log, fd, start.handler);
      DataIsLast(t, log, fd, start.data);
      InterestIsLast(t, log, fd, start.interest.read, Reading);
      InterestIsLast(t, log, fd, start.interest.write, Writing);
    }
  }

  /** The statuses of the calls a scan or a drain logs: a registration succeeds iff the
      descriptor is one the platform can wait for, a handler is given and it is free, and a
      free descriptor is what every other call fails on. */
  lemma StatusesExactly(t: Table, log: Log, p: nat)
    requires Always(t, log, Truthful()) && p < |log| && log[p].Did?
    ensures var now, op, status := Replay(t, log[..p]), log[p].op, log[p].status;
            && (status.Success? || status.FdInUse? || status.BadArguments?)
            && (status.FdInUse? ==> op.Register?)
            && if op.Register? then
                 && (status.Success? <==> 0 <= op.fd < 1024 && op.handler.Some? && op.fd !in now)
                 && (status.FdInUse? <==> 0 <= op.fd < 1024 && op.handler.Some? && op.fd in now)
               else status.Success? <==> 0 <= op.fd < 1024 && op.fd in now
  {
    AlwaysAt(t, log, Truthful(), p);
  }

  /** Scans and drains log true statuses, so all of this holds of them. */
  lemma {:induction false} DrainIsTruthful(t: Table, jobs: seq<int>, log: Log, callbacks: Callbacks)
    ensures Always(t, Drain(t, jobs, log, callbacks), Truthful())
    decreases |jobs|
  {
    if jobs != [] {
      var fd := jobs[0];
      var first := Settle(t, fd, log, callbacks);
      if fd in t { CallBackIsTruthful(OnBlock, fd, t[fd].data, t, log, callbacks); }
      assert Always(t, first, Truthful());
      if !Halted(first) {
        DrainIsTruthful(Replay(t, first), jobs[1..], log + first, callbacks);
        AlwaysConcat(t, first, Drain(Replay(t, first), jobs[1..], log + first, callbacks), Truthful());
      }
    }
  }
}

/** The selector seen from outside: which descriptors are registered, with which
    handler, interests and data, and what each call does to that table. */
module SelectorTable {
  import opened Wrappers

  const ITEMS_MAX_SIZE: nat := 1024

  datatype Interest = Interest(read: bool, write: bool) {
    function On(other: Interest): Interest {
      Interest(read || other.read, write || other.write)
    }

    function Off(other: Interest): Interest {
      Interest(read && !other.read, write && !other.write)
    }
  }

  const NOOP := Interest(false, false)
  const READ := Interest(true, false)
  const WRITE := Interest(false, true)

  /** Which of the callbacks of a handler are present. */
  datatype Handler = Handler(read: bool, write: bool, block: bool, close: bool)

  datatype Registration = Registration(handler: Handler, interest: Interest, data: int)

  type Table = map<int, Registration>

  datatype Status = Success | NoMemory | MaxFd | BadArguments | FdInUse | IoError

  datatype Op =
    | Register(fd: int, handler: Option<Handler>, interest: Interest, data: int)
    | Unregister(fd: int)
    | AddInterest(fd: int, change: Interest)
    | RemoveInterest(fd: int, change: Interest)
    | SetInterest(fd: int, change: Interest)

  predicate ValidFd(fd: int) {
    0 <= fd < ITEMS_MAX_SIZE
  }

  /** The status a call returns once the item array covers every descriptor. */
  function StatusOf(t: Table, op: Op): Status {
    if !ValidFd(op.fd) then BadArguments
    else if op.Register? then
      if op.handler.None? then BadArguments else if op.fd in t then FdInUse else Success
    else if op.fd in t then Success
    else BadArguments
  }

  /** The table after a call; a call that does not succeed changes nothing. */
  function Apply(t: Table, op: Op): Table {
    if !StatusOf(t, op).Success? then t else
    match op
    case Register(fd, handler, interest, data) => t[fd := Registration(handler.value, interest, data)]
    case Unregister(fd) => t - {fd}
    case AddInterest(fd, i) => t[fd := t[fd].(interest := t[fd].interest.On(i))]
    case RemoveInterest(fd, i) => t[fd := t[fd].(interest := t[fd].interest.Off(i))]
    case SetInterest(fd, i) => t[fd := t[fd].(interest := i)]
  }

  function ApplyAll(t: Table, ops: seq<Op>): Table
    decreases |ops|
  {
    if ops == [] then t else ApplyAll(Apply(t, ops[0]), ops[1..])
  }

  predicate ValidTable(t: Table) {
    forall fd :: fd in t ==> ValidFd(fd)
  }
}

/** One scan of the descriptors after `pselect`, and one drain of the finished
    blocking jobs, with callbacks that may call the selector in any way.

    A callback is an arbitrary function of everything logged so far: it answers
    with the selector calls it makes.  The log holds each callback and each call
    made by a callback, in order. */
module Dispatch {
  import opened Wrappers
  import opened SelectorTable

  datatype Kind = OnRead | OnWrite | OnBlock

  datatype Action =
    | Called(kind: Kind, fd: int, data: int)   // a callback was entered with this key
    | Did(op: Op, status: Status)              // a callback made this selector call
    | Closed(fd: int, data: int)               // on its way, the call entered the close callback
    | Dropped(fd: int)                         // a finished job found its descriptor unused
    | Aborted                                  // the needed callback was missing

  type Log = seq<Action>

  type Callbacks = Log -> seq<Op>

  function Effect(t: Table, a: Action): Table {
    if a.Did? then Apply(t, a.op) else t
  }

  /** The table after the logged calls. */
  function Replay(t: Table, log: Log): Table
    decreases |log|
  {
    if log == [] then t else Replay(Effect(t, log[0]), log[1..])
  }

  /** The close callback an unregistration runs first, with the data of the registration. */
  function Closing(t: Table, op: Op): Log {
    if op.Unregister? && StatusOf(t, op).Success? && t[op.fd].handler.close then [Closed(op.fd, t[op.fd].data)]
    else []
  }

  function Answer(t: Table, op: Op): Log {
    Closing(t, op) + [Did(op, StatusOf(t, op))]
  }

  function Respond(t: Table, ops: seq<Op>): Log
    decreases |ops|
  {
    if ops == [] then [] else Answer(t, ops[0]) + Respond(Apply(t, ops[0]), ops[1..])
  }

  /** What a callback leaves in the log after its entry. */
  predicate ByCallback(a: Action) {
    a.Did? || a.Closed?
  }

  function CallBack(kind: Kind, fd: int, data: int, t: Table, log: Log, callbacks: Callbacks): Log {
    var entry := [Called(kind, fd, data)];
    entry + Respond(t, callbacks(log + entry))
  }

  predicate Halted(log: Log) {
    log != [] && log[|log| - 1] == Aborted
  }

  function ReadPart(t: Table, fd: int, r: set<int>, log: Log, callbacks: Callbacks): Log
    requires fd in t
  {
    if fd !in r || !t[fd].interest.read then []
    else if !t[fd].handler.read then [Aborted]
    else CallBack(OnRead, fd, t[fd].data, t, log, callbacks)
  }

  /** `data` is the value fetched before the read callback ran. */
  function WritePart(t: Table, fd: int, data: int, w: set<int>, log: Log, callbacks: Callbacks): Log {
    if fd !in w || fd !in t || !t[fd].interest.write then []
    else if !t[fd].handler.write then [Aborted]
    else CallBack(OnWrite, fd, data, t, log, callbacks)
  }

  function Turn(t: Table, fd: int, r: set<int>, w: set<int>, log: Log, callbacks: Callbacks): Log {
    if fd !in t then [] else
    var first := ReadPart(t, fd, r, log, callbacks);
    if Halted(first) then first
    else first + WritePart(Replay(t, first), fd, t[fd].data, w, log + first, callbacks)
  }

  /** What a scan of the descriptors `fd..n` adds to the log. */
  function Scan(t: Table, fd: nat, n: int, r: set<int>, w: set<int>, log: Log, callbacks: Callbacks): Log
    decreases n + 1 - fd
  {
    if fd > n then [] else
    var turn := Turn(t, fd, r, w, log, callbacks);
    if Halted(turn) then turn
    else turn + Scan(Replay(t, turn), fd + 1, n, r, w, log + turn, callbacks)
  }

  function Settle(t: Table, fd: int, log: Log, callbacks: Callbacks): Log {
    if fd !in t then [Dropped(fd)]
    else if !t[fd].handler.block then [Aborted]
    else CallBack(OnBlock, fd, t[fd].data, t, log, callbacks)
  }

  /** What draining `jobs` adds to the log. */
  function Drain(t: Table, jobs: seq<int>, log: Log, callbacks: Callbacks): Log
    decreases |jobs|
  {
    if jobs == [] then [] else
    var first := Settle(t, jobs[0], log, callbacks);
    if Halted(first) then first
    else first + Drain(Replay(t, first), jobs[1..], log + first, callbacks)
  }

  // ----- replaying a log

  lemma {:induction false} ReplayConcat(t: Table, a: Log, b: Log)
    ensures Replay(t, a + b) == Replay(Replay(t, a), b)
    decreases |a|
  {
    if a == [] {
      assert a + b == b;
    } else {
      assert (a + b)[1..] == a[1..] + b;
      ReplayConcat(Effect(t, a[0]), a[1..], b);
    }
  }

  lemma {:induction false} RespondReplays(t: Table, ops: seq<Op>)
    ensures Replay(t, Respond(t, ops)) == ApplyAll(t, ops)
    ensures forall p :: 0 <= p < |Respond(t, ops)| ==> ByCallback(Respond(t, ops)[p])
    decreases |ops|
  {
    if ops != [] {
      AnswerReplays(t, ops[0]);
      RespondReplays(Apply(t, ops[0]), ops[1..]);
      ReplayConcat(t, Answer(t, ops[0]), Respond(Apply(t, ops[0]), ops[1..]));
    }
  }

  lemma AnswerReplays(t: Table, op: Op)
    ensures Replay(t, Answer(t, op)) == Apply(t, op)
  {
    var did := Did(op, StatusOf(t, op));
    assert [did][1..] == [];
    assert Replay(t, [did]) == Apply(t, op);
    ReplayConcat(t, Closing(t, op), [did]);
    assert Closing(t, op) != [] ==> Closing(t, op)[1..] == [];
  }

  lemma HaltedConcat(done: Log, part: Log)
    requires !Halted(done)
    ensures Halted(done + part) == Halted(part)
  {
    if part == [] {
      assert done + part == done;
    } else {
      assert (done + part)[|done + part| - 1] == part[|part| - 1];
    }
  }

  /** The first of the calls a callback makes, and the others. */
  lemma PeelResponse(log: Log, t: Table, ops: seq<Op>)
    requires ops != []
    ensures log + Answer(t, ops[0]) + Respond(Apply(t, ops[0]), ops[1..]) == log + Respond(t, ops)
    ensures ApplyAll(Apply(t, ops[0]), ops[1..]) == ApplyAll(t, ops)
  {
    Reassociate(log, Answer(t, ops[0]), Respond(Apply(t, ops[0]), ops[1..]));
  }

  lemma CallBackReplays(kind: Kind, fd: int, data: int, t: Table, log: Log, callbacks: Callbacks)
    ensures var entry := [Called(kind, fd, data)];
            && Replay(t, CallBack(kind, fd, data, t, log, callbacks)) == ApplyAll(t, callbacks(log + entry))
            && log + CallBack(kind, fd, data, t, log, callbacks) == log + entry + Respond(t, callbacks(log + entry))
  {
    var entry := [Called(kind, fd, data)];
    var ops := callbacks(log + entry);
    RespondReplays(t, ops);
    ReplayConcat(t, entry, Respond(t, ops));
    assert Replay(t, entry) == t by { assert entry[1..] == []; }
    Reassociate(log, entry, Respond(t, ops));
  }

  // ----- what a log of callbacks must satisfy

  /** What an action of a log may be held to, given the table of its moment. */
  type Check = (Table, Action) -> bool

  /** The check holds of every action of the log. */
  ghost predicate Always(t: Table, log: Log, ok: Check)
    decreases |log|
  {
    log == [] || (ok(t, log[0]) && Always(Effect(t, log[0]), log[1..], ok))
  }

  lemma {:induction false} AlwaysConcat(t: Table, a: Log, b: Log, ok: Check)
    ensures Always(t, a + b, ok) <==> Always(t, a, ok) && Always(Replay(t, a), b, ok)
    decreases |a|
  {
    if a == [] {
      assert a + b == b;
    } else {
      assert (a + b)[0] == a[0] && (a + b)[1..] == a[1..] + b;
      AlwaysConcat(Effect(t, a[0]), a[1..], b, ok);
    }
  }

  lemma AlwaysAt(t: Table, log: Log, ok: Check, p: nat)
    requires Always(t, log, ok) && p < |log|
    ensures ok(Replay(t, log[..p]), log[p])
    ensures Always(t, log[..p], ok) && Always(Replay(t, log[..p]), log[p..], ok)
  {
    assert log == log[..p] + log[p..];
    AlwaysConcat(t, log[..p], log[p..], ok);
  }

  /** Every callback finds its descriptor registered, ready and interested, with
      the callback present, at the moment it is entered; the program aborts only when
      such a callback is missing. */
  function Due(r: set<int>, w: set<int>): Check {
    (now: Table, a: Action) => (a.Called? ==> IsDue(now, r, w, a)) && (a.Aborted? ==> IsMissing(now, r, w))
  }

  /** Some ready descriptor is interested in an event its handler has no callback for. */
  predicate IsMissing(now: Table, r: set<int>, w: set<int>) {
    exists fd :: fd in now && Misses(now, r, w, fd)
  }

  predicate Misses(now: Table, r: set<int>, w: set<int>, fd: int)
    requires fd in now
  {
    || (fd in r && now[fd].interest.read && !now[fd].handler.read)
    || (fd in w && now[fd].interest.write && !now[fd].handler.write)
  }

  /** A logged status is the one the call returned in the table of that moment. */
  function Truthful(): Check {
    (now: Table, a: Action) => a.Did? ==> a.status == StatusOf(now, a.op)
  }

  predicate IsDue(now: Table, r: set<int>, w: set<int>, call: Action)
    requires call.Called?
  {
    && call.fd in now
    && match call.kind
       case OnRead => call.fd in r && now[call.fd].interest.read && now[call.fd].handler.read
       case OnWrite => call.fd in w && now[call.fd].interest.write && now[call.fd].handler.write
       case OnBlock => now[call.fd].handler.block
  }

  ghost predicate Before(a: Action, b: Action)
    requires a.Called? && b.Called?
  {
    a.fd < b.fd || (a.fd == b.fd && a.kind == OnRead && b.kind == OnWrite)
  }

  /** Callbacks come in ascending order of descriptor, read before write. */
  ghost predicate Ascending(log: Log) {
    forall p, q :: 0 <= p < q < |log| && log[p].Called? && log[q].Called? ==> Before(log[p], log[q])
  }

  ghost predicate CallsWithin(log: Log, lo: int, hi: int) {
    forall p :: 0 <= p < |log| && log[p].Called? ==> lo <= log[p].fd <= hi && !log[p].kind.OnBlock?
  }

  lemma {:induction false} CallsAreNoCallbacks(t: Table, log: Log, r: set<int>, w: set<int>)
    requires forall p :: 0 <= p < |log| ==> ByCallback(log[p])
    ensures Always(t, log, Due(r, w))
    decreases |log|
  {
    if log != [] {
      assert ByCallback(log[0]);
      CallsAreNoCallbacks(Effect(t, log[0]), log[1..], r, w);
    }
  }

  lemma CallBackIsDue(kind: Kind, fd: int, data: int, t: Table, r: set<int>, w: set<int>, log: Log, callbacks: Callbacks)
    requires IsDue(t, r, w, Called(kind, fd, data))
    ensures Always(t, CallBack(kind, fd, data, t, log, callbacks), Due(r, w))
  {
    var ops := callbacks(log + [Called(kind, fd, data)]);
    var part := CallBack(kind, fd, data, t, log, callbacks);
    RespondReplays(t, ops);
    CallsAreNoCallbacks(t, Respond(t, ops), r, w);
    assert part[0] == Called(kind, fd, data) && part[1..] == Respond(t, ops);
  }

  lemma AbortIsDue(t: Table, r: set<int>, w: set<int>, fd: int)
    requires fd in t && Misses(t, r, w, fd)
    ensures Always(t, [Aborted], Due(r, w))
  {
    var log := [Aborted];
    assert log[0] == Aborted && log[1..] == [];
    assert IsMissing(t, r, w);
    assert Due(r, w)(t, Aborted);
  }

  lemma TurnIsDue(t: Table, fd: int, r: set<int>, w: set<int>, log: Log, callbacks: Callbacks)
    ensures Always(t, Turn(t, fd, r, w, log, callbacks), Due(r, w))
  {
    if fd in t {
      var first := ReadPart(t, fd, r, log, callbacks);
      CallBackShape(OnRead, fd, t[fd].data, t, log, callbacks);
      if first != [] && first != [Aborted] {
        CallBackIsDue(OnRead, fd, t[fd].data, t, r, w, log, callbacks);
      } else if first == [Aborted] {
        AbortIsDue(t, r, w, fd);
      }
      if !Halted(first) {
        var t1 := Replay(t, first);
        var second := WritePart(t1, fd, t[fd].data, w, log + first, callbacks);
        CallBackShape(OnWrite, fd, t[fd].data, t1, log + first, callbacks);
        if second != [] && second != [Aborted] {
          CallBackIsDue(OnWrite, fd, t[fd].data, t1, r, w, log + first, callbacks);
        } else if second == [Aborted] {
          AbortIsDue(t1, r, w, fd);
        }
        AlwaysConcat(t, first, second, Due(r, w));
      }
    }
  }

  lemma {:induction false} ScanAlwaysDue(t: Table, fd: nat, n: int, r: set<int>, w: set<int>, log: Log, callbacks: Callbacks)
    ensures Always(t, Scan(t, fd, n, r, w, log, callbacks), Due(r, w))
    decreases n + 1 - fd
  {
    if fd <= n {
      var turn := Turn(t, fd, r, w, log, callbacks);
      TurnIsDue(t, fd, r, w, log, callbacks);
      if !Halted(turn) {
        ScanAlwaysDue(Replay(t, turn), fd + 1, n, r, w, log + turn, callbacks);
        AlwaysConcat(t, turn, Scan(Replay(t, turn), fd + 1, n, r, w, log + turn, callbacks), Due(r, w));
      }
    }
  }

  /** Every callback of a scan hits a descriptor that is registered, ready and
      interested at that moment, whatever the earlier callbacks did. */
  lemma ScanCallsAreDue(t: Table, fd: nat, n: int, r: set<int>, w: set<int>, log: Log, callbacks: Callbacks)
    ensures var scan := Scan(t, fd, n, r, w, log, callbacks);
            && (forall p :: 0 <= p < |scan| && scan[p].Called? ==> IsDue(Replay(t, scan[..p]), r, w, scan[p]))
            && (forall p :: 0 <= p < |scan| && scan[p].Aborted? ==> IsMissing(Replay(t, scan[..p]), r, w))
  {
    var scan := Scan(t, fd, n, r, w, log, callbacks);
    ScanAlwaysDue(t, fd, n, r, w, log, callbacks);
    forall p | 0 <= p < |scan|
      ensures scan[p].Called? ==> IsDue(Replay(t, scan[..p]), r, w, scan[p])
      ensures scan[p].Aborted? ==> IsMissing(Replay(t, scan[..p]), r, w)
    {
      AlwaysAt(t, scan, Due(r, w), p);
    }
  }

  lemma CallBackShape(kind: Kind, fd: int, data: int, t: Table, log: Log, callbacks: Callbacks)
    ensures var part := CallBack(kind, fd, data, t, log, callbacks);
            part[0] == Called(kind, fd, data) && forall p :: 0 < p < |part| ==> ByCallback(part[p])
    ensures !Halted(CallBack(kind, fd, data, t, log, callbacks))
  {
    RespondReplays(t, callbacks(log + [Called(kind, fd, data)]));
  }

  /** Nothing, a lone abort, or one callback followed by the calls it makes. */
  ghost predicate OneCall(part: Log, kind: Kind, fd: int) {
    || part == []
    || part == [Aborted]
    || (part[0].Called? && part[0].kind == kind && part[0].fd == fd && forall p :: 0 < p < |part| ==> ByCallback(part[p]))
  }

  lemma TurnParts(t: Table, fd: int, r: set<int>, w: set<int>, log: Log, callbacks: Callbacks)
    requires fd in t
    ensures var first := ReadPart(t, fd, r, log, callbacks);
            && OneCall(first, OnRead, fd)
            && OneCall(WritePart(Replay(t, first), fd, t[fd].data, w, log + first, callbacks), OnWrite, fd)
  {
    var first := ReadPart(t, fd, r, log, callbacks);
    CallBackShape(OnRead, fd, t[fd].data, t, log, callbacks);
    CallBackShape(OnWrite, fd, t[fd].data, Replay(t, first), log + first, callbacks);
  }

  lemma TwoCallsInOrder(first: Log, second: Log, fd: int)
    requires OneCall(first, OnRead, fd) && OneCall(second, OnWrite, fd)
    ensures Ascending(first + second) && CallsWithin(first + second, fd, fd)
  {
    var c := first + second;
    forall p | 0 <= p < |c| && c[p].Called?
      ensures c[p].fd == fd && ((p == 0 && c[p].kind == OnRead) || (p == |first| && c[p].kind == OnWrite))
    {
    }
  }

  lemma TurnOrder(t: Table, fd: int, r: set<int>, w: set<int>, log: Log, callbacks: Callbacks)
    ensures var turn := Turn(t, fd, r, w, log, callbacks);
            Ascending(turn) && CallsWithin(turn, fd, fd)
  {
    if fd in t {
      var first := ReadPart(t, fd, r, log, callbacks);
      var second := WritePart(Replay(t, first), fd, t[fd].data, w, log + first, callbacks);
      TurnParts(t, fd, r, w, log, callbacks);
      TwoCallsInOrder(first, second, fd);
      assert first + [] == first;
      TwoCallsInOrder(first, [], fd);
    }
  }

  /** A scan goes in ascending order of descriptor with at most one read and one
      write callback each, and stays inside the range it was given. */
  lemma {:induction false} ScanAscends(t: Table, fd: nat, n: int, r: set<int>, w: set<int>, log: Log, callbacks: Callbacks)
    ensures var scan := Scan(t, fd, n, r, w, log, callbacks);
            Ascending(scan) && CallsWithin(scan, fd, n)
    decreases n + 1 - fd
  {
    if fd <= n {
      var turn := Turn(t, fd, r, w, log, callbacks);
      TurnOrder(t, fd, r, w, log, callbacks);
      if !Halted(turn) {
        ScanAscends(Replay(t, turn), fd + 1, n, r, w, log + turn, callbacks);
      }
    }
  }

  // ----- an unregistered descriptor gets no callback

  predicate Registers(a: Action, fd: int) {
    a.Did? && a.op.Register? && a.op.fd == fd && a.status.Success?
  }

  lemma {:induction false} StaysUnregistered(t: Table, log: Log, fd: int)
    requires fd !in t && Always(t, log, Truthful())
    requires forall p :: 0 <= p < |log| ==> !Registers(log[p], fd)
    ensures fd !in Replay(t, log)
    decreases |log|
  {
    if log != [] {
      assert !Registers(log[0], fd);
      assert forall p :: 0 <= p < |log[1..]| ==> log[1..][p] == log[p + 1];
      StaysUnregistered(Effect(t, log[0]), log[1..], fd);
    }
  }

  lemma {:induction false} RespondIsTruthful(t: Table, ops: seq<Op>)
    ensures Always(t, Respond(t, ops), Truthful())
    decreases |ops|
  {
    if ops != [] {
      AnswerReplays(t, ops[0]);
      RespondIsTruthful(Apply(t, ops[0]), ops[1..]);
      AnswerIsTruthful(t, ops[0]);
      AlwaysConcat(t, Answer(t, ops[0]), Respond(Apply(t, ops[0]), ops[1..]), Truthful());
    }
  }

  lemma AnswerIsTruthful(t: Table, op: Op)
    ensures Always(t, Answer(t, op), Truthful())
  {
    var answer := Answer(t, op);
    if Closing(t, op) != [] {
      assert answer[1..] == [Did(op, StatusOf(t, op))];
      assert answer[1..][1..] == [];
    } else {
      assert answer[1..] == [];
    }
  }

  lemma CallBackIsTruthful(kind: Kind, fd: int, data: int, t: Table, log: Log, callbacks: Callbacks)
    ensures Always(t, CallBack(kind, fd, data, t, log, callbacks), Truthful())
  {
    var ops := callbacks(log + [Called(kind, fd, data)]);
    RespondIsTruthful(t, ops);
    assert CallBack(kind, fd, data, t, log, callbacks)[1..] == Respond(t, ops);
  }

  lemma TurnIsTruthful(t: Table, fd: int, r: set<int>, w: set<int>, log: Log, callbacks: Callbacks)
    ensures Always(t, Turn(t, fd, r, w, log, callbacks), Truthful())
  {
    if fd in t {
      var first := ReadPart(t, fd, r, log, callbacks);
      CallBackIsTruthful(OnRead, fd, t[fd].data, t, log, callbacks);
      if !Halted(first) {
        CallBackIsTruthful(OnWrite, fd, t[fd].data, Replay(t, first), log + first, callbacks);
        AlwaysConcat(t, first, WritePart(Replay(t, first), fd, t[fd].data, w, log + first, callbacks), Truthful());
      }
    }
  }

  lemma {:induction false} ScanIsTruthful(t: Table, fd: nat, n: int, r: set<int>, w: set<int>, log: Log, callbacks: Callbacks)
    ensures Always(t, Scan(t, fd, n, r, w, log, callbacks), Truthful())
    decreases n + 1 - fd
  {
    if fd <= n {
      var turn := Turn(t, fd, r, w, log, callbacks);
      TurnIsTruthful(t, fd, r, w, log, callbacks);
      if !Halted(turn) {
        ScanIsTruthful(Replay(t, turn), fd + 1, n, r, w, log + turn, callbacks);
        AlwaysConcat(t, turn, Scan(Replay(t, turn), fd + 1, n, r, w, log + turn, callbacks), Truthful());
      }
    }
  }

  lemma CallNeedsRegistration(t: Table, before: Log, between: Log, fd: int)
    requires Always(t, before + [Did(Unregister(fd), Success)] + between, Truthful())
    requires forall k :: 0 <= k < |between| ==> !Registers(between[k], fd)
    ensures fd !in Replay(t, before + [Did(Unregister(fd), Success)] + between)
  {
    var one := [Did(Unregister(fd), Success)];
    AlwaysConcat(t, before + one, between, Truthful());
    AlwaysConcat(t, before, one, Truthful());
    ReplayConcat(t, before + one, between);
    ReplayConcat(t, before, one);
    assert one[1..] == [];
    StaysUnregistered(Replay(t, before + one), between, fd);
  }

  /** Once a callback has unregistered a descriptor, later callbacks of the scan go
      to it only if some call registered it again in between. */
  lemma NoCallAfterUnregister(t: Table, n: int, r: set<int>, w: set<int>, log: Log, callbacks: Callbacks, scan: Log, q: nat, p: nat)
    requires scan == Scan(t, 0, n, r, w, log, callbacks)
    requires q < p < |scan| && scan[p].Called? && scan[q] == Did(Unregister(scan[p].fd), Success)
    ensures exists k :: q < k < p && Registers(scan[k], scan[p].fd)
  {
    var fd := scan[p].fd;
    ScanIsTruthful(t, 0, n, r, w, log, callbacks);
    AlwaysAt(t, scan, Truthful(), p);
    ScanAlwaysDue(t, 0, n, r, w, log, callbacks);
    AlwaysAt(t, scan, Due(r, w), p);
    assert fd in Replay(t, scan[..p]);
    CutAround(scan, q, p);
    if forall k :: q < k < p ==> !Registers(scan[k], fd) {
      var between := scan[q + 1..p];
      forall k | 0 <= k < |between|
        ensures !Registers(between[k], fd)
      {
        assert between[k] == scan[q + 1 + k];
      }
      CallNeedsRegistration(t, scan[..q], scan[q + 1..p], fd);
      assert false;
    }
  }

  lemma CutAround(log: Log, q: nat, p: nat)
    requires q < p <= |log|
    ensures log[..p] == log[..q] + [log[q]] + log[q + 1..p]
  {
  }

  // ----- a ready descriptor nobody touches is served

  predicate Touches(a: Action, fd: int) {
    a.Did? && a.op.fd == fd
  }

  lemma {:induction false} UntouchedKeeps(t: Table, log: Log, fd: int)
    requires forall p :: 0 <= p < |log| ==> !Touches(log[p], fd)
    ensures fd in t <==> fd in Replay(t, log)
    ensures fd in t ==> Replay(t, log)[fd] == t[fd]
    decreases |log|
  {
    if log != [] {
      assert !Touches(log[0], fd);
      UntouchedKeeps(Effect(t, log[0]), log[1..], fd);
    }
  }

  ghost predicate Served(t: Table, x: int, r: set<int>, w: set<int>, log: Log)
    requires x in t
  {
    && (Called(OnRead, x, t[x].data) in log <==> x in r && t[x].interest.read)
    && (Called(OnWrite, x, t[x].data) in log <==> x in w && t[x].interest.write)
  }

  ghost predicate Untouched(log: Log, fd: int) {
    forall p :: 0 <= p < |log| ==> !Touches(log[p], fd)
  }

  lemma SplitUntouched(a: Log, b: Log, x: int)
    requires Untouched(a + b, x) && !Halted(a + b)
    ensures Untouched(a, x) && Untouched(b, x) && !Halted(b)
  {
    forall p | 0 <= p < |a| ensures !Touches(a[p], x) { assert (a + b)[p] == a[p]; }
    forall p | 0 <= p < |b| ensures !Touches(b[p], x) { assert (a + b)[|a| + p] == b[p]; }
    if b != [] { assert (a + b)[|a + b| - 1] == b[|b| - 1]; }
  }

  lemma NotCalledOutside(log: Log, lo: int, hi: int, x: int)
    requires CallsWithin(log, lo, hi) && !(lo <= x <= hi)
    ensures forall kind, data :: Called(kind, x, data) !in log
  {
  }

  /** A descriptor in range that was registered when the scan began, and that no
      callback touched, gets exactly the callbacks it asked for: the read one iff
      it was ready and interested in reading, likewise for writing. */
  lemma {:induction false} UntouchedIsServed(t: Table, fd: nat, n: int, r: set<int>, w: set<int>, log: Log, callbacks: Callbacks, x: int)
    requires fd <= x <= n && x in t
    requires !Halted(Scan(t, fd, n, r, w, log, callbacks))
    requires Untouched(Scan(t, fd, n, r, w, log, callbacks), x)
    ensures Served(t, x, r, w, Scan(t, fd, n, r, w, log, callbacks))
    decreases n + 1 - fd
  {
    var turn := Turn(t, fd, r, w, log, callbacks);
    assert !Halted(turn);
    var t1 := Replay(t, turn);
    var rest := Scan(t1, fd + 1, n, r, w, log + turn, callbacks);
    SplitUntouched(turn, rest, x);
    UntouchedKeeps(t, turn, x);
    TurnOrder(t, fd, r, w, log, callbacks);
    ScanAscends(t1, fd + 1, n, r, w, log + turn, callbacks);
    if x == fd {
      TurnServes(t, fd, r, w, log, callbacks);
      NotCalledOutside(rest, fd + 1, n, x);
    } else {
      UntouchedIsServed(t1, fd + 1, n, r, w, log + turn, callbacks, x);
      NotCalledOutside(turn, fd, fd, x);
    }
  }

  lemma TurnServes(t: Table, fd: int, r: set<int>, w: set<int>, log: Log, callbacks: Callbacks)
    requires fd in t
    requires !Halted(Turn(t, fd, r, w, log, callbacks))
    requires Untouched(Turn(t, fd, r, w, log, callbacks), fd)
    ensures Served(t, fd, r, w, Turn(t, fd, r, w, log, callbacks))
  {
    var first := ReadPart(t, fd, r, log, callbacks);
    var t1 := Replay(t, first);
    var second := WritePart(t1, fd, t[fd].data, w, log + first, callbacks);
    TurnParts(t, fd, r, w, log, callbacks);
    SplitUntouched(first, second, fd);
    UntouchedKeeps(t, first, fd);
    assert second != [] ==> second[0] == Called(OnWrite, fd, t[fd].data);
    assert first != [] ==> first[0] == Called(OnRead, fd, t[fd].data);
  }

  // ----- the data handed to a callback

  /** The data of the last registration of `fd` in the log, or `data` if there is none. */
  function LastData(data: int, log: Log, fd: int): int
    decreases |log|
  {
    if log == [] then data
    else LastData(if Registers(log[0], fd) then log[0].op.data else data, log[1..], fd)
  }

  lemma {:induction false} DataIsLast(t: Table, log: Log, fd: int, data: int)
    requires Always(t, log, Truthful()) && fd in Replay(t, log)
    requires fd in t ==> t[fd].data == data
    ensures Replay(t, log)[fd].data == LastData(data, log, fd)
    decreases |log|
  {
    if log != [] {
      DataIsLast(Effect(t, log[0]), log[1..], fd, if Registers(log[0], fd) then log[0].op.data else data);
    }
  }

  predicate IsRead(a: Action, fd: int) {
    a.Called? && a.kind.OnRead? && a.fd == fd
  }

  /** The data is fetched before the read callback of the turn, if there is one.  It is
      current iff the last registration since then, if there is one, carries the same. */
  ghost predicate DataExactAt(now: Table, log: Log, p: nat)
    requires p < |log|
  {
    log[p].Called? ==>
      && log[p].fd in now
      && (forall q :: 0 <= q < p && IsRead(log[q], log[p].fd) ==>
            (log[p].data == now[log[p].fd].data <==> LastData(log[p].data, log[q..p], log[p].fd) == log[p].data))
      && (NoReadBefore(log, p, log[p].fd) ==> log[p].data == now[log[p].fd].data)
  }

  ghost predicate NoReadBefore(log: Log, p: nat, fd: int)
    requires p <= |log|
  {
    forall q :: 0 <= q < p ==> !IsRead(log[q], fd)
  }

  ghost predicate DataIsExact(t: Table, log: Log) {
    forall p :: 0 <= p < |log| ==> DataExactAt(Replay(t, log[..p]), log, p)
  }

  lemma DataLeft(now: Table, a: Log, b: Log, p: nat)
    requires p < |a| && DataExactAt(now, a, p)
    ensures DataExactAt(now, a + b, p)
  {
    var c := a + b;
    assert c[p] == a[p];
    forall q | 0 <= q < p
      ensures c[q] == a[q] && c[q..p] == a[q..p]
    {
    }
  }

  lemma DataRight(now: Table, a: Log, b: Log, p: nat)
    requires p < |b| && DataExactAt(now, b, p)
    requires b[p].Called? ==> NoReadBefore(a, |a|, b[p].fd)
    ensures DataExactAt(now, a + b, |a| + p)
  {
    var c, n := a + b, |a| + p;
    assert c[n] == b[p];
    forall q | 0 <= q < n
      ensures q < |a| ==> c[q] == a[q]
      ensures q >= |a| ==> c[q] == b[q - |a|] && c[q..n] == b[q - |a|..p]
    {
    }
    if b[p].Called? && NoReadBefore(c, n, b[p].fd) {
      forall q | 0 <= q < p ensures !IsRead(b[q], b[p].fd) { assert c[|a| + q] == b[q]; }
      assert NoReadBefore(b, p, b[p].fd);
    }
  }

  lemma DataConcatAt(t: Table, a: Log, b: Log, p: nat)
    requires p < |a + b|
    requires p < |a| ==> DataExactAt(Replay(t, a[..p]), a, p)
    requires p >= |a| ==> DataExactAt(Replay(Replay(t, a), b[..p - |a|]), b, p - |a|)
    requires p >= |a| && b[p - |a|].Called? ==> NoReadBefore(a, |a|, b[p - |a|].fd)
    ensures DataExactAt(Replay(t, (a + b)[..p]), a + b, p)
  {
    hide Replay, DataExactAt;
    if p < |a| {
      assert (a + b)[..p] == a[..p];
      DataLeft(Replay(t, a[..p]), a, b, p);
    } else {
      var i := p - |a|;
      assert (a + b)[..p] == a + b[..i];
      ReplayConcat(t, a, b[..i]);
      DataRight(Replay(Replay(t, a), b[..i]), a, b, i);
    }
  }

  /** Turns of lower descriptors do not matter. */
  lemma DataConcat(t: Table, a: Log, b: Log, fd: int, n: int)
    requires DataIsExact(t, a) && DataIsExact(Replay(t, a), b)
    requires CallsWithin(a, fd, fd) && CallsWithin(b, fd + 1, n)
    ensures DataIsExact(t, a + b)
  {
    forall p | 0 <= p < |a + b|
      ensures DataExactAt(Replay(t, (a + b)[..p]), a + b, p)
    {
      hide Replay, DataExactAt;
      DataConcatAt(t, a, b, p);
    }
  }

  lemma CallBackData(kind: Kind, fd: int, t: Table, log: Log, callbacks: Callbacks)
    requires fd in t
    ensures DataIsExact(t, CallBack(kind, fd, t[fd].data, t, log, callbacks))
  {
    CallBackShape(kind, fd, t[fd].data, t, log, callbacks);
    var part := CallBack(kind, fd, t[fd].data, t, log, callbacks);
    assert part[..0] == [];
  }

  lemma TurnData(t: Table, fd: int, r: set<int>, w: set<int>, log: Log, callbacks: Callbacks)
    ensures DataIsExact(t, Turn(t, fd, r, w, log, callbacks))
  {
    if fd in t {
      var first := ReadPart(t, fd, r, log, callbacks);
      if first != [] && first != [Aborted] { CallBackData(OnRead, fd, t, log, callbacks); }
      if !Halted(first) {
        var t1 := Replay(t, first);
        var second := WritePart(t1, fd, t[fd].data, w, log + first, callbacks);
        if second != [] && second != [Aborted] {
          CallBackShape(OnWrite, fd, t[fd].data, t1, log + first, callbacks);
          WriteData(t, fd, first, second, r, log, callbacks);
        } else {
          forall p | 0 <= p < |first + second|
            ensures DataExactAt(Replay(t, (first + second)[..p]), first + second, p)
          {
            DataConcatAt(t, first, second, p);
          }
        }
      }
    }
  }

  lemma WriteData(t: Table, fd: int, first: Log, second: Log, r: set<int>, log: Log, callbacks: Callbacks)
    requires fd in t && fd in Replay(t, first)
    requires first == ReadPart(t, fd, r, log, callbacks) && !Halted(first)
    requires second != [] && second[0] == Called(OnWrite, fd, t[fd].data)
    requires forall p :: 0 < p < |second| ==> ByCallback(second[p])
    ensures DataIsExact(t, first + second)
  {
    var c := first + second;
    CallBackShape(OnRead, fd, t[fd].data, t, log, callbacks);
    CallBackIsTruthful(OnRead, fd, t[fd].data, t, log, callbacks);
    WriteDataAt(t, fd, first, second);
    forall p | 0 <= p < |c| && c[p].Called?
      ensures DataExactAt(Replay(t, c[..p]), c, p)
    {
      if p == |first| {
        assert c[..p] == first;
      } else {
        assert p == 0 && c[..0] == [];
      }
    }
  }

  lemma WriteDataAt(t: Table, fd: int, first: Log, second: Log)
    requires fd in t && fd in Replay(t, first) && Always(t, first, Truthful())
    requires second != [] && second[0] == Called(OnWrite, fd, t[fd].data)
    requires first == [] || (IsRead(first[0], fd) && forall q :: 0 < q < |first| ==> ByCallback(first[q]))
    ensures DataExactAt(Replay(t, first), first + second, |first|)
  {
    var c, p := first + second, |first|;
    DataIsLast(t, first, fd, t[fd].data);
    hide Replay, Always;
    forall q | 0 <= q < p
      ensures c[q] == first[q] && (IsRead(c[q], fd) ==> q == 0)
    {
      if q > 0 { assert ByCallback(first[q]); }
    }
    assert c[0..p] == first;
    if p == 0 { assert first == []; } else { assert IsRead(c[0], fd); }
  }

  /** Every callback of a scan: if its turn ran no read callback before it, it is handed
      the data of the current registration; if its turn did, then just when the last
      registration of the descriptor since that read callback, if any, has the same data. */
  lemma {:induction false} ScanDataIsExact(t: Table, fd: nat, n: int, r: set<int>, w: set<int>, log: Log, callbacks: Callbacks)
    ensures DataIsExact(t, Scan(t, fd, n, r, w, log, callbacks))
    decreases n + 1 - fd
  {
    if fd <= n {
      var turn := Turn(t, fd, r, w, log, callbacks);
      TurnData(t, fd, r, w, log, callbacks);
      if !Halted(turn) {
        var t1 := Replay(t, turn);
        ScanDataIsExact(t1, fd + 1, n, r, w, log + turn, callbacks);
        TurnOrder(t, fd, r, w, log, callbacks);
        ScanAscends(t1, fd + 1, n, r, w, log + turn, callbacks);
        DataConcat(t, turn, Scan(t1, fd + 1, n, r, w, log + turn, callbacks), fd, n);
      }
    }
  }

  /** The exception does happen: a read callback that unregisters its descriptor and
      registers it again with other data sees the write callback get the old data. */
  lemma StaleDataExample()
    ensures var h := Handler(true, true, true, false);
            var both := Interest(true, true);
            var t: Table := map[3 := Registration(h, both, 7)];
            var callbacks: Callbacks := (log: Log) =>
              if |log| == 1 then [Unregister(3), Register(3, Some(h), both, 8)] else [];
            var scan := Scan(t, 3, 3, {3}, {3}, [], callbacks);
            |scan| == 4 && scan[3] == Called(OnWrite, 3, 7) && 3 in Replay(t, scan[..3]) && Replay(t, scan[..3])[3].data == 8
  {
    var h := Handler(true, true, true, false);
    var both := Interest(true, true);
    var t: Table := map[3 := Registration(h, both, 7)];
    var ops := [Unregister(3), Register(3, Some(h), both, 8)];
    var callbacks: Callbacks := (log: Log) => if |log| == 1 then ops else [];
    var first := ReadPart(t, 3, {3}, [], callbacks);
    var t1 := t - {3};
    assert ops[1..] == [Register(3, Some(h), both, 8)];
    assert Respond(t1, ops[1..]) == [Did(ops[1], Success)];
    assert first == [Called(OnRead, 3, 7), Did(ops[0], Success), Did(ops[1], Success)];
    var t2 := t1[3 := Registration(h, both, 8)];
    assert Replay(t, first) == t2 by {
      assert first[1..] == [Did(ops[0], Success), Did(ops[1], Success)];
      assert first[1..][1..] == [Did(ops[1], Success)];
      assert first[1..][1..][1..] == [];
      assert Apply(t, ops[0]) == t1;
      assert Apply(t1, ops[1]) == t2;
      assert Replay(t2, []) == t2;
      assert Replay(t1, [Did(ops[1], Success)]) == t2;
      assert Replay(t, first[1..]) == t2;
    }
    assert WritePart(t2, 3, 7, {3}, [] + first, callbacks) == [Called(OnWrite, 3, 7)];
    var turn := Turn(t, 3, {3}, {3}, [], callbacks);
    assert turn == first + [Called(OnWrite, 3, 7)];
    assert Scan(t, 3, 3, {3}, {3}, [], callbacks) == turn + [];
    assert (turn + [])[..3] == first;
  }

  // ----- the readiness a callback is entered on

  /** `pselect` saw the registrations the scan began with.  A callback is entered on the
      readiness of its own registration, which was there all along, iff no call of the
      scan has registered its descriptor before. */
  lemma ReadinessIsOwn(t: Table, fd: nat, n: int, r: set<int>, w: set<int>, log: Log, callbacks: Callbacks, scan: Log, p: nat)
    requires scan == Scan(t, fd, n, r, w, log, callbacks)
    requires p < |scan| && scan[p].Called?
    ensures (forall k :: 0 <= k <= p ==> scan[p].fd in Replay(t, scan[..k])) <==>
            (forall k :: 0 <= k < p ==> !Registers(scan[k], scan[p].fd))
  {
    var x := scan[p].fd;
    ScanIsTruthful(t, fd, n, r, w, log, callbacks);
    ScanAlwaysDue(t, fd, n, r, w, log, callbacks);
    AlwaysAt(t, scan, Due(r, w), p);
    if forall k :: 0 <= k < p ==> !Registers(scan[k], x) {
      forall k | 0 <= k <= p
        ensures x in Replay(t, scan[..k])
      {
        GoneStaysGone(t, scan, k, p, x);
      }
    } else {
      var k :| 0 <= k < p && Registers(scan[k], x);
      AlwaysAt(t, scan, Truthful(), k);
      assert x !in Replay(t, scan[..k]);
    }
  }

  lemma GoneStaysGone(t: Table, log: Log, k: nat, p: nat, fd: int)
    requires Always(t, log, Truthful()) && k <= p < |log|
    requires forall i :: k <= i < p ==> !Registers(log[i], fd)
    requires fd in Replay(t, log[..p])
    ensures fd in Replay(t, log[..k])
  {
    var now, between := Replay(t, log[..k]), log[k..p];
    AlwaysAt(t, log, Truthful(), k);
    AlwaysConcat(now, between, log[p..], Truthful());
    assert log[k..] == between + log[p..];
    ReplayConcat(t, log[..k], between);
    assert log[..p] == log[..k] + between;
    if fd !in now { StaysUnregistered(now, between, fd); }
  }

  /** The other case does happen: a callback gives up descriptor 5 and lets it be
      registered anew, and the new registration is called on the readiness of the old. */
  lemma ReusedDescriptorExample()
    ensures var h := Handler(true, true, true, false);
            var t: Table := map[3 := Registration(h, READ, 1), 5 := Registration(h, READ, 2)];
            var callbacks: Callbacks := (log: Log) =>
              if |log| == 1 then [Unregister(5), Register(5, Some(h), READ, 9)] else [];
            var scan := Scan(t, 3, 5, {3, 5}, {}, [], callbacks);
            |scan| == 4 && scan[3] == Called(OnRead, 5, 9) && 5 !in Replay(t, scan[..2])
  {
    var h := Handler(true, true, true, false);
    var t: Table := map[3 := Registration(h, READ, 1), 5 := Registration(h, READ, 2)];
    var ops := [Unregister(5), Register(5, Some(h), READ, 9)];
    var callbacks: Callbacks := (log: Log) => if |log| == 1 then ops else [];
    var t1 := t - {5};
    var t2 := t1[5 := Registration(h, READ, 9)];
    var did := [Did(ops[0], Success), Did(ops[1], Success)];
    TwoAnswers(t, ops, did, t1, t2);
    var first := [Called(OnRead, 3, 1)] + did;
    assert ReadPart(t, 3, {3, 5}, [], callbacks) == first;
    assert Replay(t, first) == t2 by { assert first[1..] == did; }
    assert Turn(t, 3, {3, 5}, {}, [], callbacks) == first + [];
    assert first + [] == first == [] + first;
    assert Turn(t2, 4, {3, 5}, {}, first, callbacks) == [];
    var last := [Called(OnRead, 5, 9)];
    assert ReadPart(t2, 5, {3, 5}, first + [], callbacks) == last + [];
    assert last + [] == last;
    assert Replay(t2, last) == t2 by { assert last[1..] == []; }
    assert Turn(t2, 5, {3, 5}, {}, first + [], callbacks) == last + [];
    assert Scan(t2, 5, 5, {3, 5}, {}, first + [], callbacks) == last + [];
    assert Scan(t2, 4, 5, {3, 5}, {}, first, callbacks) == [] + last;
    var scan := Scan(t, 3, 5, {3, 5}, {}, [], callbacks);
    assert scan == first + last;
    assert scan[..2] == [Called(OnRead, 3, 1), did[0]];
    assert scan[..2][1..] == [did[0]] && [did[0]][1..] == [];
    assert Replay(t, [did[0]]) == t1;
  }

  lemma TwoAnswers(t: Table, ops: seq<Op>, did: Log, t1: Table, t2: Table)
    requires |ops| == 2 && did == [Did(ops[0], Success), Did(ops[1], Success)]
    requires Answer(t, ops[0]) == [did[0]] && t1 == Apply(t, ops[0])
    requires Answer(t1, ops[1]) == [did[1]] && t2 == Apply(t1, ops[1])
    ensures Respond(t, ops) == did && Replay(t, did) == t2
  {
    assert ops[1..] == [ops[1]] && ops[1..][1..] == [];
    assert Respond(t1, ops[1..]) == [did[1]] + [];
    assert did[1..] == [did[1]] && did[1..][1..] == [];
    assert Replay(t1, [did[1]]) == t2;
  }

  // ----- close callbacks

  /** A close callback is entered right before the unregistration it belongs to, with the
      data of the registration, and for every registration that has one. */
  ghost predicate ClosesPaired(t: Table, log: Log)
    decreases |log|
  {
    if log == [] then true
    else if log[0].Closed? then
      && log[0].fd in t && t[log[0].fd].handler.close && log[0].data == t[log[0].fd].data
      && |log| > 1 && log[1] == Did(Unregister(log[0].fd), Success)
      && ClosesPaired(Effect(t, log[1]), log[2..])
    else
      && (Unregisters(log[0]) ==> !(log[0].op.fd in t && t[log[0].op.fd].handler.close))
      && ClosesPaired(Effect(t, log[0]), log[1..])
  }

  predicate Unregisters(a: Action) {
    a.Did? && a.op.Unregister? && a.status.Success?
  }

  lemma {:induction false} PairedConcat(t: Table, a: Log, b: Log)
    requires ClosesPaired(t, a) && ClosesPaired(Replay(t, a), b)
    ensures ClosesPaired(t, a + b)
    decreases |a|
  {
    if a == [] {
      assert a + b == b;
    } else if a[0].Closed? {
      assert a[1..][1..] == a[2..];
      assert Replay(t, a) == Replay(Effect(t, a[1]), a[2..]);
      PairedConcat(Effect(t, a[1]), a[2..], b);
      assert (a + b)[2..] == a[2..] + b;
    } else {
      PairedConcat(Effect(t, a[0]), a[1..], b);
      assert (a + b)[1..] == a[1..] + b;
    }
  }

  lemma PairedOne(t: Table, a: Action)
    requires !ByCallback(a)
    ensures ClosesPaired(t, [a]) && Replay(t, [a]) == t
  {
    assert [a][1..] == [];
  }

  lemma {:induction false} RespondPaired(t: Table, ops: seq<Op>)
    ensures ClosesPaired(t, Respond(t, ops))
    decreases |ops|
  {
    if ops != [] {
      var answer := Answer(t, ops[0]);
      assert ClosesPaired(t, answer) by {
        if Closing(t, ops[0]) != [] {
          assert answer[2..] == [] && answer[1] == Did(ops[0], Success);
        } else {
          assert answer[1..] == [];
        }
      }
      AnswerReplays(t, ops[0]);
      RespondPaired(Apply(t, ops[0]), ops[1..]);
      PairedConcat(t, answer, Respond(Apply(t, ops[0]), ops[1..]));
    }
  }

  lemma CallBackPaired(kind: Kind, fd: int, data: int, t: Table, log: Log, callbacks: Callbacks)
    ensures ClosesPaired(t, CallBack(kind, fd, data, t, log, callbacks))
  {
    var entry := Called(kind, fd, data);
    PairedOne(t, entry);
    RespondPaired(t, callbacks(log + [entry]));
    PairedConcat(t, [entry], Respond(t, callbacks(log + [entry])));
  }

  lemma TurnPaired(t: Table, fd: int, r: set<int>, w: set<int>, log: Log, callbacks: Callbacks)
    ensures ClosesPaired(t, Turn(t, fd, r, w, log, callbacks))
  {
    if fd in t {
      var first := ReadPart(t, fd, r, log, callbacks);
      var t1 := Replay(t, first);
      PairedOne(t, Aborted);
      PairedOne(t1, Aborted);
      CallBackPaired(OnRead, fd, t[fd].data, t, log, callbacks);
      CallBackPaired(OnWrite, fd, t[fd].data, t1, log + first, callbacks);
      if !Halted(first) {
        PairedConcat(t, first, WritePart(t1, fd, t[fd].data, w, log + first, callbacks));
      }
    }
  }

  lemma {:induction false} ScanPaired(t: Table, fd: nat, n: int, r: set<int>, w: set<int>, log: Log, callbacks: Callbacks)
    ensures ClosesPaired(t, Scan(t, fd, n, r, w, log, callbacks))
    decreases n + 1 - fd
  {
    if fd <= n {
      var turn := Turn(t, fd, r, w, log, callbacks);
      TurnPaired(t, fd, r, w, log, callbacks);
      if !Halted(turn) {
        ScanPaired(Replay(t, turn), fd + 1, n, r, w, log + turn, callbacks);
        PairedConcat(t, turn, Scan(Replay(t, turn), fd + 1, n, r, w, log + turn, callbacks));
      }
    }
  }

  lemma {:induction false} DrainPaired(t: Table, jobs: seq<int>, log: Log, callbacks: Callbacks)
    ensures ClosesPaired(t, Drain(t, jobs, log, callbacks))
    decreases |jobs|
  {
    if jobs != [] {
      var fd := jobs[0];
      var first := Settle(t, fd, log, callbacks);
      PairedOne(t, Dropped(fd));
      PairedOne(t, Aborted);
      if fd in t { CallBackPaired(OnBlock, fd, t[fd].data, t, log, callbacks); }
      if !Halted(first) {
        DrainPaired(Replay(t, first), jobs[1..], log + first, callbacks);
        PairedConcat(t, first, Drain(Replay(t, first), jobs[1..], log + first, callbacks));
      }
    }
  }

  ghost predicate ClosesAt(now: Table, log: Log, p: nat)
    requires p < |log|
  {
    && (log[p].Closed? ==>
          && log[p].fd in now && now[log[p].fd].handler.close && log[p].data == now[log[p].fd].data
          && p + 1 < |log| && log[p + 1] == Did(Unregister(log[p].fd), Success))
    && (Unregisters(log[p]) && log[p].op.fd in now && now[log[p].op.fd].handler.close ==>
          p > 0 && log[p - 1] == Closed(log[p].op.fd, now[log[p].op.fd].data))
  }

  lemma {:induction false} PairedAt(t: Table, log: Log, p: nat)
    requires ClosesPaired(t, log) && p < |log|
    ensures ClosesAt(Replay(t, log[..p]), log, p)
    decreases |log|
  {
    if p == 0 {
      assert log[..0] == [];
    } else {
      assert log[..p][1..] == log[1..][..p - 1];
      if !log[0].Closed? {
        PairedAt(Effect(t, log[0]), log[1..], p - 1);
      } else {
        assert log[1..][..p - 1] == log[1..p];
        if p > 1 {
          assert log[1..p][1..] == log[2..][..p - 2];
          PairedAt(Effect(t, log[1]), log[2..], p - 2);
        } else {
          assert log[1..1] == [];
        }
      }
    }
  }

  /** Whatever the callbacks of a scan or a drain do, an unregistration enters the close
      callback of the registration, if it has one, once and with its data; and close
      callbacks are entered nowhere else. */
  lemma ClosesExactly(t: Table, n: int, r: set<int>, w: set<int>, jobs: seq<int>, log: Log, callbacks: Callbacks)
    ensures var scan := Scan(t, 0, n, r, w, log, callbacks);
            forall p :: 0 <= p < |scan| ==> ClosesAt(Replay(t, scan[..p]), scan, p)
    ensures var drain := Drain(t, jobs, log, callbacks);
            forall p :: 0 <= p < |drain| ==> ClosesAt(Replay(t, drain[..p]), drain, p)
  {
    var scan, drain := Scan(t, 0, n, r, w, log, callbacks), Drain(t, jobs, log, callbacks);
    ScanPaired(t, 0, n, r, w, log, callbacks);
    DrainPaired(t, jobs, log, callbacks);
    forall p | 0 <= p < |scan| ensures ClosesAt(Replay(t, scan[..p]), scan, p) { PairedAt(t, scan, p); }
    forall p | 0 <= p < |drain| ensures ClosesAt(Replay(t, drain[..p]), drain, p) { PairedAt(t, drain, p); }
  }

  // ----- draining finished jobs

  /** The descriptors whose jobs a log settles, in order. */
  function Settled(log: Log): seq<int> {
    if log == [] then [] else SettledBy(log[0]) + Settled(log[1..])
  }

  function SettledBy(a: Action): seq<int> {
    if a.Dropped? || (a.Called? && a.kind.OnBlock?) then [a.fd] else []
  }

  lemma {:induction false} SettledConcat(a: Log, b: Log)
    ensures Settled(a + b) == Settled(a) + Settled(b)
  {
    if a == [] {
      assert a + b == b;
    } else {
      assert (a + b)[0] == a[0] && (a + b)[1..] == a[1..] + b;
      SettledConcat(a[1..], b);
      assert SettledBy(a[0]) + Settled(a[1..]) + Settled(b) == SettledBy(a[0]) + (Settled(a[1..]) + Settled(b));
    }
  }

  lemma {:induction false} NothingSettled(log: Log)
    requires forall p :: 0 <= p < |log| ==> ByCallback(log[p])
    ensures Settled(log) == []
  {
    if log != [] { NothingSettled(log[1..]); }
  }

  lemma SettleOne(t: Table, fd: int, log: Log, callbacks: Callbacks)
    requires !Halted(Settle(t, fd, log, callbacks))
    ensures Settled(Settle(t, fd, log, callbacks)) == [fd]
  {
    if fd in t {
      var entry := Called(OnBlock, fd, t[fd].data);
      var answers := Respond(t, callbacks(log + [entry]));
      assert Settle(t, fd, log, callbacks) == [entry] + answers;
      RespondReplays(t, callbacks(log + [entry]));
      NothingSettled(answers);
      SettledConcat([entry], answers);
      assert Settled([entry]) == [fd] by { assert [entry][1..] == []; }
    } else {
      assert Settled([Dropped(fd)]) == [fd] by { assert [Dropped(fd)][1..] == []; }
    }
  }

  /** A drain that does not abort settles every job exactly once, in list order. */
  lemma {:induction false} DrainSettlesEachOnce(t: Table, jobs: seq<int>, log: Log, callbacks: Callbacks)
    requires !Halted(Drain(t, jobs, log, callbacks))
    ensures Settled(Drain(t, jobs, log, callbacks)) == jobs
    decreases |jobs|
  {
    if jobs != [] {
      var first := Settle(t, jobs[0], log, callbacks);
      assert !Halted(first);
      var rest := Drain(Replay(t, first), jobs[1..], log + first, callbacks);
      assert Drain(t, jobs, log, callbacks) == first + rest;
      HaltedConcat(first, rest);
      SettleOne(t, jobs[0], log, callbacks);
      DrainSettlesEachOnce(Replay(t, first), jobs[1..], log + first, callbacks);
      hide Settled, Settle, Drain, Halted;
      SettledConcat(first, rest);
      assert [jobs[0]] + jobs[1..] == jobs;
    }
  }

  /** A job is dropped only if its descriptor is unregistered at that moment, delivered
      only if it is registered, and then with the data of the registration. */
  function SettledRightly(): Check {
    (now: Table, a: Action) =>
      && (a.Dropped? ==> a.fd !in now)
      && (a.Called? ==> a.kind.OnBlock? && a.fd in now && a.data == now[a.fd].data)
  }

  lemma {:induction false} CallsSettleNothing(t: Table, log: Log)
    requires forall p :: 0 <= p < |log| ==> ByCallback(log[p])
    ensures Always(t, log, SettledRightly())
    decreases |log|
  {
    if log != [] {
      assert ByCallback(log[0]);
      CallsSettleNothing(Effect(t, log[0]), log[1..]);
    }
  }

  lemma {:induction false} DrainAlwaysRight(t: Table, jobs: seq<int>, log: Log, callbacks: Callbacks)
    ensures Always(t, Drain(t, jobs, log, callbacks), SettledRightly())
    decreases |jobs|
  {
    if jobs != [] {
      var first := Settle(t, jobs[0], log, callbacks);
      if jobs[0] in t && t[jobs[0]].handler.block {
        CallBackShape(OnBlock, jobs[0], t[jobs[0]].data, t, log, callbacks);
        assert forall p :: 0 <= p < |first[1..]| ==> first[1..][p] == first[p + 1];
        CallsSettleNothing(t, first[1..]);
      }
      assert Always(t, first, SettledRightly());
      if !Halted(first) {
        var rest := Drain(Replay(t, first), jobs[1..], log + first, callbacks);
        DrainAlwaysRight(Replay(t, first), jobs[1..], log + first, callbacks);
        AlwaysConcat(t, first, rest, SettledRightly());
      }
    }
  }

  /** Whatever the block callbacks do to the table, a job is delivered, with the data of
      the registration, if its descriptor is registered at that moment, and dropped if it
      is not. */
  lemma DrainDropsRightly(t: Table, jobs: seq<int>, log: Log, callbacks: Callbacks)
    ensures var drain := Drain(t, jobs, log, callbacks);
            forall p :: 0 <= p < |drain| ==>
              var now := Replay(t, drain[..p]);
              && (drain[p].Dropped? ==> drain[p].fd !in now)
              && (drain[p].Called? ==> drain[p].fd in now && drain[p].data == now[drain[p].fd].data)
  {
    var drain := Drain(t, jobs, log, callbacks);
    DrainAlwaysRight(t, jobs, log, callbacks);
    forall p | 0 <= p < |drain|
      ensures SettledRightly()(Replay(t, drain[..p]), drain[p])
    {
      AlwaysAt(t, drain, SettledRightly(), p);
    }
  }
}

/** What a scan and a drain must be, said of the log alone: which callback comes next, when
    the program aborts, and which calls follow a callback. */
module ScanLaws {
  import opened Wrappers
  import opened SelectorTable
  import opened Dispatch

  // ----- the order of a scan

  /** Read and write events of all descriptors, numbered in the order a scan offers them. */
  function Slot(call: Action): int
    requires call.Called?
  {
    if call.kind.OnWrite? then 2 * call.fd + 1 else 2 * call.fd
  }

  /** The event is ready and its descriptor registered with an interest in it. */
  predicate Wanted(now: Table, r: set<int>, w: set<int>, slot: int) {
    && slot / 2 in now
    && if slot % 2 == 0 then slot / 2 in r && now[slot / 2].interest.read
       else slot / 2 in w && now[slot / 2].interest.write
  }

  predicate HasCallback(now: Table, slot: int)
    requires slot / 2 in now
  {
    if slot % 2 == 0 then now[slot / 2].handler.read else now[slot / 2].handler.write
  }

  ghost predicate NoneWanted(now: Table, r: set<int>, w: set<int>, lo: int, hi: int) {
    forall slot :: lo < slot < hi ==> !Wanted(now, r, w, slot)
  }

  /** `slot` is the next wanted event behind `from`. */
  ghost predicate IsNext(now: Table, r: set<int>, w: set<int>, from: int, slot: int, end: int) {
    from < slot < end && Wanted(now, r, w, slot) && NoneWanted(now, r, w, from, slot)
  }

  /** With the events up to `from` dealt with, each callback of the log is for the next
      event that is wanted when it is entered; the log ends when none is wanted any more, or
      aborts when the next one has no callback. */
  ghost predicate Orderly(t: Table, log: Log, r: set<int>, w: set<int>, from: int, end: int)
    decreases |log|
  {
    if log == [] then NoneWanted(t, r, w, from, end)
    else match log[0]
      case Called(kind, fd, _) =>
        var slot := Slot(log[0]);
        && !kind.OnBlock? && IsNext(t, r, w, from, slot, end) && HasCallback(t, slot)
        && Orderly(t, log[1..], r, w, slot, end)
      case Aborted => log[1..] == [] && exists slot :: IsNext(t, r, w, from, slot, end) && !HasCallback(t, slot)
      case Dropped(_) => false
      case _ => Orderly(Effect(t, log[0]), log[1..], r, w, from, end)
  }

  /** Events of two ranges, one after the other. */
  lemma {:induction false} OrderlyConcat(t: Table, a: Log, b: Log, r: set<int>, w: set<int>, from: int, mid: int, end: int)
    requires from < mid <= end && !Halted(a) && (b == [] || !ByCallback(b[0]))
    requires Orderly(t, a, r, w, from, mid) && Orderly(Replay(t, a), b, r, w, mid - 1, end)
    ensures Orderly(t, a + b, r, w, from, end)
    decreases |a|
  {
    if a == [] {
      assert a + b == b;
      OrderlyWidens(t, b, r, w, from, mid, end);
    } else {
      assert (a + b)[0] == a[0] && (a + b)[1..] == a[1..] + b;
      if a[1..] != [] { assert a[1..][|a[1..]| - 1] == a[|a| - 1]; }
      OrderlyConcat(Effect(t, a[0]), a[1..], b, r, w, if a[0].Called? then Slot(a[0]) else from, mid, end);
    }
  }

  lemma OrderlyWidens(t: Table, b: Log, r: set<int>, w: set<int>, from: int, mid: int, end: int)
    requires from < mid <= end && NoneWanted(t, r, w, from, mid) && (b == [] || !ByCallback(b[0]))
    requires Orderly(t, b, r, w, mid - 1, end)
    ensures Orderly(t, b, r, w, from, end)
  {
    if b != [] && b[0] == Aborted {
      var slot :| IsNext(t, r, w, mid - 1, slot, end) && !HasCallback(t, slot);
      assert IsNext(t, r, w, from, slot, end);
    }
  }

  /** The calls a callback makes leave the order to what follows. */
  lemma {:induction false} OrderlyAnswers(t: Table, calls: Log, r: set<int>, w: set<int>, from: int, end: int)
    requires forall p :: 0 <= p < |calls| ==> ByCallback(calls[p])
    requires NoneWanted(Replay(t, calls), r, w, from, end)
    ensures Orderly(t, calls, r, w, from, end)
    decreases |calls|
  {
    if calls != [] {
      assert ByCallback(calls[0]);
      OrderlyAnswers(Effect(t, calls[0]), calls[1..], r, w, from, end);
    }
  }

  /** One event that is offered: called, aborted, or not wanted. */
  lemma OrderlyPart(t: Table, part: Log, r: set<int>, w: set<int>, slot: int)
    requires if !Wanted(t, r, w, slot) then part == []
             else if !HasCallback(t, slot) then part == [Aborted]
             else && part != [] && part[0].Called? && !part[0].kind.OnBlock? && Slot(part[0]) == slot
                  && forall p :: 0 < p < |part| ==> ByCallback(part[p])
    ensures Orderly(t, part, r, w, slot - 1, slot + 1)
  {
    if Wanted(t, r, w, slot) {
      assert IsNext(t, r, w, slot - 1, slot, slot + 1);
      if HasCallback(t, slot) {
        OrderlyAnswers(t, part[1..], r, w, slot, slot + 1);
      } else {
        assert part[0] == Aborted && part[1..] == [];
      }
    }
  }

  lemma TurnOrderly(t: Table, fd: int, r: set<int>, w: set<int>, log: Log, callbacks: Callbacks)
    ensures Orderly(t, Turn(t, fd, r, w, log, callbacks), r, w, 2 * fd - 1, 2 * fd + 2)
  {
    if fd in t {
      var first := ReadPart(t, fd, r, log, callbacks);
      var t1 := Replay(t, first);
      var second := WritePart(t1, fd, t[fd].data, w, log + first, callbacks);
      CallBackShape(OnRead, fd, t[fd].data, t, log, callbacks);
      CallBackShape(OnWrite, fd, t[fd].data, t1, log + first, callbacks);
      hide CallBack, Orderly, Replay;
      OrderlyPart(t, first, r, w, 2 * fd);
      if Halted(first) {
        AbortedWidens(t, first, r, w, 2 * fd - 1, 2 * fd + 1, 2 * fd + 2);
      } else {
        OrderlyPart(t1, second, r, w, 2 * fd + 1);
        OrderlyConcat(t, first, second, r, w, 2 * fd - 1, 2 * fd + 1, 2 * fd + 2);
      }
    }
  }

  lemma {:induction false} AbortedWidens(t: Table, log: Log, r: set<int>, w: set<int>, from: int, mid: int, end: int)
    requires mid <= end && Halted(log) && Orderly(t, log, r, w, from, mid)
    ensures Orderly(t, log, r, w, from, end)
    decreases |log|
  {
    if log[0] == Aborted {
      var slot :| IsNext(t, r, w, from, slot, mid) && !HasCallback(t, slot);
      assert IsNext(t, r, w, from, slot, end);
    } else {
      assert |log| > 1;
      assert log[1..][|log[1..]| - 1] == log[|log| - 1];
      AbortedWidens(Effect(t, log[0]), log[1..], r, w, if log[0].Called? then Slot(log[0]) else from, mid, end);
    }
  }

  /** A scan always turns to the next wanted event: none that is wanted when its turn comes
      is skipped, and the scan aborts exactly at one without a callback. */
  lemma {:induction false} ScanIsOrderly(t: Table, fd: nat, n: int, r: set<int>, w: set<int>, log: Log, callbacks: Callbacks)
    requires fd <= n + 1
    ensures Orderly(t, Scan(t, fd, n, r, w, log, callbacks), r, w, 2 * fd - 1, 2 * n + 2)
    decreases n + 1 - fd
  {
    hide Scan, Turn, Orderly, Replay;
    ScanUnfolds(t, fd, n, r, w, log, callbacks);
    if fd <= n {
      var turn := Turn(t, fd, r, w, log, callbacks);
      TurnOrderly(t, fd, r, w, log, callbacks);
      if Halted(turn) {
        AbortedWidens(t, turn, r, w, 2 * fd - 1, 2 * fd + 2, 2 * n + 2);
      } else {
        var t1 := Replay(t, turn);
        ScanIsOrderly(t1, fd + 1, n, r, w, log + turn, callbacks);
        ScanStart(t1, fd + 1, n, r, w, log + turn, callbacks);
        OrderlyConcat(t, turn, Scan(t1, fd + 1, n, r, w, log + turn, callbacks), r, w, 2 * fd - 1, 2 * fd + 2, 2 * n + 2);
      }
    } else {
      NothingLeft(t, r, w, fd, n);
    }
  }

  lemma NothingLeft(t: Table, r: set<int>, w: set<int>, fd: nat, n: int)
    requires fd == n + 1
    ensures Orderly(t, [], r, w, 2 * fd - 1, 2 * n + 2)
  {
  }

  lemma ScanUnfolds(t: Table, fd: nat, n: int, r: set<int>, w: set<int>, log: Log, callbacks: Callbacks)
    ensures fd > n ==> Scan(t, fd, n, r, w, log, callbacks) == []
    ensures fd <= n ==>
              var turn := Turn(t, fd, r, w, log, callbacks);
              Scan(t, fd, n, r, w, log, callbacks) ==
              if Halted(turn) then turn else turn + Scan(Replay(t, turn), fd + 1, n, r, w, log + turn, callbacks)
  {
  }

  /** A scan does not start with a call made by a callback. */
  lemma {:induction false} ScanStart(t: Table, fd: nat, n: int, r: set<int>, w: set<int>, log: Log, callbacks: Callbacks)
    ensures var scan := Scan(t, fd, n, r, w, log, callbacks); scan == [] || !ByCallback(scan[0])
    decreases n + 1 - fd
  {
    if fd <= n {
      var turn := Turn(t, fd, r, w, log, callbacks);
      if fd in t {
        CallBackShape(OnRead, fd, t[fd].data, t, log, callbacks);
        var first := ReadPart(t, fd, r, log, callbacks);
        CallBackShape(OnWrite, fd, t[fd].data, Replay(t, first), log + first, callbacks);
      }
      if turn == [] {
        assert Replay(t, turn) == t;
        ScanStart(t, fd + 1, n, r, w, log + turn, callbacks);
      }
    }
  }

  // ----- the calls of a callback

  /** The calls a log starts with. */
  function CallsOf(log: Log): seq<Op> {
    if log == [] || !ByCallback(log[0]) then []
    else (if log[0].Did? then [log[0].op] else []) + CallsOf(log[1..])
  }

  /** Behind each callback entered come exactly the calls it answers with, in order, and
      no call is made otherwise. */
  ghost predicate Obeys(log: Log, part: Log, callbacks: Callbacks)
    decreases |part|
  {
    part == [] ||
    (&& (part[0].Called? ==> CallsOf(part[1..]) == callbacks(log + [part[0]]))
     && Obeys(log + [part[0]], part[1..], callbacks))
  }

  lemma {:induction false} ObeysConcat(log: Log, a: Log, b: Log, callbacks: Callbacks)
    requires Obeys(log, a, callbacks) && Obeys(log + a, b, callbacks) && (b == [] || !ByCallback(b[0]))
    ensures Obeys(log, a + b, callbacks)
    decreases |a|
  {
    if a == [] {
      assert a + b == b && log + a == log;
    } else {
      assert (a + b)[0] == a[0] && (a + b)[1..] == a[1..] + b;
      assert log + a == log + [a[0]] + a[1..];
      CallsConcat(a[1..], b);
      ObeysConcat(log + [a[0]], a[1..], b, callbacks);
    }
  }

  lemma {:induction false} CallsConcat(a: Log, b: Log)
    requires b == [] || !ByCallback(b[0])
    ensures CallsOf(a + b) == CallsOf(a)
    decreases |a|
  {
    if a == [] {
      assert a + b == b;
    } else {
      assert (a + b)[0] == a[0] && (a + b)[1..] == a[1..] + b;
      CallsConcat(a[1..], b);
    }
  }

  lemma {:induction false} RespondCalls(t: Table, ops: seq<Op>)
    ensures CallsOf(Respond(t, ops)) == ops
    decreases |ops|
  {
    if ops != [] {
      var did, rest := Did(ops[0], StatusOf(t, ops[0])), Respond(Apply(t, ops[0]), ops[1..]);
      RespondCalls(Apply(t, ops[0]), ops[1..]);
      assert Respond(t, ops) == Closing(t, ops[0]) + ([did] + rest);
      assert ([did] + rest)[1..] == rest;
      assert CallsOf([did] + rest) == [ops[0]] + ops[1..];
      if Closing(t, ops[0]) != [] { assert Respond(t, ops)[1..] == [did] + rest; } else { assert Respond(t, ops) == [did] + rest; }
      assert ops == [ops[0]] + ops[1..];
    }
  }

  lemma {:induction false} AnswersObey(log: Log, calls: Log, callbacks: Callbacks)
    requires forall p :: 0 <= p < |calls| ==> ByCallback(calls[p])
    ensures Obeys(log, calls, callbacks)
    decreases |calls|
  {
    if calls != [] { AnswersObey(log + [calls[0]], calls[1..], callbacks); }
  }

  lemma CallBackObeys(kind: Kind, fd: int, data: int, t: Table, log: Log, callbacks: Callbacks)
    ensures Obeys(log, CallBack(kind, fd, data, t, log, callbacks), callbacks)
  {
    var entry := [Called(kind, fd, data)];
    var ops := callbacks(log + entry);
    RespondReplays(t, ops);
    RespondCalls(t, ops);
    AnswersObey(log + entry, Respond(t, ops), callbacks);
    assert (entry + Respond(t, ops))[1..] == Respond(t, ops);
  }

  lemma OneObeys(log: Log, a: Action, callbacks: Callbacks)
    requires !a.Called?
    ensures Obeys(log, [a], callbacks)
  {
    assert [a][1..] == [];
  }

  lemma TurnObeys(t: Table, fd: int, r: set<int>, w: set<int>, log: Log, callbacks: Callbacks)
    ensures Obeys(log, Turn(t, fd, r, w, log, callbacks), callbacks)
  {
    if fd in t {
      var first := ReadPart(t, fd, r, log, callbacks);
      var t1 := Replay(t, first);
      var second := WritePart(t1, fd, t[fd].data, w, log + first, callbacks);
      OneObeys(log, Aborted, callbacks);
      OneObeys(log + first, Aborted, callbacks);
      CallBackObeys(OnRead, fd, t[fd].data, t, log, callbacks);
      CallBackObeys(OnWrite, fd, t[fd].data, t1, log + first, callbacks);
      CallBackShape(OnWrite, fd, t[fd].data, t1, log + first, callbacks);
      if !Halted(first) { ObeysConcat(log, first, second, callbacks); }
    }
  }

  lemma {:induction false} ScanObeys(t: Table, fd: nat, n: int, r: set<int>, w: set<int>, log: Log, callbacks: Callbacks)
    ensures Obeys(log, Scan(t, fd, n, r, w, log, callbacks), callbacks)
    decreases n + 1 - fd
  {
    if fd <= n {
      var turn := Turn(t, fd, r, w, log, callbacks);
      TurnObeys(t, fd, r, w, log, callbacks);
      if !Halted(turn) {
        ScanObeys(Replay(t, turn), fd + 1, n, r, w, log + turn, callbacks);
        ScanStart(Replay(t, turn), fd + 1, n, r, w, log + turn, callbacks);
        ObeysConcat(log, turn, Scan(Replay(t, turn), fd + 1, n, r, w, log + turn, callbacks), callbacks);
      }
    }
  }

  // ----- a drain

  lemma SettleObeys(t: Table, fd: int, log: Log, callbacks: Callbacks)
    ensures Obeys(log, Settle(t, fd, log, callbacks), callbacks)
    ensures Settle(t, fd, log, callbacks) != [] && !ByCallback(Settle(t, fd, log, callbacks)[0])
  {
    OneObeys(log, Aborted, callbacks);
    OneObeys(log, Dropped(fd), callbacks);
    if fd in t {
      CallBackObeys(OnBlock, fd, t[fd].data, t, log, callbacks);
      CallBackShape(OnBlock, fd, t[fd].data, t, log, callbacks);
    }
  }

  /** The calls made in a scan and in a drain are those the callbacks answer with. */
  lemma {:induction false} DrainObeys(t: Table, jobs: seq<int>, log: Log, callbacks: Callbacks)
    ensures Obeys(log, Drain(t, jobs, log, callbacks), callbacks)
    ensures var drain := Drain(t, jobs, log, callbacks); drain == [] || !ByCallback(drain[0])
    decreases |jobs|
  {
    if jobs != [] {
      var first := Settle(t, jobs[0], log, callbacks);
      SettleObeys(t, jobs[0], log, callbacks);
      if !Halted(first) {
        DrainObeys(Replay(t, first), jobs[1..], log + first, callbacks);
        ObeysConcat(log, first, Drain(Replay(t, first), jobs[1..], log + first, callbacks), callbacks);
      }
    }
  }

  /** The table a log leaves before its last entry. */
  function BeforeLast(t: Table, log: Log): Table
    requires log != []
  {
    Replay(t, log[..|log| - 1])
  }

  /** The job has a registration, which has no callback to tell it to. */
  predicate Unsettleable(now: Table, fd: int) {
    fd in now && !now[fd].handler.block
  }

  /** A drain settles a prefix of its jobs, in order.  It aborts iff that is not all of them,
      and then because the next job is registered at that moment without a block callback. */
  lemma {:induction false} DrainAbortsExactly(t: Table, jobs: seq<int>, log: Log, callbacks: Callbacks)
    ensures var drain := Drain(t, jobs, log, callbacks);
            var k := |Settled(drain)|;
            && k <= |jobs| && Settled(drain) == jobs[..k]
            && (Halted(drain) <==> k < |jobs|)
            && (Halted(drain) ==> Unsettleable(BeforeLast(t, drain), jobs[k]))
    decreases |jobs|
  {
    if jobs != [] {
      var first := Settle(t, jobs[0], log, callbacks);
      if Halted(first) {
        AbortsAtOnce(t, jobs[0], log, callbacks);
      } else {
        var t1 := Replay(t, first);
        var rest := Drain(t1, jobs[1..], log + first, callbacks);
        DrainAbortsExactly(t1, jobs[1..], log + first, callbacks);
        SettleOne(t, jobs[0], log, callbacks);
        SettledConcat(first, rest);
        HaltedConcat(first, rest);
        OneMoreJob(jobs, |Settled(rest)|);
        if Halted(rest) { BeforeLastConcat(t, first, rest); }
      }
    }
  }

  lemma AbortsAtOnce(t: Table, fd: int, log: Log, callbacks: Callbacks)
    requires Halted(Settle(t, fd, log, callbacks))
    ensures Settle(t, fd, log, callbacks) == [Aborted] && Settled([Aborted]) == []
    ensures Unsettleable(t, fd) && BeforeLast(t, [Aborted]) == t
  {
    if fd in t { CallBackShape(OnBlock, fd, t[fd].data, t, log, callbacks); }
    assert [Aborted][1..] == [] && [Aborted][..0] == [];
  }

  lemma OneMoreJob(jobs: seq<int>, k: nat)
    requires jobs != [] && k <= |jobs[1..]|
    ensures [jobs[0]] + jobs[1..][..k] == jobs[..k + 1]
  {
  }

  lemma BeforeLastConcat(t: Table, a: Log, b: Log)
    requires b != []
    ensures BeforeLast(t, a + b) == BeforeLast(Replay(t, a), b)
  {
    assert (a + b)[..|a + b| - 1] == a + b[..|b| - 1];
    ReplayConcat(t, a, b[..|b| - 1]);
  }
}

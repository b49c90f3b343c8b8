/** The selector: an item array indexed by descriptor with two derived indexes (the
    descriptor sets handed to `pselect` and the highest descriptor in use). */
module Selectors {
  import opened Wrappers
  import opened SelectorTable
  import opened Capacity
  import opened Dispatch

  const FD_UNUSED := -1

  datatype Item = Item(fd: int, handler: Handler, interest: Interest, data: int) {
    predicate Used() {
      fd != FD_UNUSED
    }
  }

  const UNUSED_ITEM := Item(FD_UNUSED, Handler(false, false, false, false), NOOP, 0)

  /** The result of `pselect`: the ready descriptors, an interruption, or an error. */
  datatype Wakeup = Ready(r: set<int>, w: set<int>) | Interrupted | Failure

  /** Every slot is blank or holds its own index. */
  ghost predicate SlotsHold(items: seq<Item>) {
    forall i :: 0 <= i < |items| ==> if items[i].Used() then items[i].fd == i && i < ITEMS_MAX_SIZE else items[i] == UNUSED_ITEM
  }

  ghost predicate InUse(items: seq<Item>, i: int) {
    0 <= i < |items| && items[i].Used()
  }

  ghost predicate IsMaxFd(items: seq<Item>, max: int) {
    && (forall i :: InUse(items, i) ==> i <= max)
    && (max == 0 || InUse(items, max))
  }

  ghost predicate SetsAgree(items: seq<Item>, r: set<int>, w: set<int>) {
    && (forall i :: i in r <==> InUse(items, i) && items[i].interest.read)
    && (forall i :: i in w <==> InUse(items, i) && items[i].interest.write)
  }

  ghost function TableOf(items: seq<Item>): Table {
    map i | 0 <= i < |items| && items[i].Used() :: Registration(items[i].handler, items[i].interest, items[i].data)
  }

  /** Unused slots at the end register nothing. */
  lemma TableOfGrown(items: seq<Item>, grown: seq<Item>)
    requires |items| <= |grown| && grown[..|items|] == items
    requires forall i :: |items| <= i < |grown| ==> !grown[i].Used()
    ensures TableOf(grown) == TableOf(items)
    ensures forall i :: InUse(grown, i) <==> InUse(items, i)
    ensures forall i :: InUse(items, i) ==> grown[i] == items[i]
  {
    assert forall i :: 0 <= i < |items| ==> grown[i] == grown[..|items|][i];
  }

  lemma TableOfSet(items: seq<Item>, fd: int, item: Item)
    requires 0 <= fd < |items| && item.Used()
    ensures TableOf(items[fd := item]) == TableOf(items)[fd := Registration(item.handler, item.interest, item.data)]
  {
  }

  lemma TableOfClear(items: seq<Item>, fd: int)
    requires 0 <= fd < |items|
    ensures TableOf(items[fd := UNUSED_ITEM]) == TableOf(items) - {fd}
  {
  }

  class Selector {
    var fds: array<Item>
    var maxFd: int
    var masterR: set<int>
    var masterW: set<int>
    var jobs: seq<int>         // descriptors of finished blocking jobs, newest first
    ghost var allocations: nat
    var log: Log               // callbacks entered and calls made by them

    ghost predicate Valid()
      reads this, fds
    {
      && IsSize(fds.Length)
      && allocations <= AllocationBound(fds.Length)
      && SlotsHold(fds[..])
      && SetsAgree(fds[..], masterR, masterW)
      && IsMaxFd(fds[..], maxFd)
      && 0 <= maxFd && (maxFd == 0 || maxFd < fds.Length)
      && forall j :: 0 <= j < |jobs| ==> 0 <= jobs[j] < fds.Length
    }

    /** The array covers every descriptor, as after `selector_new(1024)`. */
    ghost predicate Full()
      reads this, fds
    {
      fds.Length == ITEMS_MAX_SIZE + 1
    }

    ghost function Model(): Table
      reads this, fds
    {
      TableOf(fds[..])
    }

    constructor ()
      ensures Valid() && fresh(fds)
      ensures Model() == map[] && fds.Length == 0 && allocations == 0
      ensures jobs == [] && log == []
    {
      fds := new Item[0];
      maxFd := 0;
      masterR, masterW := {}, {};
      jobs := [];
      allocations := 0;
      log := [];
    }

    /** Makes room for slot `n`.  `memory` says whether the allocator delivers. */
    method EnsureCapacity(n: nat, memory: bool) returns (status: Status)
      requires Valid()
      modifies this`fds, this`allocations
      ensures Valid() && Model() == old(Model())
      ensures status == if n < old(fds.Length) then Success else if n > ITEMS_MAX_SIZE then MaxFd else if memory then Success else NoMemory
      ensures status.Success? ==> n < fds.Length
      ensures fds == old(fds) || (fresh(fds) && fds.Length > old(fds.Length) && fds[..old(fds.Length)] == old(fds[..]))
      ensures fds == old(fds) <==> n < old(fds.Length) || !status.Success?
      ensures forall i :: old(fds.Length) <= i < fds.Length ==> fds[i] == UNUSED_ITEM
      ensures n == ITEMS_MAX_SIZE && status.Success? ==> Full()
      ensures allocations == old(allocations) + (if fds == old(fds) then 0 else 1) <= 10
    {
      SizeLimit(fds.Length);
      if n < fds.Length {
        status := Success;
      } else if n > ITEMS_MAX_SIZE {
        status := MaxFd;
      } else {
        var size := NextCapacity(n);
        ghost var p: nat :| LeastPowerAbove(p, n) && size == (if p > ITEMS_MAX_SIZE then ITEMS_MAX_SIZE else p) + 1;
        GrowthRaisesBound(fds.Length, n, p, size);
        if !memory {
          status := NoMemory;
        } else {
          var items := fds[..];
          var grown := new Item[size](i requires 0 <= i reads {} => if i < |items| then items[i] else UNUSED_ITEM);
          TableOfGrown(items, grown[..]);
          fds := grown;
          allocations := allocations + 1;
          status := Success;
        }
      }
    }

    method UpdateFdSets(item: Item)
      modifies this`masterR, this`masterW
      ensures masterR == old(masterR) - {item.fd} + (if item.Used() && item.interest.read then {item.fd} else {})
      ensures masterW == old(masterW) - {item.fd} + (if item.Used() && item.interest.write then {item.fd} else {})
    {
      masterR := masterR - {item.fd};
      masterW := masterW - {item.fd};
      if item.Used() {
        if item.interest.read {
          masterR := masterR + {item.fd};
        }
        if item.interest.write {
          masterW := masterW + {item.fd};
        }
      }
    }

    method ItemsMaxFd() returns (max: int)
      requires 0 <= maxFd < fds.Length && SlotsHold(fds[..])
      requires forall i :: InUse(fds[..], i) ==> i <= maxFd
      ensures 0 <= max <= maxFd && IsMaxFd(fds[..], max)
    {
      max := 0;
      var i := 0;
      while i <= maxFd
        invariant 0 <= i <= maxFd + 1
        invariant 0 <= max <= maxFd && (max == 0 || InUse(fds[..], max))
        invariant forall k :: InUse(fds[..], k) && k < i ==> k <= max
      {
        var item := fds[i];
        assert item == fds[..][i];
        if item.Used() {
          if item.fd > max {
            max := item.fd;
          }
        }
        i := i + 1;
      }
    }

    method Register(fd: int, handler: Option<Handler>, interest: Interest, data: int, memory: bool) returns (status: Status)
      requires Valid()
      modifies this`fds, this`allocations, this`maxFd, this`masterR, this`masterW, fds
      ensures Valid()
      ensures fds == old(fds) || fresh(fds)
      ensures old(Full()) ==> Full() && fds == old(fds)
      ensures var op := Op.Register(fd, handler, interest, data);
              && (status == if ValidFd(fd) && handler.Some? && fd >= old(fds.Length) && !memory then NoMemory
                            else StatusOf(old(Model()), op))
              && Model() == if status.Success? then Apply(old(Model()), op) else old(Model())
      ensures status.Success? <==>
                0 <= fd < 1024 && handler.Some? && fd !in old(Model()) && (fd < old(fds.Length) || memory)
      ensures status.Success? ==> Model() == old(Model())[fd := Registration(handler.value, interest, data)]
    {
      if fd < 0 || fd >= ITEMS_MAX_SIZE || handler.None? {
        return BadArguments;
      }
      if fd >= fds.Length {
        status := EnsureCapacity(fd, memory);
        if !status.Success? {
          return;
        }
      }
      assert fds[fd] == fds[..][fd];
      if fds[fd].Used() {
        return FdInUse;
      }
      Occupy(fd, handler.value, interest, data);
      status := Success;
    }

    /** Fills an unused slot and brings the two indexes up to date. */
    method Occupy(fd: int, handler: Handler, interest: Interest, data: int)
      requires Valid() && ValidFd(fd) && fd < fds.Length && !fds[fd].Used()
      modifies this`maxFd, this`masterR, this`masterW, fds
      ensures Valid()
      ensures fd !in old(Model())
      ensures Model() == old(Model())[fd := Registration(handler, interest, data)]
    {
      ghost var before := fds[..];
      assert fds[fd] == before[fd];
      fds[fd] := Item(fd, handler, interest, data);
      if fd > maxFd {
        maxFd := fd;
      }
      UpdateFdSets(fds[fd]);
      assert fds[..] == before[fd := fds[fd]];
      TableOfSet(before, fd, fds[fd]);
      assert forall i :: InUse(fds[..], i) <==> i == fd || InUse(before, i);
    }

    /** The close callback, if there is one, runs before the item is cleared; it makes no
        selector call of its own. */
    method Unregister(fd: int) returns (status: Status)
      requires Valid()
      requires ValidFd(fd) ==> fd < fds.Length
      modifies this`maxFd, this`masterR, this`masterW, this`log, fds
      ensures Valid()
      ensures status == StatusOf(old(Model()), Op.Unregister(fd))
      ensures Model() == Apply(old(Model()), Op.Unregister(fd))
      ensures log == old(log) + Closing(old(Model()), Op.Unregister(fd))
      ensures status.Success? <==> fd in old(Model())
      ensures Model() == old(Model()) - {fd}
    {
      assert log == log + [];
      if fd < 0 || fd >= ITEMS_MAX_SIZE {
        return BadArguments;
      }
      var item := fds[fd];
      if !item.Used() {
        return BadArguments;
      }
      ghost var before := fds[..];
      assert item == before[fd];
      if item.handler.close {
        log := log + [Closed(item.fd, item.data)];
      }
      Vacate(fd);
      status := Success;
    }

    /** Clears a used slot and brings the two indexes up to date. */
    method Vacate(fd: int)
      requires Valid() && InUse(fds[..], fd)
      modifies this`maxFd, this`masterR, this`masterW, fds
      ensures Valid()
      ensures fd in old(Model()) && Model() == old(Model()) - {fd}
    {
      ghost var before := fds[..];
      var item := fds[fd].(interest := NOOP);
      assert fds[fd] == before[fd];
      UpdateFdSets(item);
      fds[fd] := UNUSED_ITEM;
      assert fds[..] == before[fd := UNUSED_ITEM];
      TableOfClear(before, fd);
      assert forall i :: InUse(fds[..], i) <==> i != fd && InUse(before, i);
      maxFd := ItemsMaxFd();
    }

    /** The shared end of the three interest setters. */
    method StoreInterest(fd: int, interest: Interest)
      requires Valid() && InUse(fds[..], fd)
      modifies this`masterR, this`masterW, fds
      ensures Valid()
      ensures fd in old(Model()) && ValidFd(fd)
      ensures Model() == old(Model())[fd := old(Model())[fd].(interest := interest)]
    {
      ghost var before := fds[..];
      assert fds[fd] == before[fd];
      fds[fd] := fds[fd].(interest := interest);
      UpdateFdSets(fds[fd]);
      assert fds[..] == before[fd := fds[fd]];
      TableOfSet(before, fd, fds[fd]);
      assert forall i :: InUse(fds[..], i) <==> InUse(before, i);
    }

    method AddInterest(fd: int, change: Interest) returns (status: Status)
      requires Valid()
      requires ValidFd(fd) ==> fd < fds.Length
      modifies this`masterR, this`masterW, fds
      ensures Valid()
      ensures status == StatusOf(old(Model()), Op.AddInterest(fd, change))
      ensures Model() == Apply(old(Model()), Op.AddInterest(fd, change))
      ensures status.Success? <==> fd in old(Model())
      ensures fd in old(Model()) ==> var was := old(Model())[fd].interest;
                Model() == old(Model())[fd := old(Model())[fd].(interest := Interest(was.read || change.read, was.write || change.write))]
    {
      if fd < 0 || fd >= ITEMS_MAX_SIZE || !fds[fd].Used() {
        return BadArguments;
      }
      StoreInterest(fd, fds[fd].interest.On(change));
      return Success;
    }

    method RemoveInterest(fd: int, change: Interest) returns (status: Status)
      requires Valid()
      requires ValidFd(fd) ==> fd < fds.Length
      modifies this`masterR, this`masterW, fds
      ensures Valid()
      ensures status == StatusOf(old(Model()), Op.RemoveInterest(fd, change))
      ensures Model() == Apply(old(Model()), Op.RemoveInterest(fd, change))
      ensures status.Success? <==> fd in old(Model())
      ensures fd in old(Model()) ==> var was := old(Model())[fd].interest;
                Model() == old(Model())[fd := old(Model())[fd].(interest := Interest(was.read && !change.read, was.write && !change.write))]
    {
      if fd < 0 || fd >= ITEMS_MAX_SIZE || !fds[fd].Used() {
        return BadArguments;
      }
      StoreInterest(fd, fds[fd].interest.Off(change));
      return Success;
    }

    method SetInterest(fd: int, change: Interest) returns (status: Status)
      requires Valid()
      requires ValidFd(fd) ==> fd < fds.Length
      modifies this`masterR, this`masterW, fds
      ensures Valid()
      ensures status == StatusOf(old(Model()), Op.SetInterest(fd, change))
      ensures Model() == Apply(old(Model()), Op.SetInterest(fd, change))
      ensures status.Success? <==> fd in old(Model())
      ensures fd in old(Model()) ==>
                Model() == old(Model())[fd := old(Model())[fd].(interest := change)]
    {
      if fd < 0 || fd >= ITEMS_MAX_SIZE || !fds[fd].Used() {
        return BadArguments;
      }
      StoreInterest(fd, change);
      return Success;
    }

    method Perform(op: Op) returns (status: Status)
      requires Valid() && Full()
      modifies this`fds, this`allocations, this`maxFd, this`masterR, this`masterW, this`log, fds
      ensures Valid() && Full() && fds == old(fds)
      ensures status == StatusOf(old(Model()), op) && Model() == Apply(old(Model()), op)
      ensures log == old(log) + Answer(old(Model()), op)
    {
      ghost var closing := Closing(Model(), op);
      Reassociate(log, closing, [Did(op, StatusOf(Model(), op))]);
      assert log == log + [];
      match op {
        case Register(fd, handler, interest, data) => status := Register(fd, handler, interest, data, true);
        case Unregister(fd) => status := Unregister(fd);
        case AddInterest(fd, i) => status := AddInterest(fd, i);
        case RemoveInterest(fd, i) => status := RemoveInterest(fd, i);
        case SetInterest(fd, i) => status := SetInterest(fd, i);
      }
      log := log + [Did(op, status)];
    }

    /** Enters a callback, which then makes whatever selector calls it likes. */
    method Enter(kind: Kind, fd: int, data: int, callbacks: Callbacks)
      requires Valid() && Full()
      modifies this`fds, this`allocations, this`maxFd, this`masterR, this`masterW, this`log, fds
      ensures Valid() && Full() && fds == old(fds)
      ensures log == old(log) + CallBack(kind, fd, data, old(Model()), old(log), callbacks)
      ensures Model() == Replay(old(Model()), CallBack(kind, fd, data, old(Model()), old(log), callbacks))
    {
      ghost var t0 := Model();
      var entry := [Called(kind, fd, data)];
      log := log + entry;
      ghost var entered := log;
      var all := callbacks(log);
      var ops := all;
      CallBackReplays(kind, fd, data, t0, old(log), callbacks);
      while ops != []
        invariant Valid() && Full() && fds == old(fds)
        invariant log + Respond(Model(), ops) == entered + Respond(t0, all)
        invariant ApplyAll(Model(), ops) == ApplyAll(t0, all)
        decreases |ops|
      {
        PeelResponse(log, Model(), ops);
        var status := Perform(ops[0]);
        ops := ops[1..];
      }
      assert log == entered + Respond(t0, all) by { assert log + [] == log; }
    }

    /** One descriptor's turn.  The source keeps a pointer to the item across the read
        callback; `items` is the array it points into, and with a full array no
        callback can have replaced it. */
    method TakeTurn(i: int, slaveR: set<int>, slaveW: set<int>, callbacks: Callbacks) returns (aborted: bool)
      requires Valid() && Full() && 0 <= i < fds.Length
      modifies this`fds, this`allocations, this`maxFd, this`masterR, this`masterW, this`log, fds
      ensures Valid() && Full() && fds == old(fds)
      ensures var turn := Turn(old(Model()), i, slaveR, slaveW, old(log), callbacks);
              && log == old(log) + turn
              && Model() == Replay(old(Model()), turn)
              && aborted == Halted(turn)
    {
      var items := fds;
      ghost var t0, log0 := Model(), log;
      assert items[i] == fds[..][i];
      if !items[i].Used() {
        return false;
      }
      var data := items[i].data;
      ghost var first := ReadPart(t0, i, slaveR, log, callbacks);
      aborted := OfferRead(i, data, slaveR, callbacks);
      if aborted {
        return;
      }
      assert items == fds;
      ghost var second := WritePart(Model(), i, data, slaveW, log, callbacks);
      ReplayConcat(t0, first, second);
      HaltedConcat(first, second);
      Reassociate(log0, first, second);
      aborted := OfferWrite(i, data, slaveW, callbacks);
    }

    method OfferRead(fd: int, data: int, slaveR: set<int>, callbacks: Callbacks) returns (aborted: bool)
      requires Valid() && Full() && InUse(fds[..], fd) && data == fds[fd].data
      modifies this`fds, this`allocations, this`maxFd, this`masterR, this`masterW, this`log, fds
      ensures Valid() && Full() && fds == old(fds)
      ensures fd in old(Model())
      ensures var first := ReadPart(old(Model()), fd, slaveR, old(log), callbacks);
              && log == old(log) + first && Model() == Replay(old(Model()), first) && aborted == Halted(first)
    {
      assert fds[fd] == fds[..][fd];
      aborted := false;
      if fd in slaveR && fds[fd].interest.read {
        if !fds[fd].handler.read {
          log := log + [Aborted];
          return true;
        }
        CallBackShape(OnRead, fd, data, Model(), log, callbacks);
        Enter(OnRead, fd, data, callbacks);
      }
    }

    method OfferWrite(fd: int, data: int, slaveW: set<int>, callbacks: Callbacks) returns (aborted: bool)
      requires Valid() && Full() && 0 <= fd < fds.Length
      modifies this`fds, this`allocations, this`maxFd, this`masterR, this`masterW, this`log, fds
      ensures Valid() && Full() && fds == old(fds)
      ensures var second := WritePart(old(Model()), fd, data, slaveW, old(log), callbacks);
              && log == old(log) + second && Model() == Replay(old(Model()), second) && aborted == Halted(second)
    {
      assert fds[fd] == fds[..][fd];
      aborted := false;
      if fd in slaveW && fds[fd].interest.write {
        assert fds[fd].Used();
        if !fds[fd].handler.write {
          log := log + [Aborted];
          return true;
        }
        CallBackShape(OnWrite, fd, data, Model(), log, callbacks);
        Enter(OnWrite, fd, data, callbacks);
      }
    }

    /** Dispatches the ready descriptors in one pass over the array. */
    method HandleIteration(slaveR: set<int>, slaveW: set<int>, callbacks: Callbacks) returns (aborted: bool)
      requires Valid() && Full()
      modifies this`fds, this`allocations, this`maxFd, this`masterR, this`masterW, this`log, fds
      ensures Valid() && Full() && fds == old(fds)
      ensures var scan := Scan(old(Model()), 0, old(maxFd), slaveR, slaveW, old(log), callbacks);
              && log == old(log) + scan
              && Model() == Replay(old(Model()), scan)
              && aborted == Halted(scan)
    {
      var n := maxFd;
      ghost var t0, log0 := Model(), log;
      ghost var scan := Scan(t0, 0, n, slaveR, slaveW, log0, callbacks);
      ghost var done: Log := [];
      var i := 0;
      while i <= n
        invariant 0 <= i <= n + 1 && n < ITEMS_MAX_SIZE + 1
        invariant Valid() && Full() && fds == old(fds)
        invariant log == log0 + done && Model() == Replay(t0, done) && !Halted(done)
        invariant done + Scan(Model(), i, n, slaveR, slaveW, log, callbacks) == scan
      {
        ghost var turn := Turn(Model(), i, slaveR, slaveW, log, callbacks);
        ghost var rest := if Halted(turn) then [] else Scan(Replay(Model(), turn), i + 1, n, slaveR, slaveW, log + turn, callbacks);
        ReplayConcat(t0, done, turn);
        HaltedConcat(done, turn);
        Reassociate(log0, done, turn);
        Reassociate(done, turn, rest);
        aborted := TakeTurn(i, slaveR, slaveW, callbacks);
        done := done + turn;
        if aborted {
          return;
        }
        i := i + 1;
      }
      assert done == scan;
      aborted := false;
    }

    /** Settles the finished jobs.  The list head is cleared only at the end; no job
        can be added meanwhile, because the whole drain holds the mutex. */
    method HandleBlockNotifications(callbacks: Callbacks) returns (aborted: bool)
      requires Valid() && Full()
      modifies this, fds
      ensures Valid() && Full() && fds == old(fds)
      ensures var drain := Drain(old(Model()), old(jobs), old(log), callbacks);
              && log == old(log) + drain
              && Model() == Replay(old(Model()), drain)
              && aborted == Halted(drain)
              && (!aborted ==> jobs == [])
    {
      ghost var t0, log0 := Model(), log;
      ghost var drain := Drain(t0, jobs, log0, callbacks);
      ghost var done: Log := [];
      var rest := jobs;
      while rest != []
        invariant Valid() && Full() && fds == old(fds)
        invariant forall j :: 0 <= j < |rest| ==> 0 <= rest[j] < fds.Length
        invariant log == log0 + done && Model() == Replay(t0, done) && !Halted(done)
        invariant done + Drain(Model(), rest, log, callbacks) == drain
        decreases |rest|
      {
        ghost var first := Settle(Model(), rest[0], log, callbacks);
        ghost var later := if Halted(first) then [] else Drain(Replay(Model(), first), rest[1..], log + first, callbacks);
        ReplayConcat(t0, done, first);
        HaltedConcat(done, first);
        Reassociate(log0, done, first);
        Reassociate(done, first, later);
        aborted := SettleJob(rest[0], callbacks);
        done := done + first;
        if aborted {
          return;
        }
        rest := rest[1..];
      }
      assert done == drain;
      jobs := [];
      aborted := false;
    }

    method SettleJob(fd: int, callbacks: Callbacks) returns (aborted: bool)
      requires Valid() && Full() && 0 <= fd < fds.Length
      modifies this`fds, this`allocations, this`maxFd, this`masterR, this`masterW, this`log, fds
      ensures Valid() && Full() && fds == old(fds)
      ensures var first := Settle(old(Model()), fd, old(log), callbacks);
              && log == old(log) + first
              && Model() == Replay(old(Model()), first)
              && aborted == Halted(first)
    {
      var item := fds[fd];
      assert item == fds[..][fd];
      aborted := false;
      if item.Used() {
        if !item.handler.block {
          log := log + [Aborted];
          return true;
        }
        CallBackShape(OnBlock, fd, item.data, Model(), log, callbacks);
        Enter(OnBlock, fd, item.data, callbacks);
      } else {
        log := log + [Dropped(fd)];
      }
    }

    /** A worker reports that the blocking job of `fd` is finished. */
    method NotifyBlock(fd: int, memory: bool) returns (status: Status)
      requires Valid() && 0 <= fd < fds.Length
      modifies this`jobs
      ensures Valid() && status == if memory then Success else NoMemory
      ensures jobs == if memory then [fd] + old(jobs) else old(jobs)
    {
      if !memory {
        return NoMemory;
      }
      jobs := [fd] + jobs;
      status := Success;
    }

    /** One round: wait, dispatch what is ready, settle finished jobs.  After an error
        of `pselect` neither is done, and the caller leaves its loop. */
    method Select(wakeup: Wakeup, callbacks: Callbacks) returns (status: Status, aborted: bool)
      requires Valid() && Full()
      requires wakeup.Ready? ==> wakeup.r <= masterR && wakeup.w <= masterW
      modifies this, fds
      ensures Valid() && Full() && fds == old(fds)
      ensures status.IoError? <==> wakeup.Failure?
      ensures wakeup.Failure? ==> log == old(log) && jobs == old(jobs) && Model() == old(Model()) && !aborted
      ensures !wakeup.Failure? ==>
                var r, w := if wakeup.Ready? then wakeup.r else {}, if wakeup.Ready? then wakeup.w else {};
                var scan := Scan(old(Model()), 0, if wakeup.Ready? then old(maxFd) else -1, r, w, old(log), callbacks);
                var drain := if Halted(scan) then [] else Drain(Replay(old(Model()), scan), old(jobs), old(log) + scan, callbacks);
                && log == old(log) + scan + drain
                && Model() == Replay(Replay(old(Model()), scan), drain)
                && aborted == (Halted(scan) || Halted(drain))
                && (!aborted ==> jobs == [])
    {
      status, aborted := Success, false;
      if wakeup.Failure? {
        return IoError, false;
      }
      assert log == log + [];
      if wakeup.Ready? {
        aborted := HandleIteration(wakeup.r, wakeup.w, callbacks);
        if aborted {
          return;
        }
      }
      aborted := HandleBlockNotifications(callbacks);
    }
  }

  /** `selector_new`: null when the array for the initial descriptors cannot be had. */
  method SelectorNew(initial: nat, memory: bool) returns (s: Selector?)
    ensures s == null <==> initial > ITEMS_MAX_SIZE || !memory
    ensures s != null ==> fresh(s) && fresh(s.fds) && s.Valid() && s.Model() == map[] && initial < s.fds.Length
    ensures s != null && initial == ITEMS_MAX_SIZE ==> s.Full()
  {
    var made := new Selector();
    var status := made.EnsureCapacity(initial, memory);
    s := if status.Success? then made else null;
  }

  /** The window `0..maxFd` handed to `pselect` holds every descriptor some caller is
      interested in, and a window ending at a smaller `m` misses a registered one. */
  lemma WindowIsExact(items: seq<Item>, r: set<int>, w: set<int>, max: int, m: int)
    requires SetsAgree(items, r, w) && IsMaxFd(items, max) && 0 <= max
    ensures forall fd :: fd in r || fd in w ==> 0 <= fd <= max
    ensures 0 <= m < max ==> exists fd :: InUse(items, fd) && m < fd
  {
    if m < max && max != 0 {
      assert InUse(items, max);
    }
  }
}

/** The COPY phase of a session as a state machine: two pipes, the interests of the two
    descriptors, and the flag that one peer has finished sending. */
module RelayModel {
  import opened Wrappers
  import opened Bytes
  import opened Buffers
  import opened SelectorTable

  datatype Side = Client | Origin {
    function Other(): Side {
      if Client? then Origin else Client
    }
  }

  /** `up` carries bytes from client to origin, `down` the other way.  A descriptor that
      the selector does not know has no interest.  `bytes` is the 64-bit counter. */
  datatype Relay = Relay(up: Pipe, down: Pipe, client: Option<Interest>, origin: Option<Interest>, closing: bool, bytes: nat) {

    function InterestOf(side: Side): Option<Interest> {
      if side.Client? then client else origin
    }

    function WithInterest(side: Side, i: Interest): Relay {
      if side.Client? then this.(client := Some(i)) else this.(origin := Some(i))
    }

    /** The pipe that receives from a side fill. */
    function From(side: Side): Pipe {
      if side.Client? then up else down
    }

    /** The pipe that sends to a side drain. */
    function To(side: Side): Pipe {
      if side.Client? then down else up
    }

    function WithFrom(side: Side, p: Pipe): Relay {
      if side.Client? then this.(up := p) else this.(down := p)
    }

    function WithTo(side: Side, p: Pipe): Relay {
      if side.Client? then this.(down := p) else this.(up := p)
    }
  }

  datatype Verdict = Copy | Close | Error

  /** What `recv` gives: some bytes, the end of the stream, a reset, another failure. */
  datatype Recv = Got(chunk: seq<byte>) | Eof | Reset | RecvFailed

  datatype Send = Sent(n: nat) | SendFailed

  /** `broken` is the pending error of the socket, looked at after the transfer. */
  datatype Event = Readable(side: Side, recv: Recv, broken: bool) | Writable(side: Side, send: Send, broken: bool)

  function After(broken: bool): Verdict {
    if broken then Error else Copy
  }

  /** The interests and the verdict once the bytes received are in their pipe. */
  function AfterRecv(s1: Relay, side: Side, broken: bool): (Verdict, Relay) {
    var full := s1.From(side).Room() <= 0;
    if full && s1.InterestOf(side).None? then (Error, s1) else
    var s2 := if full then s1.WithInterest(side, s1.InterestOf(side).value.Off(READ)) else s1;
    if s2.InterestOf(side.Other()).None? then (Error, s2)
    else (After(broken), s2.WithInterest(side.Other(), s2.InterestOf(side.Other()).value.On(WRITE)))
  }

  function CopyRead(s: Relay, side: Side, recv: Recv, broken: bool): (Verdict, Relay) {
    match recv
    case Got(chunk) =>
      AfterRecv(s.WithFrom(side, s.From(side).Put(chunk)).(bytes := (s.bytes + |chunk|) % WORD), side, broken)
    case RecvFailed => (Error, s)
    case _ =>
      if s.InterestOf(side).None? then (Error, s) else
      var s1 := s.WithInterest(side, s.InterestOf(side).value.Off(READ));
      if s.From(side).pending == [] then (Close, s1) else (After(broken), s1.(closing := true))
  }

  function CopyWrite(s: Relay, side: Side, send: Send, broken: bool): (Verdict, Relay)
    requires send.Sent? ==> send.n <= |s.To(side).pending|
  {
    if send.SendFailed? || send.n == 0 then (Error, s)
    else AfterSend(s.WithTo(side, s.To(side).Take(send.n)), side, broken)
  }

  /** The interests and the verdict once the bytes sent have left their pipe. */
  function AfterSend(s1: Relay, side: Side, broken: bool): (Verdict, Relay) {
    var emptied := s1.To(side).pending == [];
    if emptied && s1.InterestOf(side).None? then (Error, s1) else
    var s2 := if emptied then s1.WithInterest(side, s1.InterestOf(side).value.Off(WRITE)) else s1;
    if s1.closing then (Close, s2)
    else if s2.InterestOf(side.Other()).None? then (Error, s2)
    else (After(broken), s2.WithInterest(side.Other(), s2.InterestOf(side.Other()).value.On(READ)))
  }

  /** What the kernel and the dispatch allow: the descriptor is interested, a receive
      fits the room, a send takes at most what is offered. */
  predicate Legal(s: Relay, e: Event) {
    match e
    case Readable(side, recv, _) =>
      && s.InterestOf(side).Some? && s.InterestOf(side).value.read
      && (recv.Got? ==> 0 < |recv.chunk| <= s.From(side).Room())
    case Writable(side, send, _) =>
      && s.InterestOf(side).Some? && s.InterestOf(side).value.write
      && (send.Sent? ==> 0 < send.n <= |s.To(side).pending|)
  }

  function Step(s: Relay, e: Event): (Verdict, Relay)
    requires Legal(s, e)
  {
    match e
    case Readable(side, recv, broken) => CopyRead(s, side, recv, broken)
    case Writable(side, send, broken) => CopyWrite(s, side, send, broken)
  }

  /** A run, up to and including the event that ends it if any does. */
  ghost predicate Run(s: Relay, events: seq<Event>, verdict: Verdict, t: Relay)
    decreases |events|
  {
    if events == [] then verdict.Copy? && s == t
    else
      && Legal(s, events[0])
      && var (v, s1) := Step(s, events[0]);
         if v.Copy? then Run(s1, events[1..], verdict, t) else events[1..] == [] && verdict == v && t == s1
  }

  /** COPY as it is entered after the reply was sent: both buffers drained, both sides
      being read. */
  predicate Entered(s: Relay) {
    && s.up.pending == s.down.pending == [] && s.up.tail == s.down.tail == 0
    && s.up.limit > 0 && s.down.limit > 0
    && s.up.put == s.up.taken && s.down.put == s.down.taken
    && s.client == s.origin == Some(READ) && !s.closing && s.bytes < WORD
  }

  // ----- what each event does

  predicate Known(s: Relay, side: Side) {
    s.InterestOf(side).Some?
  }

  /** When a call of the read handler leaves the session in COPY, closes it or fails it,
      whatever the descriptors and `recv` answer.  The pending error of the socket counts
      only where the session would go on. */
  lemma ReadVerdictExactly(s: Relay, side: Side, recv: Recv, broken: bool)
    ensures var v := CopyRead(s, side, recv, broken).0;
            match recv
            case Got(chunk) =>
              && !v.Close?
              && (v.Copy? <==> !broken && Known(s, side.Other()) && (s.From(side).Room() <= |chunk| ==> Known(s, side)))
            case RecvFailed => v.Error?
            case _ =>
              && (v.Close? <==> Known(s, side) && s.From(side).pending == [])
              && (v.Copy? <==> Known(s, side) && s.From(side).pending != [] && !broken)
  {
  }

  /** The same of the write handler; it wants to know the descriptor sent to only when its
      buffer runs empty, and the other one only when it goes on. */
  lemma WriteVerdictExactly(s: Relay, side: Side, send: Send, broken: bool)
    requires send.Sent? ==> send.n <= |s.To(side).pending|
    ensures var v := CopyWrite(s, side, send, broken).0;
            match send
            case SendFailed => v.Error?
            case Sent(n) =>
              var asked := n == |s.To(side).pending| ==> Known(s, side);
              && (v.Close? <==> n > 0 && asked && s.closing)
              && (v.Copy? <==> n > 0 && asked && !s.closing && Known(s, side.Other()) && !broken)
  {
    if send.Sent? {
      assert s.To(side).Take(send.n).pending == [] <==> send.n == |s.To(side).pending|;
      hide Pipe.Take;
    }
  }

  /** What an event that leaves the session in COPY does to the four bits of interest and
      to the closing flag; `Room` and `pending` are those after it. */
  lemma InterestsExactly(s: Relay, e: Event, side: Side)
    requires Legal(s, e) && Step(s, e).0.Copy? && s.client.Some? && s.origin.Some?
    ensures var t := Step(s, e).1;
            && t.InterestOf(side).Some?
            && t.InterestOf(side).value.read ==
               (if e.Readable? && e.side == side then s.InterestOf(side).value.read && e.recv.Got? && t.From(side).Room() > 0
                else if e.Writable? && e.side == side.Other() then true
                else s.InterestOf(side).value.read)
            && t.InterestOf(side).value.write ==
               (if e.Writable? && e.side == side then s.InterestOf(side).value.write && t.To(side).pending != []
                else if e.Readable? && e.side == side.Other() && e.recv.Got? then true
                else s.InterestOf(side).value.write)
            && (t.closing <==> s.closing || (e.Readable? && !e.recv.Got?))
  {
    StepPipes(s, e);
    hide Pipe.Put, Pipe.Take;
  }

  /** A run that is still in COPY has met no socket error and no failed transfer. */
  lemma {:induction false} CopyMeansUnbroken(s: Relay, events: seq<Event>, t: Relay)
    requires Run(s, events, Copy, t)
    ensures forall k :: 0 <= k < |events| ==> !events[k].broken
    ensures forall k :: 0 <= k < |events| ==>
              if events[k].Readable? then !events[k].recv.RecvFailed? else events[k].send.Sent?
    decreases |events|
  {
    if events != [] {
      match events[0] {
        case Readable(side, recv, broken) => ReadVerdictExactly(s, side, recv, broken);
        case Writable(side, send, broken) => WriteVerdictExactly(s, side, send, broken);
      }
      CopyMeansUnbroken(Step(s, events[0]).1, events[1..], t);
    }
  }

  // ----- the progress invariant

  ghost predicate SideProgress(s: Relay, side: Side) {
    && s.InterestOf(side).Some?
    && (s.InterestOf(side).value.write <==> s.To(side).pending != [])
    && (!s.InterestOf(side).value.read ==> s.From(side).pending != [])
  }

  ghost predicate Progress(s: Relay) {
    && s.up.Valid() && s.down.Valid() && s.up.limit > 0 && s.down.limit > 0
    && SideProgress(s, Client) && SideProgress(s, Origin)
    && (s.closing ==>
          || (!s.client.value.read && s.up.pending != [])
          || (!s.origin.value.read && s.down.pending != []))
    && s.bytes < WORD
  }

  lemma ReadKeepsProgress(s: Relay, side: Side, recv: Recv, broken: bool)
    requires Progress(s) && Legal(s, Readable(side, recv, broken))
    ensures var (v, t) := CopyRead(s, side, recv, broken); v.Copy? ==> Progress(t)
  {
    if recv.Got? {
      PutKeeps(s.From(side), recv.chunk);
      if side.Client? {
        ClientReadKeeps(s, recv.chunk, broken);
      } else {
        OriginReadKeeps(s, recv.chunk, broken);
      }
    }
  }

  lemma ClientReadKeeps(s: Relay, chunk: seq<byte>, broken: bool)
    requires Progress(s) && Legal(s, Readable(Client, Got(chunk), broken))
    requires s.up.Put(chunk).Valid() && s.up.Put(chunk).pending != [] && s.up.Put(chunk).limit == s.up.limit
    ensures var (v, t) := CopyRead(s, Client, Got(chunk), broken); v.Copy? ==> Progress(t)
  {
    hide Pipe.Put;
  }

  lemma OriginReadKeeps(s: Relay, chunk: seq<byte>, broken: bool)
    requires Progress(s) && Legal(s, Readable(Origin, Got(chunk), broken))
    requires s.down.Put(chunk).Valid() && s.down.Put(chunk).pending != [] && s.down.Put(chunk).limit == s.down.limit
    ensures var (v, t) := CopyRead(s, Origin, Got(chunk), broken); v.Copy? ==> Progress(t)
  {
    hide Pipe.Put;
  }

  lemma WriteKeepsProgress(s: Relay, side: Side, send: Send, broken: bool)
    requires Progress(s) && Legal(s, Writable(side, send, broken))
    ensures var (v, t) := CopyWrite(s, side, send, broken); v.Copy? ==> Progress(t)
  {
    if send.Sent? {
      TakeKeeps(s.To(side), send.n);
      if side.Client? {
        ClientWriteKeeps(s, send.n, broken);
      } else {
        OriginWriteKeeps(s, send.n, broken);
      }
    }
  }

  lemma ClientWriteKeeps(s: Relay, n: nat, broken: bool)
    requires Progress(s) && Legal(s, Writable(Client, Sent(n), broken))
    requires s.down.Take(n).Valid() && (s.down.Take(n).pending == [] <==> n == |s.down.pending|)
    ensures var (v, t) := CopyWrite(s, Client, Sent(n), broken); v.Copy? ==> Progress(t)
  {
  }

  lemma OriginWriteKeeps(s: Relay, n: nat, broken: bool)
    requires Progress(s) && Legal(s, Writable(Origin, Sent(n), broken))
    requires s.up.Take(n).Valid() && (s.up.Take(n).pending == [] <==> n == |s.up.pending|)
    ensures var (v, t) := CopyWrite(s, Origin, Sent(n), broken); v.Copy? ==> Progress(t)
  {
  }

  lemma StepProgress(s: Relay, e: Event)
    requires Progress(s) && Legal(s, e)
    ensures Step(s, e).0.Copy? ==> Progress(Step(s, e).1)
  {
    match e {
      case Readable(side, recv, broken) => ReadKeepsProgress(s, side, recv, broken);
      case Writable(side, send, broken) => WriteKeepsProgress(s, side, send, broken);
    }
  }

  lemma {:induction false} ProgressOnRun(s: Relay, events: seq<Event>, t: Relay)
    requires Progress(s) && Run(s, events, Copy, t)
    ensures Progress(t)
    decreases |events|
  {
    if events != [] {
      StepProgress(s, events[0]);
      ProgressOnRun(Step(s, events[0]).1, events[1..], t);
    }
  }

  /** In every reachable COPY state: a destination waits to write iff its buffer holds
      something, a source not being read has bytes pending, a closing session has bytes
      pending.  So some descriptor always has an interest, and a send always has
      something to send. */
  lemma AlwaysProgress(s: Relay, events: seq<Event>, t: Relay)
    requires Entered(s) && Run(s, events, Copy, t)
    ensures Progress(t)
    ensures t.client.value != NOOP || t.origin.value != NOOP
    ensures forall side :: t.InterestOf(side).value.write ==> t.To(side).pending != []
    ensures t.closing ==> t.up.pending != [] || t.down.pending != []
  {
    assert SideProgress(s, Client) && SideProgress(s, Origin);
    ProgressOnRun(s, events, t);
    assert SideProgress(t, Client) && SideProgress(t, Origin);
  }

  /** A source that is not being read although the session is not closing has a full buffer. */
  ghost predicate ReadUnlessFull(s: Relay) {
    !s.closing ==> forall side :: s.InterestOf(side).Some? && !s.InterestOf(side).value.read ==> s.From(side).Room() <= 0
  }

  /** Over whole runs: as long as neither side has ended, the code stops reading only from a
      source whose buffer is full. */
  lemma {:induction false} StopsReadingOnlyWhenFull(s: Relay, events: seq<Event>, t: Relay)
    requires Progress(s) && ReadUnlessFull(s) && Run(s, events, Copy, t)
    ensures ReadUnlessFull(t)
    decreases |events|
  {
    if events != [] {
      var e, m := events[0], Step(s, events[0]).1;
      StepProgress(s, e);
      FullStep(s, e);
      StopsReadingOnlyWhenFull(m, events[1..], t);
    }
  }

  lemma FullStep(s: Relay, e: Event)
    requires Progress(s) && ReadUnlessFull(s) && Legal(s, e) && Step(s, e).0.Copy?
    ensures ReadUnlessFull(Step(s, e).1)
  {
    var t := Step(s, e).1;
    assert SideProgress(s, Client) && SideProgress(s, Origin);
    StepPipes(s, e);
    InterestsExactly(s, e, Client);
    InterestsExactly(s, e, Origin);
    hide Step, Pipe.Put;
    forall side | !t.closing && !t.InterestOf(side).value.read
      ensures t.From(side).Room() <= 0
    {
    }
  }

  /** Entered with bytes already in the buffer towards the origin, as after a client that
      did not wait for the reply, the invariant fails: nobody waits to send them. */
  lemma EarlyBytesWait(s: Relay)
    requires s.up.Valid() && s.down.Valid() && s.up.limit > 0 && s.down.limit > 0 && s.bytes < WORD
    requires s.client == s.origin == Some(READ) && !s.closing
    ensures Progress(s) <==> s.up.pending == [] && s.down.pending == []
  {
    if s.up.pending == [] && s.down.pending == [] {
      assert SideProgress(s, Client) && SideProgress(s, Origin);
    } else {
      assert Progress(s) ==> SideProgress(s, Client) && SideProgress(s, Origin);
    }
  }

  /** And so it stays: however long the relay runs, as long as the client delivers nothing
      more, the early bytes stay where they are, whatever the origin does. */
  lemma {:induction false} EarlyBytesStay(s: Relay, events: seq<Event>, verdict: Verdict, t: Relay)
    requires s.origin.Some? && !s.origin.value.write && Run(s, events, verdict, t)
    requires forall k :: 0 <= k < |events| ==> !Delivers(events[k], Client)
    ensures t.up == s.up && t.origin.Some? && !t.origin.value.write
    decreases |events|
  {
    if events != [] {
      var (v, m) := Step(s, events[0]);
      assert !Delivers(events[0], Client);
      EarlyByteStep(s, events[0]);
      if v.Copy? { EarlyBytesStay(m, events[1..], verdict, t); }
    }
  }

  lemma EarlyByteStep(s: Relay, e: Event)
    requires s.origin.Some? && !s.origin.value.write && Legal(s, e) && !Delivers(e, Client)
    ensures var t := Step(s, e).1; t.up == s.up && t.origin.Some? && !t.origin.value.write
  {
    hide Pipe.Put, Pipe.Take;
    assert !(e.Writable? && e.side.Origin?);
  }

  // ----- conservation

  predicate Delivers(e: Event, side: Side) {
    e.Readable? && e.side == side && e.recv.Got?
  }

  /** The bytes a side delivered during a run. */
  function AllGot(events: seq<Event>, side: Side): seq<byte> {
    if events == [] then []
    else (if events[0].Readable? && events[0].side == side && events[0].recv.Got? then events[0].recv.chunk else [])
         + AllGot(events[1..], side)
  }

  function AllGotCount(events: seq<Event>): nat {
    if events == [] then 0
    else (if events[0].Readable? && events[0].recv.Got? then |events[0].recv.chunk| else 0) + AllGotCount(events[1..])
  }

  /** From `s` to `t` the pipes took in exactly what the events brought. */
  ghost predicate Grew(s: Relay, events: seq<Event>, t: Relay) {
    && t.up.put == s.up.put + AllGot(events, Client)
    && t.down.put == s.down.put + AllGot(events, Origin)
    && t.bytes == (s.bytes + AllGotCount(events)) % WORD
  }

  /** What one event does to the pipes and the counter, whatever the verdict. */
  lemma StepPipes(s: Relay, e: Event)
    requires Legal(s, e)
    ensures var t := Step(s, e).1;
            if e.Readable? && e.recv.Got? then
              && t.From(e.side) == s.From(e.side).Put(e.recv.chunk) && t.To(e.side) == s.To(e.side)
              && t.bytes == (s.bytes + |e.recv.chunk|) % WORD
            else if e.Writable? && e.send.Sent? then
              t.To(e.side) == s.To(e.side).Take(e.send.n) && t.From(e.side) == s.From(e.side) && t.bytes == s.bytes
            else t.up == s.up && t.down == s.down && t.bytes == s.bytes
  {
  }

  lemma StepConserves(s: Relay, e: Event)
    requires s.up.Valid() && s.down.Valid() && Legal(s, e) && s.bytes < WORD
    ensures var t := Step(s, e).1;
            t.up.Valid() && t.down.Valid() && t.bytes < WORD && Grew(s, [e], t)
  {
    OneGot(e, Client);
    OneGot(e, Origin);
    StepPipes(s, e);
    if e.Writable? && e.send.Sent? {
      TakeKeeps(s.To(e.side), e.send.n);
    }
  }

  lemma OneGot(e: Event, side: Side)
    ensures AllGot([e], side) == if e.Readable? && e.side == side && e.recv.Got? then e.recv.chunk else []
    ensures AllGotCount([e]) == if e.Readable? && e.recv.Got? then |e.recv.chunk| else 0
  {
    assert [e][1..] == [];
  }

  lemma AddMod(a: nat, b: nat, c: nat)
    ensures ((a + b) % WORD + c) % WORD == (a + b + c) % WORD
  {
  }

  lemma GrewCompose(s: Relay, e: Event, m: Relay, events: seq<Event>, t: Relay)
    requires events != [] && e == events[0]
    requires Grew(s, [e], m) && Grew(m, events[1..], t)
    ensures Grew(s, events, t)
  {
    SplitGot(events);
    Reassociate(s.up.put, AllGot([e], Client), AllGot(events[1..], Client));
    Reassociate(s.down.put, AllGot([e], Origin), AllGot(events[1..], Origin));
    AddMod(s.bytes, AllGotCount([e]), AllGotCount(events[1..]));
  }

  lemma {:induction false} RunGrows(s: Relay, events: seq<Event>, verdict: Verdict, t: Relay)
    requires s.up.Valid() && s.down.Valid() && Run(s, events, verdict, t) && s.bytes < WORD
    ensures t.up.Valid() && t.down.Valid() && Grew(s, events, t)
    decreases |events|
  {
    if events == [] {
      assert s.up.put + [] == s.up.put && s.down.put + [] == s.down.put;
    } else {
      var m := Step(s, events[0]).1;
      StepConserves(s, events[0]);
      if Step(s, events[0]).0.Copy? {
        RunGrows(m, events[1..], verdict, t);
        GrewCompose(s, events[0], m, events, t);
      } else {
        assert events == [events[0]];
      }
    }
  }

  /** Conservation over any run, whatever ends it: per direction, the bytes received are
      the bytes sent followed by the bytes pending, so what was sent is a prefix of what
      was received; and the counter grows by the bytes received, modulo its width. */
  lemma RelayConserves(s: Relay, events: seq<Event>, verdict: Verdict, t: Relay)
    requires s.up.Valid() && s.down.Valid() && Run(s, events, verdict, t) && s.bytes < WORD
    ensures s.up.put + AllGot(events, Client) == t.up.taken + t.up.pending
    ensures s.down.put + AllGot(events, Origin) == t.down.taken + t.down.pending
    ensures t.up.taken <= s.up.put + AllGot(events, Client)
    ensures t.down.taken <= s.down.put + AllGot(events, Origin)
    ensures t.bytes == (s.bytes + AllGotCount(events)) % WORD
  {
    RunGrows(s, events, verdict, t);
  }

  lemma SplitGot(events: seq<Event>)
    requires events != []
    ensures forall side :: AllGot(events, side) == AllGot([events[0]], side) + AllGot(events[1..], side)
    ensures AllGotCount(events) == AllGotCount([events[0]]) + AllGotCount(events[1..])
  {
    forall side
      ensures AllGot(events, side) == AllGot([events[0]], side) + AllGot(events[1..], side)
    {
      OneGot(events[0], side);
    }
  }

  // ----- reading with no room

  /** The side is being read although its buffer has no room behind the write position:
      the next `recv` asks for no bytes, so it returns zero, which the code takes for
      the end of the stream. */
  predicate Starved(s: Relay, side: Side) {
    s.InterestOf(side).Some? && s.InterestOf(side).value.read && s.From(side).Room() == 0
  }

  /** A send that takes a part of a full buffer while the session is not closing. */
  predicate Pinches(s: Relay, e: Event, side: Side) {
    && e.Writable? && e.side == side.Other() && e.send.Sent? && !s.closing
    && s.From(side).tail == s.From(side).limit && e.send.n < |s.From(side).pending|
  }

  /** A side becomes starved exactly by such a send. */
  lemma StarvedIff(s: Relay, e: Event, side: Side)
    requires Progress(s) && Legal(s, e) && Step(s, e).0.Copy? && !Starved(s, side)
    ensures Starved(Step(s, e).1, side) <==> Pinches(s, e, side)
  {
    if e.Readable? {
      ReadNeverStarves(s, e.side, e.recv, e.broken, side);
    } else if e.side == side {
      StepPipes(s, e);
    } else {
      SendStarves(s, side, e.send, e.broken);
    }
  }

  ghost predicate EverStarved(s: Relay, events: seq<Event>, side: Side)
    decreases |events|
  {
    Starved(s, side) || (events != [] && Legal(s, events[0]) && EverStarved(Step(s, events[0]).1, events[1..], side))
  }

  ghost predicate EverPinched(s: Relay, events: seq<Event>, side: Side)
    decreases |events|
  {
    && events != [] && Legal(s, events[0])
    && (Pinches(s, events[0], side) || EverPinched(Step(s, events[0]).1, events[1..], side))
  }

  /** Over whole runs: a side is ever being read with no room exactly if some event is a
      partial send from its full buffer while the session is not closing. */
  lemma {:induction false} EverStarvedIff(s: Relay, events: seq<Event>, t: Relay, side: Side)
    requires Progress(s) && !Starved(s, side) && Run(s, events, Copy, t)
    ensures EverStarved(s, events, side) <==> EverPinched(s, events, side)
    decreases |events|
  {
    if events != [] {
      var m := Step(s, events[0]).1;
      StarvedIff(s, events[0], side);
      StepProgress(s, events[0]);
      if !Starved(m, side) { EverStarvedIff(m, events[1..], t, side); }
    }
  }

  lemma ReadNeverStarves(s: Relay, reader: Side, recv: Recv, broken: bool, side: Side)
    requires Progress(s) && Legal(s, Readable(reader, recv, broken))
    requires CopyRead(s, reader, recv, broken).0.Copy? && !Starved(s, side)
    ensures !Starved(CopyRead(s, reader, recv, broken).1, side)
  {
    hide Pipe.Put;
    StepPipes(s, Readable(reader, recv, broken));
  }

  lemma SendStarves(s: Relay, side: Side, send: Send, broken: bool)
    requires Progress(s) && Legal(s, Writable(side.Other(), send, broken))
    requires CopyWrite(s, side.Other(), send, broken).0.Copy? && !Starved(s, side)
    ensures Starved(CopyWrite(s, side.Other(), send, broken).1, side) <==>
              !s.closing && s.From(side).tail == s.From(side).limit && send.n < |s.From(side).pending|
  {
    var t := CopyWrite(s, side.Other(), send, broken).1;
    StepPipes(s, Writable(side.Other(), send, broken));
    TakeTail(s.From(side), send.n);
    hide Pipe.Take;
    assert SideProgress(s, side);
    assert !s.closing ==> t.InterestOf(side).value.read;
  }

  lemma TakeTail(p: Pipe, n: nat)
    requires p.Valid() && n <= |p.pending|
    ensures p.Take(n).limit == p.limit && p.Take(n).tail == if n == |p.pending| then 0 else p.tail
  {
  }

  /** Whatever the peer of a starved side does next, reading it marks the session as
      closing or ends it. */
  lemma StarvedReadCloses(s: Relay, e: Event)
    requires Progress(s) && Legal(s, e) && e.Readable? && Starved(s, e.side)
    ensures !Step(s, e).0.Copy? || Step(s, e).1.closing
  {
  }

  /** A closing session never opens again and tries at most one more send, which is its
      last event: whatever that send leaves pending on either side is lost. */
  lemma {:induction false} ClosingSendsOnce(s: Relay, events: seq<Event>, verdict: Verdict, t: Relay)
    requires Progress(s) && s.closing && Run(s, events, verdict, t)
    ensures t.closing
    ensures forall k :: 0 <= k < |events| && events[k].Writable? ==>
              k == |events| - 1 && (if events[k].send.Sent? then verdict.Close? else verdict.Error?)
    decreases |events|
  {
    if events != [] {
      var e := events[0];
      var (v, m) := Step(s, e);
      StepProgress(s, e);
      assert SideProgress(s, Client) && SideProgress(s, Origin);
      ClosingStep(s, e);
      if v.Copy? { ClosingSendsOnce(m, events[1..], verdict, t); }
    }
  }

  lemma ClosingStep(s: Relay, e: Event)
    requires Progress(s) && s.closing && Legal(s, e)
    ensures Step(s, e).1.closing
    ensures e.Writable? ==> if e.send.Sent? then Step(s, e).0.Close? else Step(s, e).0.Error?
  {
    hide Pipe.Put, Pipe.Take;
  }

  /** A normal close delivered everything it had received exactly when the other
      direction had nothing pending and, on a send, the send took the whole buffer. */
  lemma CloseIsLossless(s: Relay, e: Event)
    requires Progress(s) && Legal(s, e) && Step(s, e).0.Close?
    ensures var t := Step(s, e).1;
            (t.up.taken == t.up.put && t.down.taken == t.down.put) <==>
              match e
              case Readable(side, _, _) => s.To(side).pending == []
              case Writable(side, send, _) => s.From(side).pending == [] && send.n == |s.To(side).pending|
  {
    var t := Step(s, e).1;
    StepConserves(s, e);
    assert t.up.taken == t.up.put <==> t.up.pending == [] by { TakenAll(t.up); }
    assert t.down.taken == t.down.put <==> t.down.pending == [] by { TakenAll(t.down); }
  }

  lemma TakenAll(p: Pipe)
    requires p.Valid()
    ensures p.taken == p.put <==> p.pending == []
  {
    if p.pending == [] { assert p.taken + [] == p.taken; } else { assert |p.put| > |p.taken|; }
  }
}

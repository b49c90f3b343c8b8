/** The relay together with the two peers behind its sockets, which decides when the
    end of a stream is real.

    A peer holds the bytes it has sent and the relay has not received yet, and whether it
    has finished sending.  A `recv` that asks for no bytes returns zero, like one at the
    end of the stream. */
module RelayPeers {
  import opened Wrappers
  import opened Bytes
  import opened Buffers
  import opened SelectorTable
  import opened RelayModel

  datatype Peer = Peer(queue: seq<byte>, ended: bool)

  datatype World = World(relay: Relay, client: Peer, origin: Peer) {
    function At(side: Side): Peer {
      if side.Client? then client else origin
    }

    function With(side: Side, p: Peer): World {
      if side.Client? then this.(client := p) else this.(origin := p)
    }
  }

  datatype Act = Sends(side: Side, bytes: seq<byte>) | Ends(side: Side) | Handle(e: Event)

  /** The end of the stream, or no room to receive into, while something is there to read. */
  predicate Answers(p: Peer, room: int, recv: Recv) {
    match recv
    case Got(chunk) => 0 < |chunk| <= room && chunk <= p.queue
    case Eof => if room <= 0 then p.queue != [] || p.ended else p.queue == [] && p.ended
    case _ => true
  }

  predicate Possible(w: World, a: Act) {
    match a
    case Sends(side, _) => !w.At(side).ended
    case Ends(_) => true
    case Handle(e) =>
      Legal(w.relay, e) && (e.Readable? ==> Answers(w.At(e.side), w.relay.From(e.side).Room(), e.recv))
  }

  function Next(w: World, a: Act): (Verdict, World)
    requires Possible(w, a)
  {
    match a
    case Sends(side, bytes) => (Copy, w.With(side, w.At(side).(queue := w.At(side).queue + bytes)))
    case Ends(side) => (Copy, w.With(side, w.At(side).(ended := true)))
    case Handle(e) =>
      var (v, relay) := Step(w.relay, e);
      var w1 := w.(relay := relay);
      if Delivers(e, e.side) then (v, w1.With(e.side, w.At(e.side).(queue := w.At(e.side).queue[|e.recv.chunk|..])))
      else (v, w1)
  }

  ghost predicate WorldRun(w: World, acts: seq<Act>, verdict: Verdict, t: World)
    decreases |acts|
  {
    if acts == [] then verdict.Copy? && w == t
    else
      && Possible(w, acts[0])
      && var (v, w1) := Next(w, acts[0]);
         if v.Copy? then WorldRun(w1, acts[1..], verdict, t) else acts[1..] == [] && verdict == v && t == w1
  }

  /** What the relay sees of a run. */
  function Events(acts: seq<Act>): seq<Event> {
    if acts == [] then [] else (if acts[0].Handle? then [acts[0].e] else []) + Events(acts[1..])
  }

  lemma {:induction false} RunOfWorld(w: World, acts: seq<Act>, verdict: Verdict, t: World)
    requires WorldRun(w, acts, verdict, t)
    ensures Run(w.relay, Events(acts), verdict, t.relay)
    decreases |acts|
  {
    if acts != [] {
      var (v, m) := Next(w, acts[0]);
      if v.Copy? { RunOfWorld(m, acts[1..], verdict, t); }
      if acts[0].Handle? {
        assert Events(acts)[0] == acts[0].e && Events(acts)[1..] == Events(acts[1..]);
      } else {
        assert Events(acts) == Events(acts[1..]);
      }
    }
  }

  // ----- what a peer sent is received or still queued

  function AllSent(acts: seq<Act>, side: Side): seq<byte> {
    if acts == [] then []
    else (if acts[0].Sends? && acts[0].side == side then acts[0].bytes else []) + AllSent(acts[1..], side)
  }

  function SentBy(a: Act, side: Side): seq<byte> {
    if a.Sends? && a.side == side then a.bytes else []
  }

  lemma NextConserves(w: World, a: Act, side: Side)
    requires Possible(w, a)
    ensures var m := Next(w, a).1;
            m.relay.From(side).put + m.At(side).queue == w.relay.From(side).put + w.At(side).queue + SentBy(a, side)
  {
    var m := Next(w, a).1;
    var put, queue := w.relay.From(side).put, w.At(side).queue;
    match a {
      case Sends(_, bytes) => Reassociate(put, queue, SentBy(a, side));
      case Ends(_) =>
      case Handle(e) =>
        StepPipes(w.relay, e);
        if Delivers(e, side) {
          Reassociate(put, e.recv.chunk, queue[|e.recv.chunk|..]);
          assert e.recv.chunk + queue[|e.recv.chunk|..] == queue;
        }
    }
  }

  /** Whatever a peer sent has been received by the relay, in order, or is still queued. */
  lemma {:induction false} PeerConserves(w: World, acts: seq<Act>, verdict: Verdict, t: World, side: Side)
    requires WorldRun(w, acts, verdict, t)
    ensures t.relay.From(side).put + t.At(side).queue == w.relay.From(side).put + w.At(side).queue + AllSent(acts, side)
    decreases |acts|
  {
    var before := w.relay.From(side).put + w.At(side).queue;
    if acts == [] {
      assert before + [] == before;
    } else {
      var (v, m) := Next(w, acts[0]);
      NextConserves(w, acts[0], side);
      Reassociate(before, SentBy(acts[0], side), AllSent(acts[1..], side));
      if v.Copy? {
        PeerConserves(m, acts[1..], verdict, t, side);
      } else {
        assert before + SentBy(acts[0], side) + [] == before + SentBy(acts[0], side);
      }
    }
  }

  // ----- real and false ends

  /** The end of its stream is real: the peer has finished, and all it sent was received. */
  predicate Finished(w: World, side: Side) {
    w.At(side).ended && w.At(side).queue == []
  }

  /** Every end of stream the relay is told of in the run is real. */
  ghost predicate EndsAreReal(w: World, acts: seq<Act>)
    decreases |acts|
  {
    acts == [] ||
    (&& Possible(w, acts[0])
     && (acts[0].Handle? && acts[0].e.Readable? && acts[0].e.recv.Eof? ==> Finished(w, acts[0].e.side))
     && var (v, m) := Next(w, acts[0]);
        (v.Copy? ==> EndsAreReal(m, acts[1..])))
  }

  lemma PinchTail(w: World, acts: seq<Act>, side: Side)
    requires acts != [] && Possible(w, acts[0]) && !EverPinched(w.relay, Events(acts), side)
    ensures !EverPinched(Next(w, acts[0]).1.relay, Events(acts[1..]), side)
    ensures acts[0].Handle? ==> !Pinches(w.relay, acts[0].e, side)
  {
    if acts[0].Handle? {
      assert Events(acts)[0] == acts[0].e && Events(acts)[1..] == Events(acts[1..]);
    } else {
      assert Events(acts) == Events(acts[1..]);
    }
  }

  /** As long as no send takes a part of a full buffer, the relay takes no stream for
      finished before its peer has finished and all its bytes have come in. */
  lemma {:induction false} UnpinchedEndsAreReal(w: World, acts: seq<Act>, verdict: Verdict, t: World)
    requires Progress(w.relay) && !Starved(w.relay, Client) && !Starved(w.relay, Origin)
    requires WorldRun(w, acts, verdict, t)
    requires !EverPinched(w.relay, Events(acts), Client) && !EverPinched(w.relay, Events(acts), Origin)
    ensures EndsAreReal(w, acts)
    decreases |acts|
  {
    if acts != [] {
      var a := acts[0];
      var (v, m) := Next(w, a);
      PinchTail(w, acts, Client);
      PinchTail(w, acts, Origin);
      if a.Handle? && v.Copy? {
        StepProgress(w.relay, a.e);
        StarvedIff(w.relay, a.e, Client);
        StarvedIff(w.relay, a.e, Origin);
      }
      if v.Copy? { UnpinchedEndsAreReal(m, acts[1..], verdict, t); }
    }
  }

  /** So an end of stream loses nothing on its way in: a relay that is told of an end has
      received all that side ever sent. */
  lemma EndMeansAllReceived(w: World, acts: seq<Act>, t: World, side: Side)
    requires Entered(w.relay) && WorldRun(w, acts, Copy, t)
    requires !EverPinched(w.relay, Events(acts), Client) && !EverPinched(w.relay, Events(acts), Origin)
    requires Possible(t, Handle(Readable(side, Eof, false)))
    ensures t.At(side).ended
    ensures t.relay.From(side).put == w.relay.From(side).put + w.At(side).queue + AllSent(acts, side)
  {
    assert SideProgress(w.relay, Client) && SideProgress(w.relay, Origin);
    RunOfWorld(w, acts, Copy, t);
    EverStarvedIff(w.relay, Events(acts), t.relay, side);
    if Starved(t.relay, side) { StarvedAtEnd(w.relay, Events(acts), t.relay, side); }
    PeerConserves(w, acts, Copy, t, side);
    assert t.relay.From(side).put + [] == t.relay.From(side).put;
    ProgressOnRun(w.relay, Events(acts), t.relay);
  }

  lemma {:induction false} StarvedAtEnd(s: Relay, events: seq<Event>, t: Relay, side: Side)
    requires Run(s, events, Copy, t) && Starved(t, side)
    ensures EverStarved(s, events, side)
    decreases |events|
  {
    if events != [] { StarvedAtEnd(Step(s, events[0]).1, events[1..], t, side); }
  }

  /** Some end of stream in the run is false: it is answered to a source that is waiting to
      be read with no room for it, and whose peer has not finished. */
  ghost predicate SomeEndIsFalse(w: World, acts: seq<Act>)
    decreases |acts|
  {
    && acts != [] && Possible(w, acts[0])
    && var (v, m) := Next(w, acts[0]);
       || (EndsAt(acts[0]) && Starved(w.relay, acts[0].e.side) && !Finished(w, acts[0].e.side))
       || (v.Copy? && SomeEndIsFalse(m, acts[1..]))
  }

  predicate EndsAt(a: Act) {
    a.Handle? && a.e.Readable? && a.e.recv.Eof?
  }

  /** Over whole runs: not all ends are real iff such an end is among them. */
  lemma {:induction false} FalseEndIff(w: World, acts: seq<Act>, verdict: Verdict, t: World)
    requires Progress(w.relay) && WorldRun(w, acts, verdict, t)
    ensures !EndsAreReal(w, acts) <==> SomeEndIsFalse(w, acts)
    decreases |acts|
  {
    if acts != [] {
      var a := acts[0];
      var (v, m) := Next(w, a);
      if a.Handle? { StepProgress(w.relay, a.e); }
      if v.Copy? { FalseEndIff(m, acts[1..], verdict, t); }
    }
  }

  /** What a pinch makes possible, whatever the state: right after it, if the peer of the
      pinched side is not finished, its stream can be taken for finished. */
  lemma PinchAllowsFalseEnd(w: World, e: Event, side: Side) returns (acts: seq<Act>, verdict: Verdict, t: World)
    requires Progress(w.relay) && Possible(w, Handle(e)) && Pinches(w.relay, e, side)
    requires Next(w, Handle(e)).0.Copy? && !Finished(w, side)
    ensures acts != [] && acts[0] == Handle(e)
    ensures WorldRun(w, acts, verdict, t) && !EndsAreReal(w, acts)
  {
    var m := Next(w, Handle(e)).1;
    PinchStarves(w, e, side);
    var end := Handle(Readable(side, Eof, false));
    if w.At(side).queue != [] {
      acts := [Handle(e), end];
      verdict, t := OneAct(m, end);
      assert acts[1..] == [end];
      FirstAct(w, acts, m, verdict, t);
    } else {
      var more := Sends(side, [0]);
      var n := Next(m, more).1;
      var later := [more, end];
      verdict, t := OneAct(n, end);
      assert later[1..] == [end];
      FirstAct(m, later, n, verdict, t);
      acts := [Handle(e)] + later;
      assert acts[1..] == later;
      FirstAct(w, acts, m, verdict, t);
    }
  }

  lemma PinchStarves(w: World, e: Event, side: Side)
    requires Progress(w.relay) && Possible(w, Handle(e)) && Pinches(w.relay, e, side)
    requires Next(w, Handle(e)).0.Copy?
    ensures var m := Next(w, Handle(e)).1; Starved(m.relay, side) && m.At(side) == w.At(side)
  {
    var m := Step(w.relay, e).1;
    StepPipes(w.relay, e);
    TakeTail(w.relay.From(side), e.send.n);
    StepProgress(w.relay, e);
    hide Pipe.Take;
    assert SideProgress(m, side);
  }

  /** The end of a stream that has not ended. */
  lemma OneAct(w: World, a: Act) returns (verdict: Verdict, t: World)
    requires Possible(w, a) && EndsAt(a) && !Finished(w, a.e.side)
    ensures WorldRun(w, [a], verdict, t) && !EndsAreReal(w, [a])
  {
    verdict, t := Next(w, a).0, Next(w, a).1;
    assert [a][1..] == [];
  }

  lemma FirstAct(w: World, acts: seq<Act>, m: World, verdict: Verdict, t: World)
    requires acts != [] && Possible(w, acts[0]) && Next(w, acts[0]) == (Copy, m)
    requires WorldRun(m, acts[1..], verdict, t)
    ensures WorldRun(w, acts, verdict, t)
    ensures !EndsAreReal(m, acts[1..]) ==> !EndsAreReal(w, acts)
  {
  }

  /** It is needed: a client sends a little more than a buffer holds and never finishes.
      After a partial send its stream is taken for finished, and the session closes with
      all but two of its bytes dropped. */
  lemma FalseEndExample(w: World, bytes: seq<byte>) returns (t: World)
    requires Entered(w.relay) && w.relay.up.limit == 4096
    requires w.client == Peer([], false) && |bytes| == 4097
    ensures var send := Handle(Writable(Origin, Sent(1), false));
            var acts := [Sends(Client, bytes), Handle(Readable(Client, Got(bytes[..4096]), false)), send,
                         Handle(Readable(Client, Eof, false)), send];
            && WorldRun(w, acts, Close, t) && !EndsAreReal(w, acts)
            && !t.client.ended && t.client.queue == bytes[4096..]
            && t.relay.up.taken == w.relay.up.taken + bytes[..2] && t.relay.up.pending == bytes[2..4096]
  {
    var chunk := bytes[..4096];
    var send := Handle(Writable(Origin, Sent(1), false));
    var fill, end := Handle(Readable(Client, Got(chunk), false)), Handle(Readable(Client, Eof, false));
    var acts := [Sends(Client, bytes), fill, send, end, send];
    var sent := w.(client := Peer(bytes, false));
    assert acts[1..] == [fill, send, end, send] && acts[2..] == [send, end, send] && acts[3..] == [end, send] && acts[4..] == [send];
    assert Next(w, acts[0]) == (Copy, sent) by { assert [] + bytes == bytes; }
    var full := Filled(sent, bytes, chunk);
    var pinched := Pinched(full, chunk);
    var closing := pinched.(relay := pinched.relay.(client := Some(NOOP), closing := true));
    assert Possible(pinched, end) && Next(pinched, end) == (Copy, closing);
    t := SendOne(closing);
    assert WorldRun(closing, [send], Close, t) by { assert [send][1..] == []; }
    var acts1, acts2, acts3 := [end, send], [send, end, send], [fill, send, end, send];
    FirstAct(pinched, acts1, closing, Close, t);
    FirstAct(full, acts2, pinched, Close, t);
    FirstAct(sent, acts3, full, Close, t);
    FirstAct(w, acts, sent, Close, t);
    assert w.relay.up.taken + chunk[..1] + chunk[1..][..1] == w.relay.up.taken + bytes[..2];
    assert chunk[1..][1..] == bytes[2..4096];
  }

  lemma Filled(w: World, bytes: seq<byte>, chunk: seq<byte>) returns (m: World)
    requires Entered(w.relay) && w.relay.up.limit == 4096 && w.client == Peer(bytes, false)
    requires |bytes| == 4097 && chunk == bytes[..4096]
    ensures var a := Handle(Readable(Client, Got(chunk), false)); Possible(w, a) && Next(w, a) == (Copy, m)
    ensures m.relay.up.pending == chunk && m.relay.up.tail == 4096 == m.relay.up.limit && !m.relay.closing
    ensures m.relay.up.taken == w.relay.up.taken
    ensures m.relay.client == Some(NOOP) && m.relay.origin == Some(Interest(true, true))
    ensures m.client == Peer(bytes[4096..], false)
  {
    m := Next(w, Handle(Readable(Client, Got(chunk), false))).1;
    assert [] + chunk == chunk;
  }

  lemma Pinched(w: World, chunk: seq<byte>) returns (m: World)
    requires w.relay.up.pending == chunk && w.relay.up.tail == 4096 == w.relay.up.limit == |chunk| && !w.relay.closing
    requires w.relay.client == Some(NOOP) && w.relay.origin == Some(Interest(true, true))
    ensures var a := Handle(Writable(Origin, Sent(1), false)); Possible(w, a) && Next(w, a) == (Copy, m)
    ensures m.relay.up.pending == chunk[1..] && m.relay.up.taken == w.relay.up.taken + chunk[..1]
    ensures Starved(m.relay, Client) && !m.relay.closing && m.client == w.client
    ensures m.relay.client == Some(READ) && m.relay.origin == Some(Interest(true, true))
  {
    m := Next(w, Handle(Writable(Origin, Sent(1), false))).1;
  }

  lemma SendOne(w: World) returns (m: World)
    requires |w.relay.up.pending| > 1 && w.relay.closing && w.relay.origin == Some(Interest(true, true))
    ensures var a := Handle(Writable(Origin, Sent(1), false)); Possible(w, a) && Next(w, a) == (Close, m)
    ensures m.client == w.client
    ensures m.relay.up.pending == w.relay.up.pending[1..]
    ensures m.relay.up.taken == w.relay.up.taken + w.relay.up.pending[..1]
  {
    m := Next(w, Handle(Writable(Origin, Sent(1), false))).1;
  }
}

/** The HELLO phase: choosing an authentication method out of those the client offers
    (section 3 of RFC 1928), answering, and leaving the phase. */
module Negotiation {
  import opened Wrappers
  import opened Bytes
  import opened Buffers
  import opened Drains
  import opened SelectorTable
  import P = HelloParsers

  const NOAUTH: byte := 0
  const AUTH: byte := 2
  const NOMETHOD: byte := 0xFF
  const UNDECIDED: int := -1

  datatype Phase = InHello | HelloAuth | RequestReading | Failed

  /** The choice the protocol asks for: the password method if it is offered anywhere,
      else no authentication if that is, else none acceptable. */
  function Choice(methods: seq<byte>): byte {
    if AUTH in methods then AUTH else if NOAUTH in methods then NOAUTH else NOMETHOD
  }

  /** The effect of one offered method on the selection so far. */
  function Consider(selected: int, m: byte): int {
    if m == AUTH then m
    else if m == NOAUTH then (if selected != AUTH then m else selected)
    else if selected != AUTH && selected != NOAUTH then NOMETHOD
    else selected
  }

  function SelectFrom(selected: int, methods: seq<byte>): int
    decreases |methods|
  {
    if methods == [] then selected
    else Consider(SelectFrom(selected, methods[..|methods| - 1]), methods[|methods| - 1])
  }

  /** The selection does not depend on the order or repetition of the offers. */
  lemma {:induction false} SelectionIsChoice(methods: seq<byte>)
    requires methods != []
    ensures SelectFrom(UNDECIDED, methods) == Choice(methods)
    decreases |methods|
  {
    var n := |methods| - 1;
    var before := methods[..n];
    assert methods == before + [methods[n]];
    if before == [] {
      assert methods == [methods[n]];
    } else {
      SelectionIsChoice(before);
    }
  }

  /** Runs over the offered methods. */
  method Select(methods: seq<byte>, initial: int) returns (selected: int)
    ensures selected == SelectFrom(initial, methods)
    ensures initial == UNDECIDED && methods != [] ==> selected == Choice(methods)
  {
    selected := initial;
    var i := 0;
    while i < |methods|
      invariant 0 <= i <= |methods|
      invariant selected == SelectFrom(initial, methods[..i])
    {
      assert methods[..i + 1][..i] == methods[..i];
      if methods[i] == AUTH {
        selected := methods[i];
      } else if methods[i] == NOAUTH {
        if selected != AUTH {
          selected := methods[i];
        }
      } else {
        if selected != AUTH && selected != NOAUTH {
          selected := NOMETHOD;
        }
      }
      i := i + 1;
    }
    assert methods[..i] == methods;
    if initial == UNDECIDED && methods != [] { SelectionIsChoice(methods); }
  }

  /** The two bytes of the answer; an undecided selection is sent as its low byte. */
  function Reply(selected: int): seq<byte> {
    [P.SOCKS_VERSION, selected % 256]
  }

  function Respond(out: Pipe, selected: int): Pipe {
    if out.Room() >= 2 then out.Put(Reply(selected)) else out
  }

  /** A session in the HELLO phase. */
  datatype Session = Session(parser: P.Hello, inbox: Pipe, outbox: Pipe, selected: int, interest: Interest)

  function Begin(limit: nat): Session {
    Session(P.HELLO_INIT, EmptyPipe(limit), EmptyPipe(limit), UNDECIDED, READ)
  }

  lemma {:induction false} DrainShrinks(p: P.Hello, bs: seq<byte>)
    ensures |Drain(P.Step, P.Stop, p, bs).1| <= |bs|
    decreases |bs|
  {
    if bs != [] && !P.Stop(P.Step(p, bs[0])) { DrainShrinks(P.Step(p, bs[0]), bs[1..]); }
  }

  /** What a successful receive of `chunk` does; an empty one stands for a failed
      receive or a closed peer, both of which change nothing. */
  function ReadStep(s: Session, chunk: seq<byte>): Session {
    if chunk == [] then s else
    var filled := s.inbox.Put(chunk);
    var (p, rest) := Drain(P.Step, P.Stop, s.parser, filled.pending);
    DrainShrinks(s.parser, filled.pending);
    var t := s.(parser := p, inbox := filled.Take(|filled.pending| - |rest|));
    if p.state.End? then
      var selected := SelectFrom(s.selected, p.methods);
      t.(selected := selected, interest := WRITE, outbox := Respond(s.outbox, selected))
    else if p.state.Error? then
      t.(selected := NOMETHOD, interest := WRITE, outbox := Respond(s.outbox, s.selected))
    else t
  }

  /** The phase after the answer was sent. */
  function LeaveBy(selected: int): Phase {
    if selected == AUTH then HelloAuth
    else if selected == NOAUTH then RequestReading
    else if selected == NOMETHOD then Failed
    else InHello
  }

  /** Receives until the session stops asking for more. */
  function ReadAll(s: Session, chunks: seq<seq<byte>>): Session
    decreases |chunks|
  {
    if chunks == [] || !s.interest.read then s else ReadAll(ReadStep(s, chunks[0]), chunks[1..])
  }

  // ----- what the phase promises

  ghost predicate NoneEmpty(chunks: seq<seq<byte>>) {
    forall i :: 0 <= i < |chunks| ==> chunks[i] != []
  }

  /** While the session reads, nothing is left in its inbox and its parser goes on. */
  ghost predicate Listening(s: Session) {
    && s.interest == READ && !P.Stop(s.parser) && s.inbox.pending == []
    && s.selected == UNDECIDED && s.outbox == EmptyPipe(s.outbox.limit) && s.outbox.limit >= 2
  }

  /** Where the phase stands once parsing the whole input gave `p`. */
  ghost predicate Stands(s: Session, p: P.Hello) {
    && s.parser == p
    && if p.state.End? then
         s.selected == SelectFrom(UNDECIDED, p.methods) && s.interest == WRITE && s.outbox.pending == Reply(s.selected)
       else if p.state.Error? then
         s.selected == NOMETHOD && s.interest == WRITE && s.outbox.pending == Reply(NOMETHOD)
       else Listening(s)
  }

  lemma ReadStepStands(s: Session, chunk: seq<byte>)
    requires Listening(s) && chunk != []
    ensures Stands(ReadStep(s, chunk), Drain(P.Step, P.Stop, s.parser, chunk).0)
  {
    assert [] + chunk == chunk;
    DrainLeavesOnlyIfStopped(P.Step, P.Stop, s.parser, chunk);
  }

  lemma {:induction false} ReadAllStands(s: Session, chunks: seq<seq<byte>>)
    requires Listening(s) && NoneEmpty(chunks)
    ensures Stands(ReadAll(s, chunks), Drain(P.Step, P.Stop, s.parser, Flatten(chunks)).0)
    decreases |chunks|
  {
    if chunks != [] {
      var t := ReadStep(s, chunks[0]);
      ReadStepStands(s, chunks[0]);
      DrainConcat(P.Step, P.Stop, s.parser, chunks[0], Flatten(chunks[1..]));
      DrainLeavesOnlyIfStopped(P.Step, P.Stop, s.parser, chunks[0]);
      if P.Stop(t.parser) {
        assert ReadAll(t, chunks[1..]) == t;
      } else {
        assert [] + Flatten(chunks[1..]) == Flatten(chunks[1..]);
        ReadAllStands(t, chunks[1..]);
      }
    }
  }

  /** However a client's first bytes are split over receives: a complete message is
      answered with the choice among its methods, and the phase is left for password
      authentication, for the request, or in failure, as that choice says; it never
      stays in HELLO. */
  lemma CompleteHelloIsAnswered(limit: nat, chunks: seq<seq<byte>>, n: nat)
    requires limit >= 2 && NoneEmpty(chunks)
    requires n <= |Flatten(chunks)| && P.IsHello(Flatten(chunks)[..n])
    ensures var s := ReadAll(Begin(limit), chunks);
            var choice := Choice(Flatten(chunks)[2..n]);
            && s.interest == WRITE && s.selected == choice
            && s.outbox.pending == [P.SOCKS_VERSION, choice]
            && LeaveBy(s.selected) == (if choice == AUTH then HelloAuth else if choice == NOAUTH then RequestReading else Failed)
  {
    hide ReadAll, Drain, P.IsHello, SelectFrom, P.Step;
    var t := Flatten(chunks);
    BeginListens(limit);
    ReadAllStands(Begin(limit), chunks);
    P.HelloEnds(t, n);
    P.EndMeansHello(t);
    var (p, rest) := Drain(P.Step, P.Stop, P.HELLO_INIT, t);
    SameHello(t, n, |t| - |rest|);
    SelectionIsChoice(p.methods);
  }

  // ----- what the phase leaves to the next

  /** The first receives that bring `n` bytes. */
  function Until(chunks: seq<seq<byte>>, n: int): (k: nat)
    ensures k <= |chunks|
    decreases |chunks|
  {
    if chunks == [] || n <= 0 then 0 else 1 + Until(chunks[1..], n - |chunks[0]|)
  }

  /** A receive that does not end the message takes all it brings. */
  lemma ReadStepKeepsRest(s: Session, chunk: seq<byte>)
    requires Listening(s) && chunk != []
    ensures var t := ReadStep(s, chunk);
            t.inbox.put == s.inbox.put + chunk && t.inbox.pending == Drain(P.Step, P.Stop, s.parser, chunk).1
  {
    assert [] + chunk == chunk;
    var rest := Drain(P.Step, P.Stop, s.parser, chunk).1;
    DrainShrinks(s.parser, chunk);
    var consumed := DrainTail(s.parser, chunk);
  }

  lemma {:induction false} DrainTail(p: P.Hello, bs: seq<byte>) returns (consumed: seq<byte>)
    ensures bs == consumed + Drain(P.Step, P.Stop, p, bs).1
    decreases |bs|
  {
    if bs == [] {
      consumed := [];
    } else if P.Stop(P.Step(p, bs[0])) {
      consumed := [bs[0]];
    } else {
      var later := DrainTail(P.Step(p, bs[0]), bs[1..]);
      consumed := [bs[0]] + later;
    }
  }

  /** `n` more bytes end the message the session listens to. */
  ghost predicate EndsAfter(p: P.Hello, bs: seq<byte>, n: nat) {
    && 0 < n <= |bs| && P.Stop(Run(P.Step, p, bs[..n]))
    && forall k :: 0 < k < n ==> !P.Stop(Run(P.Step, p, bs[..k]))
  }

  lemma EndsLater(p: P.Hello, a: seq<byte>, b: seq<byte>, n: nat)
    requires EndsAfter(p, a + b, n) && |a| < n
    ensures EndsAfter(Run(P.Step, p, a), b, n - |a|)
    ensures !P.Stop(Run(P.Step, p, a)) || a == []
  {
    assert (a + b)[..n] == a + b[..n - |a|];
    RunConcat(P.Step, p, a, b[..n - |a|]);
    forall k | 0 < k < n - |a|
      ensures !P.Stop(Run(P.Step, Run(P.Step, p, a), b[..k]))
    {
      assert (a + b)[..|a| + k] == a + b[..k];
      RunConcat(P.Step, p, a, b[..k]);
    }
    assert (a + b)[..|a|] == a;
  }

  lemma {:induction false} DrainRuns(p: P.Hello, bs: seq<byte>)
    requires forall k :: 0 < k <= |bs| ==> !P.Stop(Run(P.Step, p, bs[..k]))
    ensures Drain(P.Step, P.Stop, p, bs) == (Run(P.Step, p, bs), [])
    decreases |bs|
  {
    if bs != [] {
      var q := P.Step(p, bs[0]);
      assert bs[..1][1..] == [] && Run(P.Step, p, bs[..1]) == q;
      forall k | 0 < k <= |bs[1..]|
        ensures !P.Stop(Run(P.Step, q, bs[1..][..k]))
      {
        assert bs[..k + 1][1..] == bs[1..][..k];
      }
      DrainRuns(q, bs[1..]);
    }
  }

  /** The session stops receiving with the receive that brings the last byte of the message,
      and what this brings beyond it stays in the inbox. */
  lemma {:induction false} LeavesRest(s: Session, chunks: seq<seq<byte>>, n: nat)
    requires Listening(s) && NoneEmpty(chunks) && EndsAfter(s.parser, Flatten(chunks), n)
    ensures var t, got := ReadAll(s, chunks), Flatten(chunks[..Until(chunks, n)]);
            t.inbox.put == s.inbox.put + got && n <= |got| && t.inbox.pending == got[n..]
    decreases |chunks|
  {
    var c, later := chunks[0], Flatten(chunks[1..]);
    var t := ReadStep(s, c);
    ReadStepStands(s, c);
    ReadStepKeepsRest(s, c);
    FirstOnly(chunks);
    if n <= |c| {
      EndsInFirst(s.parser, c, later, n);
      assert ReadAll(t, chunks[1..]) == t;
    } else {
      EndsLater(s.parser, c, later, n);
      GoesOnPastFirst(s.parser, c, later, n);
      var k := Until(chunks[1..], n - |c|);
      FirstAndMore(chunks, k);
      hide Drain, EndsAfter, Flatten, Stands, ReadStep;
      LeavesRest(t, chunks[1..], n - |c|);
      Reassociate(s.inbox.put, c, Flatten(chunks[1..][..k]));
    }
  }

  lemma FirstOnly(chunks: seq<seq<byte>>)
    requires chunks != []
    ensures Flatten(chunks[..1]) == chunks[0]
  {
    var one := [chunks[0]];
    assert chunks[..1] == one && one[1..] == [];
    assert Flatten(one) == chunks[0] + [];
  }

  lemma FirstAndMore(chunks: seq<seq<byte>>, k: nat)
    requires chunks != [] && k <= |chunks[1..]|
    ensures Flatten(chunks[..k + 1]) == chunks[0] + Flatten(chunks[1..][..k])
  {
    assert chunks[..k + 1][1..] == chunks[1..][..k];
  }

  lemma EndsInFirst(p: P.Hello, c: seq<byte>, later: seq<byte>, n: nat)
    requires EndsAfter(p, c + later, n) && n <= |c|
    ensures P.Stop(Drain(P.Step, P.Stop, p, c).0) && Drain(P.Step, P.Stop, p, c).1 == c[n..]
  {
    assert (c + later)[..n] == c[..n] && c == c[..n] + c[n..];
    forall k | 0 < k < n ensures c[..n][..k] == (c + later)[..k] { }
    DrainStopsAt(P.Step, P.Stop, p, c[..n], c[n..]);
  }

  lemma GoesOnPastFirst(p: P.Hello, c: seq<byte>, later: seq<byte>, n: nat)
    requires EndsAfter(p, c + later, n) && |c| < n
    ensures Drain(P.Step, P.Stop, p, c) == (Run(P.Step, p, c), [])
    ensures c != [] ==> !P.Stop(Run(P.Step, p, c))
  {
    forall k | 0 < k <= |c| ensures !P.Stop(Run(P.Step, p, c[..k])) { assert (c + later)[..k] == c[..k]; }
    DrainRuns(p, c);
    assert c[..|c|] == c;
  }

  /** However the first bytes are split: a complete message of `n` bytes is received up to
      the receive that brings its end, no further, and what came along behind it is left for
      the parser of the next phase. */
  lemma HelloLeavesRest(limit: nat, chunks: seq<seq<byte>>, n: nat)
    requires limit >= 2 && NoneEmpty(chunks)
    requires n <= |Flatten(chunks)| && P.IsHello(Flatten(chunks)[..n])
    ensures var t, got := ReadAll(Begin(limit), chunks), Flatten(chunks[..Until(chunks, n)]);
            t.inbox.put == got && n <= |got| && t.inbox.pending == got[n..]
  {
    var all := Flatten(chunks);
    BeginListens(limit);
    assert EndsAfter(P.HELLO_INIT, all, n) by {
      P.RunIsAfter(all[..n]);
      forall k | 0 < k < n ensures !P.Stop(Run(P.Step, P.HELLO_INIT, all[..k])) {
        P.RunIsAfter(all[..k]);
        assert all[..n][..k] == all[..k];
      }
    }
    LeavesRest(Begin(limit), chunks, n);
    EmptyFirst(Flatten(chunks[..Until(chunks, n)]));
  }

  lemma BeginListens(limit: nat)
    requires limit >= 2
    ensures Listening(Begin(limit))
  {
  }

  lemma SameHello(t: seq<byte>, n: nat, k: nat)
    requires n <= |t| && k <= |t| && P.IsHello(t[..n]) && P.IsHello(t[..k])
    ensures n == k && n >= 3
  {
    assert t[..n][0] == t[..k][0] && t[..n][1] == t[..k][1];
  }

  /** A message with a wrong version or without methods is answered with 0xFF and fails. */
  lemma BadHelloIsRefused(limit: nat, chunks: seq<seq<byte>>)
    requires limit >= 2 && NoneEmpty(chunks)
    requires var t := Flatten(chunks); (|t| >= 1 && t[0] != P.SOCKS_VERSION) || (|t| >= 2 && t[1] == 0)
    ensures var s := ReadAll(Begin(limit), chunks);
            s.interest == WRITE && s.outbox.pending == [P.SOCKS_VERSION, NOMETHOD] && LeaveBy(s.selected) == Failed
  {
    var t := Flatten(chunks);
    P.RejectsExactly(t);
    BeginListens(limit);
    hide Drain, P.Step, ReadAll;
    ReadAllStands(Begin(limit), chunks);
  }

  // ----- the handlers

  class HelloSession {
    const parser: P.HelloParser
    const readBuffer: Buffer
    const writeBuffer: Buffer
    var selected: int
    var interest: Interest

    ghost predicate Valid()
      reads this, parser, parser.methods, readBuffer, readBuffer.data, writeBuffer, writeBuffer.data
    {
      && readBuffer.Valid() && writeBuffer.Valid() && readBuffer != writeBuffer
      && readBuffer.data != writeBuffer.data
      && parser.methods != readBuffer.data && parser.methods != writeBuffer.data
      && P.Safe(parser.View())
    }

    ghost function View(): Session
      requires Valid()
      reads this, parser, parser.methods, readBuffer, readBuffer.data, writeBuffer, writeBuffer.data
    {
      Session(parser.View(), readBuffer.View(), writeBuffer.View(), selected, interest)
    }

    constructor (parser: P.HelloParser, readBuffer: Buffer, writeBuffer: Buffer)
      requires parser.View() == P.HELLO_INIT
      requires readBuffer.Valid() && writeBuffer.Valid() && readBuffer != writeBuffer
      requires readBuffer.data != writeBuffer.data
      requires parser.methods != readBuffer.data && parser.methods != writeBuffer.data
      ensures Valid() && View() == Session(P.HELLO_INIT, readBuffer.View(), writeBuffer.View(), UNDECIDED, READ)
    {
      this.parser, this.readBuffer, this.writeBuffer := parser, readBuffer, writeBuffer;
      selected := UNDECIDED;
      interest := READ;
    }

    method Answer()
      requires Valid()
      modifies writeBuffer, writeBuffer.data
      ensures Valid() && View() == old(View()).(outbox := Respond(old(View()).outbox, selected))
      ensures var before, after := old(View()).outbox, View().outbox;
              if before.Room() >= 2 then after.pending == before.pending + [5, selected % 256] else after == before
    {
      var n := writeBuffer.WritePtr();
      if n >= 2 {
        writeBuffer.Receive(Reply(selected));
      }
    }

    method FillAndParse(chunk: seq<byte>) returns (state: P.State)
      requires Valid() && |chunk| <= View().inbox.Room()
      modifies parser, parser.methods, readBuffer, readBuffer.data
      ensures Valid() && state == parser.state
      ensures var filled := old(View()).inbox.Put(chunk);
              var (p, rest) := Drain(P.Step, P.Stop, old(View()).parser, filled.pending);
              && |rest| <= |filled.pending|
              && View() == old(View()).(parser := p, inbox := filled.Take(|filled.pending| - |rest|))
    {
      hide Pipe.Put, Pipe.Take, P.Step;
      readBuffer.Receive(chunk);
      DrainShrinks(parser.View(), readBuffer.Contents());
      state := parser.Consume(readBuffer);
    }

    method HelloRead(chunk: seq<byte>) returns (phase: Phase)
      requires Valid() && |chunk| <= View().inbox.Room()
      modifies this, parser, parser.methods, readBuffer, readBuffer.data, writeBuffer, writeBuffer.data
      ensures Valid() && phase == InHello
      ensures View() == ReadStep(old(View()), chunk)
      ensures chunk == [] ==> View() == old(View())
    {
      hide Pipe.Put, Pipe.Take, P.Step, Drain, SelectFrom;
      phase := InHello;
      if chunk == [] {
        return;
      }
      var state := FillAndParse(chunk);
      if state.End? {
        selected := Select(parser.methods[..], selected);
        interest := WRITE;
        Answer();
      } else if state.Error? {
        Answer();
        selected := NOMETHOD;
        interest := WRITE;
      }
    }

    /** `sent` is the result of the send of everything pending; a short send is taken
        for a complete one. */
    method HelloWrite(sent: int) returns (phase: Phase)
      requires Valid()
      modifies this, writeBuffer, writeBuffer.data
      ensures Valid()
      ensures sent <= 0 ==> phase == Failed && View() == old(View())
      ensures sent > 0 ==> View().outbox.pending == [] && View().interest == READ && phase == LeaveBy(selected)
      ensures sent > 0 ==>
                var before := old(View());
                && View() == before.(outbox := before.outbox.Take(|before.outbox.pending|), interest := READ)
                && (phase == HelloAuth <==> selected == 2) && (phase == RequestReading <==> selected == 0)
                && (phase == Failed <==> selected == 0xFF)
      ensures selected == old(selected)
    {
      var n := writeBuffer.ReadPtr();
      if sent <= 0 {
        return Failed;
      }
      TakeKeeps(writeBuffer.View(), n);
      hide Pipe.Take;
      writeBuffer.ReadAdv(n);
      var more := writeBuffer.CanRead();
      if !more {
        interest := READ;
        if selected == AUTH {
          return HelloAuth;
        }
        if selected == NOAUTH {
          return RequestReading;
        }
        if selected == NOMETHOD {
          return Failed;
        }
      }
      phase := InHello;
    }
  }
}

/** The HELLO handlers start the stream of a session: what they receive and leave is what the
    session receives and leaves in its first phase. */
module HelloStream {
  import opened Wrappers
  import opened Bytes
  import opened Buffers
  import opened Drains
  import S = SessionStream
  import N = Negotiation
  import H = HelloParsers

  /** The handler's parser and inbox are those of the session. */
  ghost predicate Same(n: N.Session, s: S.Session) {
    s.phase.InHello? && s.hello == n.parser && s.inbox == n.inbox
  }

  lemma ReadRefines(n: N.Session, s: S.Session, chunk: seq<byte>)
    requires Same(n, s) && !H.Stop(n.parser) && 0 < |chunk| <= n.inbox.Room()
    ensures S.Enabled(s, S.Receive(chunk)) && Same(N.ReadStep(n, chunk), S.Step(s, S.Receive(chunk)))
  {
    N.DrainShrinks(n.parser, n.inbox.Put(chunk).pending);
  }

  /** The receives the phase does. */
  function Receives(n: N.Session, chunks: seq<seq<byte>>): seq<S.Event>
    decreases |chunks|
  {
    if chunks == [] || !n.interest.read then []
    else [S.Receive(chunks[0])] + Receives(N.ReadStep(n, chunks[0]), chunks[1..])
  }

  /** The next phase of a session as the handler of a sent answer numbers it. */
  function PhaseOf(p: S.Phase): N.Phase {
    match p
    case InAuth => N.HelloAuth
    case InRequest => N.RequestReading
    case _ => N.Failed
  }

  /** However the first bytes are cut: the handlers of the phase do a run of the session,
      with the same parser and the same buffer, and after a complete message the answer
      leaves for the phase the session goes on with. */
  lemma {:induction false} HelloRefines(n: N.Session, s: S.Session, chunks: seq<seq<byte>>, fed: seq<byte>) returns (t: S.Session)
    requires n.parser == Run(H.Step, H.HELLO_INIT, fed) && Same(n, s) && N.Listening(n) && n.inbox.tail == 0 && N.NoneEmpty(chunks)
    requires forall i :: 0 <= i < |chunks| ==> |chunks[i]| <= n.inbox.limit
    ensures var m := N.ReadAll(n, chunks);
            && S.Run(s, Receives(n, chunks), t) && Same(m, t)
            && (t.hello.state.End? ==> N.LeaveBy(m.selected) == PhaseOf(S.NextPhase(t)))
    decreases |chunks|
  {
    if chunks == [] {
      t := s;
    } else {
      var c := chunks[0];
      var m, s1 := N.ReadStep(n, c), S.Step(s, S.Receive(c));
      ReadRefines(n, s, c);
      N.ReadStepStands(n, c);
      StaysRewound(n, c);
      ReadRuns(n, c, fed);
      assert Receives(n, chunks)[0] == S.Receive(c) && Receives(n, chunks)[1..] == Receives(m, chunks[1..]);
      if m.interest.read {
        t := HelloRefines(m, s1, chunks[1..], fed + c);
      } else {
        t := s1;
        assert N.ReadAll(m, chunks[1..]) == m;
        MethodsThere(fed + c);
        if m.parser.state.End? { N.SelectionIsChoice(m.parser.methods); }
      }
    }
  }

  lemma MethodsThere(fed: seq<byte>)
    ensures var p := Run(H.Step, H.HELLO_INIT, fed); p.state.End? ==> p.methods != []
  {
    H.RunIsAfter(fed);
  }

  lemma ReadRuns(n: N.Session, c: seq<byte>, fed: seq<byte>)
    requires n.parser == Run(H.Step, H.HELLO_INIT, fed) && N.Listening(n) && c != []
    ensures N.ReadStep(n, c).parser == Run(H.Step, H.HELLO_INIT, fed + c)
  {
    H.Absorbs();
    assert [] + c == c;
    var consumed := DrainSplits(H.Step, H.Stop, n.parser, c);
    RunConcat(H.Step, H.HELLO_INIT, fed, c);
  }

  lemma StaysRewound(n: N.Session, c: seq<byte>)
    requires N.Listening(n) && n.inbox.tail == 0 && c != []
    ensures var m := N.ReadStep(n, c);
            N.Listening(m) ==> m.inbox.tail == 0 && m.inbox.limit == n.inbox.limit
  {
    N.DrainShrinks(n.parser, n.inbox.Put(c).pending);
  }

  /** From the first byte on. */
  lemma HelloBeginsStream(limit: nat, j: S.Junk, chunks: seq<seq<byte>>) returns (t: S.Session)
    requires S.ValidJunk(j) && limit >= 2 && N.NoneEmpty(chunks)
    requires forall i :: 0 <= i < |chunks| ==> |chunks[i]| <= limit
    ensures var m, events := N.ReadAll(N.Begin(limit), chunks), Receives(N.Begin(limit), chunks);
            && S.Run(S.Begin(limit, j), events, t) && t.hello == m.parser && t.inbox == m.inbox
            && (t.hello.state.End? ==> N.LeaveBy(m.selected) == PhaseOf(S.NextPhase(t)))
  {
    t := HelloRefines(N.Begin(limit), S.Begin(limit, j), chunks, []);
  }
}

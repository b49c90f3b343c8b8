/** The relay handlers continue the stream of a session: seen from the client, every run of
    the relay is a run of the session in its COPY phase. */
module CopyStream {
  import opened Wrappers
  import opened Bytes
  import opened Buffers
  import S = SessionStream
  import M = RelayModel
  import N = Negotiation
  import H = HelloParsers
  import A = AuthParsers
  import R = RequestParsers

  /** What a relay event means for the bytes from client to origin. */
  function Project(e: M.Event): seq<S.Event> {
    if M.Delivers(e, M.Client) then [S.Receive(e.recv.chunk)]
    else if e.Writable? && e.side.Origin? && e.send.Sent? then [S.SendUp(e.send.n)]
    else []
  }

  function ProjectAll(events: seq<M.Event>): seq<S.Event> {
    if events == [] then [] else Project(events[0]) + ProjectAll(events[1..])
  }

  /** The session in COPY and the relay hold the same buffer, and the relay has sent
      `sent` since it was entered with `base` bytes taken. */
  ghost predicate Same(s: S.Session, m: M.Relay, base: seq<byte>) {
    s.phase.InCopy? && s.inbox == m.up && m.up.Valid() && m.up.taken == base + s.sent
  }

  lemma StepRefines(s: S.Session, m: M.Relay, e: M.Event, base: seq<byte>) returns (t: S.Session)
    requires Same(s, m, base) && M.Legal(m, e)
    ensures Same(t, M.Step(m, e).1, base) && S.Run(s, Project(e), t)
    ensures t == s.(inbox := t.inbox, sent := t.sent)
  {
    M.StepPipes(m, e);
    if M.Delivers(e, M.Client) {
      t := S.Step(s, S.Receive(e.recv.chunk));
      PutKeeps(m.up, e.recv.chunk);
    } else if e.Writable? && e.side.Origin? && e.send.Sent? {
      t := S.Step(s, S.SendUp(e.send.n));
      TakeKeeps(m.up, e.send.n);
      Reassociate(base, s.sent, m.up.pending[..e.send.n]);
    } else {
      t := s;
    }
    assert Project(e) != [] ==> Project(e)[1..] == [];
  }

  /** Every run of the relay, whatever ends it, is a run of the session: the same bytes
      come in from the client and the same bytes go out to the origin. */
  lemma {:induction false} CopyRefines(s: S.Session, m: M.Relay, events: seq<M.Event>, verdict: M.Verdict, n: M.Relay, base: seq<byte>)
    returns (t: S.Session)
    requires Same(s, m, base) && M.Run(m, events, verdict, n)
    ensures Same(t, n, base) && S.Run(s, ProjectAll(events), t)
    ensures t == s.(inbox := t.inbox, sent := t.sent)
    ensures S.AllReceived(ProjectAll(events)) == M.AllGot(events, M.Client)
    decreases |events|
  {
    if events == [] {
      t := s;
    } else {
      var e := events[0];
      var (v, m1) := M.Step(m, e);
      var s1 := StepRefines(s, m, e, base);
      ProjectReceives(e);
      if v.Copy? {
        t := CopyRefines(s1, m1, events[1..], verdict, n, base);
      } else {
        t := s1;
        assert S.Run(t, [], t);
      }
      S.SessionRunConcat(s, Project(e), s1, ProjectAll(events[1..]), t);
    }
  }

  lemma ProjectReceives(e: M.Event)
    ensures S.AllReceived(Project(e)) == if M.Delivers(e, M.Client) then e.recv.chunk else []
  {
    if Project(e) != [] { assert Project(e)[1..] == []; }
  }

  /** End to end through the relay: once a session enters COPY at its first attempt, then
      however the client cuts its messages and its payload into receives before and during
      COPY, and whatever ends the relay, the relay has sent exactly a prefix of what is left
      for the origin, and holds the rest.  That is the payload if the session was greeted,
      and starts with the tail of the request if its receive cut it. */
  lemma RelaySendsRest(limit: nat, j: S.Junk, before: seq<S.Event>, s: S.Session,
                       m: M.Relay, events: seq<M.Event>, verdict: M.Verdict, n: M.Relay,
                       hello: seq<byte>, auth: seq<byte>, request: seq<byte>, payload: seq<byte>)
    requires S.ValidJunk(j) && S.Run(S.Begin(limit, j), before, s) && s.phase.InCopy? && !s.returned && s.sent == []
    requires m.up == s.inbox && M.Run(m, events, verdict, n)
    requires H.IsHello(hello) && R.IsRequest(request)
    requires if N.Choice(hello[2..]) == N.AUTH then A.IsAuth(auth) else auth == []
    requires S.AllReceived(before) + M.AllGot(events, M.Client) == hello + (auth + (request + payload))
    ensures m.up.taken <= n.up.taken && s.asked.Some?
    ensures n.up.taken[|m.up.taken|..] + n.up.pending == S.LeftFor(s.asked.value, request, payload)
    ensures S.Greeted(s) <==> |s.asked.value| >= |request| && !R.LongDomain(request)
  {
    hide H.IsHello, R.IsRequest, A.IsAuth;
    S.BeginHolds(limit, j);
    S.RunKeeps(S.Begin(limit, j), before, s);
    assert m.up.taken + [] == m.up.taken;
    var t := CopyRefines(s, m, events, verdict, n, m.up.taken);
    S.SessionRunConcat(S.Begin(limit, j), before, s, ProjectAll(events), t);
    S.OriginGetsRest(limit, j, before + ProjectAll(events), t, hello, auth, request, payload);
    assert n.up.taken[|m.up.taken|..] == t.sent;
  }

  /** So a greeted session sends exactly a prefix of the payload. */
  lemma RelaySendsPayload(limit: nat, j: S.Junk, before: seq<S.Event>, s: S.Session,
                          m: M.Relay, events: seq<M.Event>, verdict: M.Verdict, n: M.Relay,
                          hello: seq<byte>, auth: seq<byte>, request: seq<byte>, payload: seq<byte>)
    requires S.ValidJunk(j) && S.Run(S.Begin(limit, j), before, s) && S.Greeted(s) && s.sent == []
    requires m.up == s.inbox && M.Run(m, events, verdict, n)
    requires H.IsHello(hello) && R.IsRequest(request)
    requires if N.Choice(hello[2..]) == N.AUTH then A.IsAuth(auth) else auth == []
    requires S.AllReceived(before) + M.AllGot(events, M.Client) == hello + (auth + (request + payload))
    ensures m.up.taken <= n.up.taken
    ensures n.up.taken[|m.up.taken|..] + n.up.pending == payload
    ensures n.up.taken[|m.up.taken|..] <= payload
  {
    hide S.Run, M.Run, S.AllReceived, M.AllGot, H.IsHello, R.IsRequest, A.IsAuth;
    RelaySendsRest(limit, j, before, s, m, events, verdict, n, hello, auth, request, payload);
  }
}

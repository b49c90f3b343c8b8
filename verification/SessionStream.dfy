/** The bytes a client sends, from its first message to the origin: each is parsed by one
    of the three protocol parsers, sent on to the origin, or still in the buffer. */
module SessionStream {
  import opened Wrappers
  import opened Bytes
  import opened Buffers
  import opened Drains
  import N = Negotiation
  import H = HelloParsers
  import A = AuthParsers
  import R = RequestParsers

  /** `Answered` is the time from the request's only receive to COPY. */
  datatype Phase = InHello | InAuth | InRequest | Answered | InCopy

  /** Memory the allocator hands out uncleared: two text arrays and the port. */
  datatype Junk = Junk(user: seq<byte>, pass: seq<byte>, port: seq<byte>)

  predicate ValidJunk(j: Junk) {
    |j.user| == |j.pass| == A.SLOTS && |j.port| == 2
  }

  /** `fedHello`, `fedAuth` and `fedRequest` are what each parser has consumed.  A session
      that `returned` is back from a request to the password message, with new parsers;
      `earlier` is what the old ones consumed.  `asked` is what the request parser was given
      the first time. */
  datatype Session = Session(phase: Phase, inbox: Pipe, junk: Junk,
                             hello: H.Hello, auth: A.Auth, request: R.Request,
                             fedHello: seq<byte>, earlier: seq<byte>, fedAuth: seq<byte>, fedRequest: seq<byte>,
                             sent: seq<byte>, asked: Option<seq<byte>>, returned: bool)

  function Begin(limit: nat, j: Junk): Session {
    Session(InHello, EmptyPipe(limit), j, H.HELLO_INIT, A.Init(j.user, j.pass), R.Init(j.port),
            [], [], [], [], [], None, false)
  }

  /** `memory` is the memory new parsers get, if the session returns. */
  datatype Event = Receive(chunk: seq<byte>) | ReceiveFails | MoveOn(memory: Junk) | SendUp(n: nat)

  /** Where the session goes when its phase is over.  After the request's only receive it
      goes on, complete or not, unless the request was malformed.  Without an address type
      the connection attempt answers a reply code that is the number of HELLO_AUTH. */
  function NextPhase(s: Session): Phase {
    match s.phase
    case InHello =>
      if !s.hello.state.End? then InHello
      else if N.Choice(s.hello.methods) == N.AUTH then InAuth
      else if N.Choice(s.hello.methods) == N.NOAUTH then InRequest
      else InHello
    case InAuth => if A.Stop(s.auth) then InRequest else InAuth
    case InRequest => InRequest
    case Answered =>
      if s.request.state.Error? then Answered
      else if !R.KnownAType(s.request.atype) then InAuth
      else InCopy
    case InCopy => InCopy
  }

  predicate Enabled(s: Session, e: Event) {
    match e
    case Receive(chunk) =>
      && 0 < |chunk| <= s.inbox.Room() && !s.phase.Answered?
      && (s.phase.InHello? ==> !H.Stop(s.hello))
      && (s.phase.InAuth? ==> !A.Stop(s.auth))
    case ReceiveFails => s.phase.InRequest?
    case MoveOn(memory) => NextPhase(s) != s.phase && ValidJunk(memory)
    case SendUp(n) => s.phase.InCopy? && n <= |s.inbox.pending|
  }

  /** The part of `bs` before the left-over `rest`. */
  function Eaten(bs: seq<byte>, rest: seq<byte>): seq<byte> {
    if |rest| <= |bs| then bs[..|bs| - |rest|] else []
  }

  function Move(s: Session, memory: Junk): Session {
    if s.phase.Answered? && NextPhase(s).InAuth? then
      s.(phase := InAuth, returned := true, earlier := s.earlier + s.fedAuth + s.fedRequest,
         fedAuth := [], fedRequest := [], junk := memory,
         auth := A.Init(memory.user, memory.pass), request := R.Init(memory.port))
    else s.(phase := NextPhase(s))
  }

  /** The request parser is called once; whatever it makes of the bytes, the phase is over. */
  function ReadRequest(s: Session, filled: Pipe): Session {
    var (p, rest) := Drain(R.Step, R.Stop, s.request, filled.pending);
    var eaten := Eaten(filled.pending, rest);
    s.(phase := Answered, request := p, inbox := filled.Take(|eaten|), fedRequest := s.fedRequest + eaten,
       asked := if s.returned then s.asked else Some(filled.pending))
  }

  function Step(s: Session, e: Event): Session
    requires Enabled(s, e)
  {
    match e
    case MoveOn(memory) => Move(s, memory)
    case ReceiveFails => s.(phase := Answered)
    case SendUp(n) => s.(inbox := s.inbox.Take(n), sent := s.sent + s.inbox.pending[..n])
    case Receive(chunk) =>
      var filled := s.inbox.Put(chunk);
      match s.phase
      case InCopy => s.(inbox := filled)
      case InHello =>
        var (p, rest) := Drain(H.Step, H.Stop, s.hello, filled.pending);
        var eaten := Eaten(filled.pending, rest);
        s.(hello := p, inbox := filled.Take(|eaten|), fedHello := s.fedHello + eaten)
      case InAuth =>
        var (p, rest) := Drain(A.Step, A.Stop, s.auth, filled.pending);
        var eaten := Eaten(filled.pending, rest);
        s.(auth := p, inbox := filled.Take(|eaten|), fedAuth := s.fedAuth + eaten)
      case InRequest => ReadRequest(s, filled)
  }

  ghost predicate Run(s: Session, events: seq<Event>, t: Session)
    decreases |events|
  {
    if events == [] then s == t else Enabled(s, events[0]) && Run(Step(s, events[0]), events[1..], t)
  }

  /** Everything the client delivered in a run. */
  function AllReceived(events: seq<Event>): seq<byte> {
    if events == [] then [] else (if events[0].Receive? then events[0].chunk else []) + AllReceived(events[1..])
  }

  // ----- the invariant

  /** `p` is the parser after `fed`, and it did not stop before the last byte of it. */
  ghost predicate Parsed<P>(step: (P, byte) -> P, stop: P -> bool, init: P, p: P, fed: seq<byte>) {
    && p == Drains.Run(step, init, fed)
    && forall k :: 0 < k < |fed| ==> !stop(Drains.Run(step, init, fed[..k]))
  }

  lemma ParsedMore<P(!new)>(step: (P, byte) -> P, stop: P -> bool, init: P, p: P, fed: seq<byte>, bs: seq<byte>)
    requires Absorbing(step, stop) && Parsed(step, stop, init, p, fed) && !stop(p)
    ensures var (q, rest) := Drain(step, stop, p, bs);
            && bs == Eaten(bs, rest) + rest
            && Parsed(step, stop, init, q, fed + Eaten(bs, rest))
  {
    var (q, rest) := Drain(step, stop, p, bs);
    var consumed := DrainSplits(step, stop, p, bs);
    assert Eaten(bs, rest) == consumed;
    var all := fed + consumed;
    RunConcat(step, init, fed, consumed);
    forall k | 0 < k < |all|
      ensures !stop(Drains.Run(step, init, all[..k]))
    {
      if k < |fed| {
        assert all[..k] == fed[..k];
      } else if k == |fed| {
        assert all[..k] == fed;
      } else {
        assert all[..k] == fed + consumed[..k - |fed|];
        RunConcat(step, init, fed, consumed[..k - |fed|]);
      }
    }
  }

  ghost predicate ParsersAgree(s: Session) {
    && Parsed(H.Step, H.Stop, H.HELLO_INIT, s.hello, s.fedHello)
    && Parsed(A.Step, A.Stop, A.Init(s.junk.user, s.junk.pass), s.auth, s.fedAuth)
    && Parsed(R.Step, R.Stop, R.Init(s.junk.port), s.request, s.fedRequest)
  }

  function Fed(s: Session): seq<byte> {
    s.fedHello + s.earlier + s.fedAuth + s.fedRequest + s.sent
  }

  predicate Requested(s: Session) {
    s.phase.Answered? || s.phase.InCopy?
  }

  /** Parsers work one after the other, and nothing is sent before COPY. */
  predicate InOrder(s: Session) {
    && (s.phase.InHello? ==> s.fedAuth == [] && !s.returned)
    && (!s.phase.InHello? ==> s.hello.state.End?)
    && (!Requested(s) ==> s.fedRequest == [])
    && (!s.phase.InCopy? ==> s.sent == [])
    && (s.phase.InCopy? ==> R.KnownAType(s.request.atype) && !s.request.state.Error?)
    && (!s.returned ==> s.earlier == [] && FirstRound(s))
  }

  predicate FirstRound(s: Session) {
    && (s.fedAuth != [] || s.phase.InAuth? ==> N.Choice(s.hello.methods) == N.AUTH)
    && (s.phase.InRequest? || Requested(s) ==> N.Choice(s.hello.methods) != N.AUTH || A.Stop(s.auth))
  }

  /** What the request parser made of `asked`, or that a session is back without having
      found a request in it. */
  ghost predicate AskedAgrees(s: Session) {
    && (!s.returned && !Requested(s) ==> s.asked.None?)
    && (!s.returned && Requested(s) && s.asked.None? ==> s.fedRequest == [])
    && (!s.returned && s.asked.Some? ==>
          && s.fedHello + s.fedAuth + s.asked.value <= s.inbox.put
          && var (p, rest) := Drain(R.Step, R.Stop, R.Init(s.junk.port), s.asked.value);
             s.request == p && s.fedRequest == Eaten(s.asked.value, rest))
    && (s.returned && s.asked.Some? ==> !R.StartsWithRequest(s.asked.value))
  }

  ghost predicate Fits(s: Session) {
    ValidJunk(s.junk) && ParsersAgree(s) && InOrder(s) && s.inbox.Valid() && s.inbox.taken == Fed(s)
  }

  ghost predicate Inv(s: Session) {
    Fits(s) && AskedAgrees(s)
  }

  lemma FedTail(a: seq<byte>, z: seq<byte>, b: seq<byte>, c: seq<byte>, more: seq<byte>)
    ensures (a + more) + [] + [] + [] + [] == a + [] + [] + [] + [] + more
    ensures a + z + (b + more) + [] + [] == a + z + b + [] + [] + more
    ensures a + z + b + (c + more) + [] == a + z + b + c + [] + more
  {
    assert (a + more) + [] + [] + [] + [] == a + more && a + [] + [] + [] + [] == a;
    assert a + z + (b + more) + [] + [] == a + z + (b + more) && a + z + b + [] + [] == a + z + b;
    assert a + z + b + (c + more) + [] == a + z + b + (c + more) && a + z + b + c + [] == a + z + b + c;
    Reassociate(a + z, b, more);
    Reassociate(a + z + b, c, more);
  }

  lemma HelloKeeps(s: Session, chunk: seq<byte>)
    requires Inv(s) && Enabled(s, Receive(chunk)) && s.phase.InHello?
    ensures var t := Step(s, Receive(chunk)); Inv(t) && t.inbox.put == s.inbox.put + chunk
  {
    var filled := s.inbox.Put(chunk);
    PutKeeps(s.inbox, chunk);
    H.Absorbs();
    ParsedMore(H.Step, H.Stop, H.HELLO_INIT, s.hello, s.fedHello, filled.pending);
    var eaten := Eaten(filled.pending, Drain(H.Step, H.Stop, s.hello, filled.pending).1);
    FedTail(s.fedHello, [], [], [], eaten);
    TakeKeeps(filled, |eaten|);
    assert filled.pending[..|eaten|] == eaten;
  }

  lemma AuthKeeps(s: Session, chunk: seq<byte>)
    requires Inv(s) && Enabled(s, Receive(chunk)) && s.phase.InAuth?
    ensures var t := Step(s, Receive(chunk)); Inv(t) && t.inbox.put == s.inbox.put + chunk
  {
    var filled := s.inbox.Put(chunk);
    PutKeeps(s.inbox, chunk);
    A.Absorbs();
    ParsedMore(A.Step, A.Stop, A.Init(s.junk.user, s.junk.pass), s.auth, s.fedAuth, filled.pending);
    var eaten := Eaten(filled.pending, Drain(A.Step, A.Stop, s.auth, filled.pending).1);
    FedTail(s.fedHello, s.earlier, s.fedAuth, [], eaten);
    TakeKeeps(filled, |eaten|);
    assert filled.pending[..|eaten|] == eaten;
  }

  lemma RequestFits(s: Session, chunk: seq<byte>)
    requires Fits(s) && Enabled(s, Receive(chunk)) && s.phase.InRequest?
    ensures var t := Step(s, Receive(chunk)); Fits(t) && t.inbox.put == s.inbox.put + chunk
  {
    var filled := s.inbox.Put(chunk);
    PutKeeps(s.inbox, chunk);
    R.Absorbs();
    assert s.fedRequest == [] && s.request == R.Init(s.junk.port);
    ParsedMore(R.Step, R.Stop, R.Init(s.junk.port), s.request, s.fedRequest, filled.pending);
    var eaten := Eaten(filled.pending, Drain(R.Step, R.Stop, s.request, filled.pending).1);
    FedTail(s.fedHello, s.earlier, s.fedAuth, s.fedRequest, eaten);
    TakeKeeps(filled, |eaten|);
    assert filled.pending[..|eaten|] == eaten;
  }

  lemma RequestKeeps(s: Session, chunk: seq<byte>)
    requires Inv(s) && Enabled(s, Receive(chunk)) && s.phase.InRequest?
    ensures var t := Step(s, Receive(chunk)); Inv(t) && t.inbox.put == s.inbox.put + chunk
  {
    hide Fits, AskedAgrees, Step;
    RequestFits(s, chunk);
    RequestAsked(s, chunk);
  }

  lemma RequestAsked(s: Session, chunk: seq<byte>)
    requires Inv(s) && Enabled(s, Receive(chunk)) && s.phase.InRequest?
    ensures AskedAgrees(Step(s, Receive(chunk)))
  {
    hide Drain, R.StartsWithRequest;
    var filled := s.inbox.Put(chunk);
    assert s.fedRequest == [] && s.request == R.Init(s.junk.port);
    if !s.returned {
      assert s.fedHello + [] + s.fedAuth + [] + [] == s.fedHello + s.fedAuth;
      assert s.fedHello + s.fedAuth + filled.pending == filled.put;
      var eaten := Eaten(filled.pending, Drain(R.Step, R.Stop, s.request, filled.pending).1);
      assert [] + eaten == eaten;
      TakeKeepsPut(filled, |eaten|);
    }
  }

  lemma TakeKeepsPut(p: Pipe, n: nat)
    requires n <= |p.pending|
    ensures p.Take(n).put == p.put
  {
  }

  lemma ReceiveKeeps(s: Session, chunk: seq<byte>)
    requires Inv(s) && Enabled(s, Receive(chunk))
    ensures var t := Step(s, Receive(chunk)); Inv(t) && t.inbox.put == s.inbox.put + chunk
  {
    match s.phase {
      case InHello => HelloKeeps(s, chunk);
      case InAuth => AuthKeeps(s, chunk);
      case InRequest => RequestKeeps(s, chunk);
      case InCopy => PutKeeps(s.inbox, chunk);
    }
  }

  /** A session goes back only when no request was found. */
  lemma MoveKeeps(s: Session, memory: Junk)
    requires Inv(s) && Enabled(s, MoveOn(memory))
    ensures Inv(Step(s, MoveOn(memory))) && Step(s, MoveOn(memory)).inbox == s.inbox
  {
    if s.phase.Answered? && NextPhase(s).InAuth? {
      assert s.sent == [];
      Regrouped(s.fedHello, s.earlier, s.fedAuth, s.fedRequest);
      if !s.returned && s.asked.Some? { NoRequestFound(s.asked.value, s.junk.port); }
    }
  }

  lemma Regrouped(a: seq<byte>, b: seq<byte>, c: seq<byte>, d: seq<byte>)
    ensures a + b + c + d + [] == a + (b + c + d) + [] + [] + []
  {
    assert a + b + c + d == a + (b + c + d);
  }

  lemma NoRequestFound(t: seq<byte>, port: seq<byte>)
    requires |port| == 2 && !R.KnownAType(Drain(R.Step, R.Stop, R.Init(port), t).0.atype)
    ensures !R.StartsWithRequest(t)
  {
    if n :| 0 <= n <= |t| && R.IsRequest(t[..n]) && !R.LongDomain(t[..n]) {
      assert t[..n] + t[n..] == t;
      R.WholeRequest(t[..n], t[n..], port);
    }
  }

  lemma StepKeeps(s: Session, e: Event)
    requires Inv(s) && Enabled(s, e)
    ensures Inv(Step(s, e)) && Step(s, e).inbox.put == s.inbox.put + AllReceived([e])
  {
    assert [e][1..] == [];
    assert AllReceived([e]) == if e.Receive? then e.chunk else [];
    match e {
      case Receive(chunk) => ReceiveKeeps(s, chunk);
      case MoveOn(memory) =>
        MoveKeeps(s, memory);
        assert s.inbox.put + [] == s.inbox.put;
      case ReceiveFails => assert s.inbox.put + [] == s.inbox.put;
      case SendUp(n) =>
        SendKeeps(s, n);
        assert s.inbox.put + [] == s.inbox.put;
    }
  }

  lemma SendKeeps(s: Session, n: nat)
    requires Inv(s) && Enabled(s, SendUp(n))
    ensures Inv(Step(s, SendUp(n))) && Step(s, SendUp(n)).inbox.put == s.inbox.put
  {
    TakeKeeps(s.inbox, n);
    Reassociate(s.fedHello + s.earlier + s.fedAuth + s.fedRequest, s.sent, s.inbox.pending[..n]);
  }

  lemma {:induction false} RunKeeps(s: Session, events: seq<Event>, t: Session)
    requires Inv(s) && Run(s, events, t)
    ensures Inv(t) && t.inbox.put == s.inbox.put + AllReceived(events)
    decreases |events|
  {
    if events == [] {
      assert s.inbox.put + [] == s.inbox.put;
    } else {
      StepKeeps(s, events[0]);
      ReceivedSplit(events);
      hide Step, Inv, AllReceived;
      RunKeeps(Step(s, events[0]), events[1..], t);
      Reassociate(s.inbox.put, AllReceived([events[0]]), AllReceived(events[1..]));
    }
  }

  lemma ReceivedSplit(events: seq<Event>)
    requires events != []
    ensures AllReceived(events) == AllReceived([events[0]]) + AllReceived(events[1..])
  {
    var e := events[0];
    assert [e][1..] == [];
    assert AllReceived([e]) == if e.Receive? then e.chunk else [];
  }

  lemma {:induction false} SessionRunConcat(s: Session, a: seq<Event>, m: Session, b: seq<Event>, t: Session)
    requires Run(s, a, m) && Run(m, b, t)
    ensures Run(s, a + b, t) && AllReceived(a + b) == AllReceived(a) + AllReceived(b)
    decreases |a|
  {
    if a == [] {
      assert a + b == b;
    } else {
      assert (a + b)[0] == a[0] && (a + b)[1..] == a[1..] + b;
      SessionRunConcat(Step(s, a[0]), a[1..], m, b, t);
      Reassociate(if a[0].Receive? then a[0].chunk else [], AllReceived(a[1..]), AllReceived(b));
    }
  }

  lemma BeginHolds(limit: nat, j: Junk)
    requires ValidJunk(j)
    ensures Inv(Begin(limit, j))
  {
  }

  // ----- whole runs

  /** Conservation from the first byte on: what the client delivered is what the parsers
      consumed, in order, then what was sent to the origin, then what is still in the
      buffer. */
  lemma StreamConserves(limit: nat, j: Junk, events: seq<Event>, t: Session)
    requires ValidJunk(j) && Run(Begin(limit, j), events, t)
    ensures AllReceived(events) == t.fedHello + t.earlier + t.fedAuth + t.fedRequest + t.sent + t.inbox.pending
  {
    BeginHolds(limit, j);
    RunKeeps(Begin(limit, j), events, t);
    InvBalances(t);
    EmptyFirst(AllReceived(events));
    hide Run, Inv, AllReceived;
  }

  lemma InvBalances(s: Session)
    requires Inv(s)
    ensures s.inbox.put == Fed(s) + s.inbox.pending
  {
  }

  /** All parsers that took part have ended well, at the first attempt. */
  predicate Greeted(s: Session) {
    && s.phase.InCopy? && !s.returned && s.request.state.End?
    && (N.Choice(s.hello.methods) == N.AUTH ==> s.auth.state.End?)
  }

  /** When the first two phases are over, said of what their parsers were fed: HELLO with a
      complete message that offers a method the proxy has, the password message when it is
      complete without a text of 255 bytes, and also when it is malformed. */
  lemma PhasesEndExactly(s: Session)
    requires Inv(s)
    ensures s.phase.InHello? ==>
              (NextPhase(s) != s.phase <==> H.IsHello(s.fedHello) && (2 in s.fedHello[2..] || 0 in s.fedHello[2..]))
    ensures s.phase.InHello? && NextPhase(s) != s.phase ==>
              NextPhase(s) == if 2 in s.fedHello[2..] then InAuth else InRequest
    ensures s.phase.InAuth? ==>
              (NextPhase(s).InRequest? <==> A.IsGoodAuth(s.fedAuth) || A.IsMalformed(s.fedAuth))
  {
    if s.phase.InHello? {
      HelloFed(s);
    } else if s.phase.InAuth? {
      AuthFed(s);
    }
  }

  lemma HelloFed(s: Session)
    requires Inv(s) && s.phase.InHello?
    ensures s.hello.state.End? <==> H.IsHello(s.fedHello)
    ensures s.hello.state.End? ==> s.hello.methods == s.fedHello[2..]
  {
    H.RunIsAfter(s.fedHello);
    if s.hello.state.End? { H.EndIsHello(s.fedHello); }
  }

  lemma AuthFed(s: Session)
    requires Inv(s) && s.phase.InAuth?
    ensures A.Stop(s.auth) <==> A.IsGoodAuth(s.fedAuth) || A.IsMalformed(s.fedAuth)
  {
    var j := s.junk;
    A.RunIsAfter(s.fedAuth, j.user, j.pass);
    if s.auth.state.End? {
      A.RunIsAfter(s.fedAuth[..|s.fedAuth| - 1], j.user, j.pass);
      A.EndIsMessage(s.fedAuth, j.user, j.pass);
    }
  }

  /** The request's only receive decides: the parser ends iff what is in the buffer then,
      left-over bytes included, starts with a whole request without a long domain. */
  lemma OneReceiveDecides(s: Session, chunk: seq<byte>)
    requires Inv(s) && Enabled(s, Receive(chunk)) && s.phase.InRequest?
    ensures var t := Step(s, Receive(chunk));
            t.phase.Answered? && (t.request.state.End? <==> R.StartsWithRequest(s.inbox.pending + chunk))
  {
    assert s.request == R.Init(s.junk.port);
    R.Accepts(s.inbox.pending + chunk, s.junk.port);
  }

  /** Over whole runs, whatever the client sends: a session in COPY has been greeted iff the
      request parser found a whole request the one time it was called, and the password
      message, if one was due, was well formed. */
  lemma GreetedIff(limit: nat, j: Junk, events: seq<Event>, t: Session)
    requires ValidJunk(j) && Run(Begin(limit, j), events, t) && t.phase.InCopy?
    ensures Greeted(t) <==>
              && t.asked.Some? && R.StartsWithRequest(t.asked.value)
              && (N.Choice(t.hello.methods) == N.AUTH ==> t.auth.state.End?)
  {
    BeginHolds(limit, j);
    RunKeeps(Begin(limit, j), events, t);
    if !t.returned {
      AskedInCopy(t);
      R.Accepts(t.asked.value, t.junk.port);
    }
  }

  lemma AskedInCopy(s: Session)
    requires Inv(s) && s.phase.InCopy? && !s.returned
    ensures s.asked.Some?
  {
    assert s.fedRequest == [] ==> s.request == R.Init(s.junk.port);
  }

  /** Then each has consumed exactly one complete message. */
  lemma GreetedAreMessages(s: Session)
    requires Inv(s) && Greeted(s)
    ensures H.IsHello(s.fedHello) && R.IsRequest(s.fedRequest)
    ensures if N.Choice(s.fedHello[2..]) == N.AUTH then A.IsAuth(s.fedAuth) else s.fedAuth == []
    ensures s.hello.methods == s.fedHello[2..]
  {
    var j := s.junk;
    HelloWasRead(s);
    if R.LongDomain(s.fedRequest) { R.LongDomainNeverEnds(s.fedRequest, j.port); }
    R.RunIsAfter(s.fedRequest, j.port);
    R.EndIsRequest(s.fedRequest, j.port);
    if N.Choice(s.hello.methods) == N.AUTH {
      A.RunIsAfter(s.fedAuth, j.user, j.pass);
      A.RunIsAfter(s.fedAuth[..|s.fedAuth| - 1], j.user, j.pass);
      A.EndIsMessage(s.fedAuth, j.user, j.pass);
    }
  }

  lemma HelloWasRead(s: Session)
    requires Inv(s) && !s.phase.InHello?
    ensures H.IsHello(s.fedHello) && s.hello.methods == s.fedHello[2..]
  {
    H.RunIsAfter(s.fedHello);
    H.EndIsHello(s.fedHello);
  }

  lemma HelloIsUnique(a: seq<byte>, x: seq<byte>, b: seq<byte>, y: seq<byte>)
    requires H.IsHello(a) && H.IsHello(b) && a + x == b + y
    ensures a == b && x == y
  {
    assert (a + x)[1] == a[1] && (b + y)[1] == b[1];
    assert a == (a + x)[..|a|] && x == (a + x)[|a|..];
    assert b == (b + y)[..|b|] && y == (b + y)[|b|..];
  }

  lemma AuthIsUnique(a: seq<byte>, x: seq<byte>, b: seq<byte>, y: seq<byte>)
    requires A.IsAuth(a) && A.IsAuth(b) && a + x == b + y
    ensures a == b && x == y
  {
    var all := a + x;
    assert all[1] == a[1] && (b + y)[1] == b[1];
    assert all[A.UserEnd(a)] == a[A.UserEnd(a)] && (b + y)[A.UserEnd(b)] == b[A.UserEnd(b)];
    assert a == all[..|a|] && x == all[|a|..];
    assert b == (b + y)[..|b|] && y == (b + y)[|b|..];
  }

  lemma RequestIsUnique(a: seq<byte>, x: seq<byte>, b: seq<byte>, y: seq<byte>)
    requires R.IsRequest(a) && R.IsRequest(b) && a + x == b + y
    ensures a == b && x == y
  {
    var all := a + x;
    assert forall i :: 0 <= i < 5 ==> all[i] == a[i];
    assert forall i :: 0 <= i < 5 ==> (b + y)[i] == b[i];
    assert a == all[..|a|] && x == all[|a|..];
    assert b == (b + y)[..|b|] && y == (b + y)[|b|..];
  }

  /** End to end: a client that sent its messages and then `payload`, in whatever pieces as
      long as the session was greeted, has exactly a prefix of `payload` delivered to the
      origin, the rest of it being in the buffer. */
  lemma OriginGetsPayload(limit: nat, j: Junk, events: seq<Event>, t: Session,
                          hello: seq<byte>, auth: seq<byte>, request: seq<byte>, payload: seq<byte>)
    requires ValidJunk(j) && Run(Begin(limit, j), events, t) && Greeted(t)
    requires H.IsHello(hello) && R.IsRequest(request)
    requires if N.Choice(hello[2..]) == N.AUTH then A.IsAuth(auth) else auth == []
    requires AllReceived(events) == hello + (auth + (request + payload))
    ensures t.sent + t.inbox.pending == payload
    ensures t.sent <= payload
  {
    BeginHolds(limit, j);
    RunKeeps(Begin(limit, j), events, t);
    StreamConserves(limit, j, events, t);
    GreetedAreMessages(t);
    assert t.fedHello + t.earlier == t.fedHello;
    hide Run, Inv, AllReceived, H.IsHello, A.IsAuth, R.IsRequest;
    Regroup(t.fedHello, t.fedAuth, t.fedRequest, t.sent, t.inbox.pending);
    MessagesAreUnique(hello, auth, request, payload, t.fedHello, t.fedAuth, t.fedRequest, t.sent + t.inbox.pending);
  }

  /** What is left for the origin when the request parser was given `asked`: what follows
      the request, or, if it could not end, all that it was not given. */
  function LeftFor(asked: seq<byte>, request: seq<byte>, payload: seq<byte>): seq<byte> {
    if |asked| >= |request| && !R.LongDomain(request) then payload
    else if |asked| <= |request + payload| then (request + payload)[|asked|..]
    else []
  }

  /** The general case: such a client, however it cuts its bytes, has the origin get exactly
      what `LeftFor` says.  A request cut by its receive has its tail sent as payload, and
      what comes with a long domain is lost. */
  lemma OriginGetsRest(limit: nat, j: Junk, events: seq<Event>, t: Session,
                       hello: seq<byte>, auth: seq<byte>, request: seq<byte>, payload: seq<byte>)
    requires ValidJunk(j) && Run(Begin(limit, j), events, t) && t.phase.InCopy? && !t.returned
    requires H.IsHello(hello) && R.IsRequest(request)
    requires if N.Choice(hello[2..]) == N.AUTH then A.IsAuth(auth) else auth == []
    requires AllReceived(events) == hello + (auth + (request + payload))
    ensures t.asked.Some? && 4 <= |t.asked.value| && t.asked.value <= request + payload
    ensures t.sent + t.inbox.pending == LeftFor(t.asked.value, request, payload)
    ensures Greeted(t) <==> |t.asked.value| >= |request| && !R.LongDomain(request)
  {
    BeginHolds(limit, j);
    RunKeeps(Begin(limit, j), events, t);
    EmptyFirst(AllReceived(events));
    AskedInCopy(t);
    hide Run, AllReceived, R.IsRequest, H.IsHello, A.IsAuth;
    GreetingWasRead(t, hello, auth, request + payload);
    RestIsLeft(t, hello, auth, request, payload);
  }

  /** A session past its password message has read the greeting of such a client exactly. */
  lemma GreetingWasRead(t: Session, hello: seq<byte>, auth: seq<byte>, rest: seq<byte>)
    requires Inv(t) && !t.returned && (t.phase.InRequest? || Requested(t))
    requires H.IsHello(hello) && (if N.Choice(hello[2..]) == N.AUTH then A.IsAuth(auth) else auth == [])
    requires t.inbox.put == hello + (auth + rest)
    ensures t.fedHello == hello && t.fedAuth == auth
    ensures N.Choice(t.hello.methods) == N.AUTH ==> t.auth.state.End?
  {
    HelloWasRead(t);
    InvBalances(t);
    var later := t.fedRequest + (t.sent + t.inbox.pending);
    assert t.inbox.put == t.fedHello + (t.fedAuth + later) by {
      assert t.fedHello + t.earlier == t.fedHello;
      Regroup(t.fedHello, t.fedAuth, t.fedRequest, t.sent, t.inbox.pending);
    }
    HelloIsUnique(hello, auth + rest, t.fedHello, t.fedAuth + later);
    if N.Choice(hello[2..]) == N.AUTH {
      AuthWasFed(t);
      A.StopsBehindMessage(auth, rest, t.fedAuth, later, t.junk.user, t.junk.pass);
    }
  }

  lemma AuthWasFed(t: Session)
    requires Inv(t) && A.Stop(t.auth)
    ensures t.fedAuth != []
  {
    assert t.fedAuth == [] ==> t.auth == A.Init(t.junk.user, t.junk.pass);
  }

  lemma RestIsLeft(t: Session, hello: seq<byte>, auth: seq<byte>, request: seq<byte>, payload: seq<byte>)
    requires Inv(t) && t.phase.InCopy? && !t.returned && t.asked.Some? && R.IsRequest(request)
    requires t.fedHello == hello && t.fedAuth == auth && (N.Choice(t.hello.methods) == N.AUTH ==> t.auth.state.End?)
    requires t.inbox.put == hello + (auth + (request + payload))
    ensures 4 <= |t.asked.value| && t.asked.value <= request + payload
    ensures t.sent + t.inbox.pending == LeftFor(t.asked.value, request, payload)
    ensures Greeted(t) <==> |t.asked.value| >= |request| && !R.LongDomain(request)
  {
    var asked, all, k := t.asked.value, request + payload, |t.asked.value|;
    SamePrefix(hello, auth, asked, all, t.inbox.put);
    R.CutRequest(request, payload, k, t.junk.port);
    InvBalances(t);
    hide R.IsRequest, Inv, Drain;
    var later := t.sent + t.inbox.pending;
    Regroup(t.fedHello, t.fedAuth, t.fedRequest, t.sent, t.inbox.pending);
    assert t.fedHello + t.earlier == t.fedHello;
    SameTail(hello, auth, t.fedRequest + later, all);
    assert all == asked + all[k..];
    if t.request.state.End? {
      assert t.fedRequest == request by { assert asked[..|request|] == request; }
      assert all[|request|..] == payload && (t.fedRequest + later)[|request|..] == later;
    } else {
      assert t.fedRequest == asked;
      assert (t.fedRequest + later)[k..] == later;
    }
  }

  lemma SamePrefix(a: seq<byte>, b: seq<byte>, c: seq<byte>, all: seq<byte>, put: seq<byte>)
    requires a + b + c <= put && put == a + (b + all)
    ensures c <= all && c == all[..|c|]
  {
    assert put == a + b + all;
    assert c == put[|a + b|..|a + b + c|];
    assert all == put[|a + b|..];
  }

  lemma SameTail(a: seq<byte>, b: seq<byte>, x: seq<byte>, y: seq<byte>)
    requires a + (b + x) == a + (b + y)
    ensures x == y
  {
    assert x == (a + (b + x))[|a| + |b|..];
    assert y == (a + (b + y))[|a| + |b|..];
  }

  /** A request cut before its fourth byte sends the session back to the password message;
      cut later, it goes on to COPY. */
  lemma CutRequestGoes(s: Session, chunk: seq<byte>, request: seq<byte>, payload: seq<byte>)
    requires Inv(s) && Enabled(s, Receive(chunk)) && s.phase.InRequest?
    requires R.IsRequest(request) && s.inbox.pending + chunk <= request + payload
    ensures var asked, t := s.inbox.pending + chunk, Step(s, Receive(chunk));
            && NextPhase(t) == (if |asked| < 4 then InAuth else InCopy)
            && t.inbox.pending == (if |asked| >= |request| && !R.LongDomain(request) then asked[|request|..] else [])
  {
    var asked := s.inbox.pending + chunk;
    assert s.request == R.Init(s.junk.port);
    assert asked == (request + payload)[..|asked|];
    R.CutRequest(request, payload, |asked|, s.junk.port);
  }

  /** It happens to every request: whenever its receive brings at least four of its bytes
      but not all of them, the rest can reach the origin, ahead of the payload. */
  lemma CutRequestReachesOrigin(limit: nat, j: Junk, hello: seq<byte>, request: seq<byte>, payload: seq<byte>, k: nat)
    returns (t: Session)
    requires ValidJunk(j) && H.IsHello(hello) && N.Choice(hello[2..]) == N.NOAUTH
    requires R.IsRequest(request) && 4 <= k < |request|
    requires limit >= |hello| && limit >= |request + payload|
    ensures var tail := request[k..] + payload;
            var events := [Receive(hello), MoveOn(j), Receive(request[..k]), MoveOn(j), Receive(tail), SendUp(|tail|)];
            && Run(Begin(limit, j), events, t)
            && AllReceived(events) == hello + (request[..k] + tail) && request[..k] + tail == request + payload
            && !Greeted(t) && t.sent == tail
  {
    var tail, head := request[k..] + payload, request[..k];
    assert head + tail == request + payload;
    var s2 := HelloRun(limit, j, hello);
    var s4 := HeadRun(s2, j, request, payload, k);
    t := TailRun(s4, tail);
    hide Run, AllReceived, R.IsRequest, H.IsHello, Inv, Step;
    var a, b, c := [Receive(hello), MoveOn(j)], [Receive(head), MoveOn(j)], [Receive(tail), SendUp(|tail|)];
    SessionRunConcat(s2, b, s4, c, t);
    SessionRunConcat(Begin(limit, j), a, s2, b + c, t);
    assert a + (b + c) == [Receive(hello), MoveOn(j), Receive(head), MoveOn(j), Receive(tail), SendUp(|tail|)];
  }

  lemma TwoSteps(s: Session, a: Event, b: Event)
    requires Enabled(s, a) && Enabled(Step(s, a), b) && a.Receive? && !b.Receive?
    ensures Run(s, [a, b], Step(Step(s, a), b)) && AllReceived([a, b]) == a.chunk
  {
    assert [a, b][1..] == [b] && [b][1..] == [];
    assert Run(Step(s, a), [b], Step(Step(s, a), b));
    assert AllReceived([b]) == [] && AllReceived([a, b]) == a.chunk + [];
  }

  lemma HelloRun(limit: nat, j: Junk, hello: seq<byte>) returns (s: Session)
    requires ValidJunk(j) && H.IsHello(hello) && N.Choice(hello[2..]) == N.NOAUTH && limit >= |hello|
    ensures Run(Begin(limit, j), [Receive(hello), MoveOn(j)], s) && AllReceived([Receive(hello), MoveOn(j)]) == hello
    ensures Inv(s) && s.phase.InRequest? && !s.returned
    ensures s.inbox.pending == [] && s.inbox.tail == 0 && s.inbox.limit == limit
  {
    BeginHolds(limit, j);
    var m := AfterHello(limit, j, hello);
    StepKeeps(Begin(limit, j), Receive(hello));
    s := Step(m, MoveOn(j));
    StepKeeps(m, MoveOn(j));
    TwoSteps(Begin(limit, j), Receive(hello), MoveOn(j));
  }

  lemma AfterHello(limit: nat, j: Junk, hello: seq<byte>) returns (s: Session)
    requires ValidJunk(j) && H.IsHello(hello) && N.Choice(hello[2..]) == N.NOAUTH && limit >= |hello|
    ensures Enabled(Begin(limit, j), Receive(hello)) && s == Step(Begin(limit, j), Receive(hello))
    ensures s.phase.InHello? && NextPhase(s).InRequest? && s.inbox.pending == [] && s.inbox.tail == 0 && s.inbox.limit == limit
    ensures !s.returned
  {
    hide Drain, H.IsHello, H.Step;
    assert [] + hello == hello;
    WholeHello(hello);
    s := Step(Begin(limit, j), Receive(hello));
  }

  lemma WholeHello(hello: seq<byte>)
    requires H.IsHello(hello)
    ensures var (p, rest) := Drain(H.Step, H.Stop, H.HELLO_INIT, hello);
            p.state.End? && p.methods == hello[2..] && rest == []
  {
    var rest := Drain(H.Step, H.Stop, H.HELLO_INIT, hello).1;
    H.Accepts(hello);
    hide Drain, H.IsHello;
    assert hello == hello[..|hello|];
    var n := |hello| - |rest|;
    assert hello[..n] + rest == hello + [];
    HelloIsUnique(hello, [], hello[..n], rest);
  }

  lemma HeadRun(s: Session, j: Junk, request: seq<byte>, payload: seq<byte>, k: nat) returns (t: Session)
    requires ValidJunk(j) && Inv(s) && s.phase.InRequest? && !s.returned && s.inbox.pending == [] && s.inbox.tail == 0
    requires R.IsRequest(request) && 4 <= k < |request| && s.inbox.limit >= |request + payload|
    ensures Run(s, [Receive(request[..k]), MoveOn(j)], t) && AllReceived([Receive(request[..k]), MoveOn(j)]) == request[..k]
    ensures t.phase.InCopy? && !t.request.state.End? && t.sent == []
    ensures t.inbox.pending == [] && t.inbox.tail == 0 && t.inbox.limit == s.inbox.limit
  {
    var head := request[..k];
    assert s.inbox.pending + head == head == (request + payload)[..k];
    var m := HeadStep(s, request, payload, k);
    t := Step(m, MoveOn(j));
    TwoSteps(s, Receive(head), MoveOn(j));
  }

  lemma HeadStep(s: Session, request: seq<byte>, payload: seq<byte>, k: nat) returns (m: Session)
    requires Inv(s) && s.phase.InRequest? && !s.returned && s.inbox.pending == [] && s.inbox.tail == 0
    requires R.IsRequest(request) && 4 <= k < |request| && s.inbox.limit >= |request + payload|
    ensures Enabled(s, Receive(request[..k])) && m == Step(s, Receive(request[..k]))
    ensures m.phase.Answered? && NextPhase(m).InCopy? && !m.request.state.End? && m.sent == []
    ensures m.inbox.pending == [] && m.inbox.tail == 0 && m.inbox.limit == s.inbox.limit
  {
    var head := request[..k];
    assert s.inbox.pending + head == head == (request + payload)[..k];
    InRequestFresh(s);
    CutRequestGoes(s, head, request, payload);
    R.CutRequest(request, payload, k, s.junk.port);
    hide Drain, R.IsRequest, Inv, NextPhase;
    m := Step(s, Receive(head));
  }

  lemma InRequestFresh(s: Session)
    requires Inv(s) && s.phase.InRequest?
    ensures s.request == R.Init(s.junk.port) && s.sent == [] && |s.junk.port| == 2
  {
  }

  lemma TailRun(s: Session, tail: seq<byte>) returns (t: Session)
    requires s.phase.InCopy? && s.inbox.pending == [] && s.inbox.tail == 0 && 0 < |tail| <= s.inbox.limit
    requires s.sent == [] && !s.request.state.End?
    ensures Run(s, [Receive(tail), SendUp(|tail|)], t) && AllReceived([Receive(tail), SendUp(|tail|)]) == tail
    ensures t.sent == tail && !Greeted(t)
  {
    assert [] + tail == tail && tail[..|tail|] == tail;
    t := Step(Step(s, Receive(tail)), SendUp(|tail|));
    TwoSteps(s, Receive(tail), SendUp(|tail|));
  }

  /** A stream of the three messages can be cut in one way only. */
  lemma MessagesAreUnique(hello: seq<byte>, auth: seq<byte>, request: seq<byte>, payload: seq<byte>,
                          h: seq<byte>, a: seq<byte>, r: seq<byte>, rest: seq<byte>)
    requires H.IsHello(hello) && R.IsRequest(request) && H.IsHello(h) && R.IsRequest(r)
    requires if N.Choice(hello[2..]) == N.AUTH then A.IsAuth(auth) else auth == []
    requires if N.Choice(h[2..]) == N.AUTH then A.IsAuth(a) else a == []
    requires hello + (auth + (request + payload)) == h + (a + (r + rest))
    ensures payload == rest
  {
    HelloIsUnique(hello, auth + (request + payload), h, a + (r + rest));
    hide H.IsHello, A.IsAuth, R.IsRequest;
    if N.Choice(hello[2..]) == N.AUTH {
      AuthIsUnique(auth, request + payload, a, r + rest);
    } else {
      assert [] + (request + payload) == request + payload && [] + (r + rest) == r + rest;
    }
    RequestIsUnique(request, payload, r, rest);
  }

  lemma Regroup(a: seq<byte>, b: seq<byte>, c: seq<byte>, d: seq<byte>, e: seq<byte>)
    ensures a + b + c + d + e == a + (b + (c + (d + e)))
  {
    assert a + b + c + d + e == a + b + c + (d + e);
    assert a + b + c + (d + e) == a + b + (c + (d + e));
    assert a + b + (c + (d + e)) == a + (b + (c + (d + e)));
  }
}

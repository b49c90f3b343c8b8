/** The parser of the SOCKS5 request (section 4 of RFC 1928), for the CONNECT command.

    `destaddrLen` is a byte that holds the size of the allocated address array, one
    more than the address.  For a domain name of 255 bytes that size is 256, which the
    byte cannot hold: it becomes zero, no index ever equals it minus one, and the
    parser stays in the address state, going round its array. */
module RequestParsers {
  import opened Bytes
  import opened Drains
  import opened Buffers

  const SOCKS_VERSION: byte := 5
  const CONNECT: byte := 1
  const IPV4: byte := 1
  const FQDN: byte := 3
  const IPV6: byte := 4

  datatype State =
    | ReadingVersion | ReadingCommand | ReadingReserved | ReadingAType | ReadingAddrLen
    | ReadingAddr | ReadingPort | End | CommandError | ATypeError | Error

  /** `destaddr` is the allocated array; it is empty before the allocation. */
  datatype Request = Request(state: State, version: byte, command: byte, atype: byte, index: byte,
                             destaddrLen: byte, destaddr: seq<byte>, port: seq<byte>)

  function Init(port: seq<byte>): Request {
    Request(ReadingVersion, 0, 0, 0, 0, 0, [], port)
  }

  function Allocate(p: Request, size: nat): Request {
    p.(destaddrLen := size % 256, destaddr := Zeros(size), state := ReadingAddr)
  }

  function StepAddr(p: Request, c: byte): Request {
    if p.index >= |p.destaddr| then p   // no reachable parser stores outside the array: InBounds
    else
      var i := (p.index + 1) % 256;
      var len: int := p.destaddrLen;
      var q := p.(destaddr := p.destaddr[p.index as int := c], index := i);
      if i != len - 1 then q
      else if i >= |p.destaddr| then q
      else q.(destaddr := q.destaddr[i as int := 0], state := ReadingPort, index := 0)
  }

  function StepPort(p: Request, c: byte): Request {
    if p.index >= |p.port| then p
    else
      var i := (p.index + 1) % 256;
      p.(port := p.port[p.index as int := c], index := i, state := if i == 2 then End else ReadingPort)
  }

  function Step(p: Request, c: byte): Request {
    match p.state
    case ReadingVersion =>
      if c == SOCKS_VERSION then p.(version := c, state := ReadingCommand) else p.(state := Error)
    case ReadingCommand =>
      if c != CONNECT then p.(state := CommandError) else p.(command := c, state := ReadingReserved)
    case ReadingReserved => p.(state := if c != 0 then Error else ReadingAType)
    case ReadingAType =>
      if c == FQDN then p.(atype := c, state := ReadingAddrLen)
      else if c == IPV4 || c == IPV6 then Allocate(p.(atype := c), AddrSize(c) + 1)
      else p.(state := ATypeError)
    case ReadingAddrLen => if c <= 0 then p.(state := Error) else Allocate(p, AddrLength(c) + 1)
    case ReadingAddr => StepAddr(p, c)
    case ReadingPort => StepPort(p, c)
    case _ => p
  }

  /** The bytes of an address of type IPv4 or IPv6: four times the type. */
  function AddrSize(atype: byte): nat {
    var n: nat := atype;
    n * 4
  }

  function AddrLength(c: byte): nat {
    c
  }

  /** The loop goes on after the command and address-type errors. */
  predicate Stop(p: Request) {
    p.state.End? || p.state.Error?
  }

  // ----- messages

  /** The length of the part before the address. */
  function AddrStart(r: seq<byte>): nat
    requires |r| >= 4
  {
    if r[3] == FQDN then 5 else 4
  }

  function AddrEnd(r: seq<byte>): nat
    requires |r| >= 4 && |r| >= AddrStart(r)
  {
    if r[3] == FQDN then 5 + AddrLength(r[4]) else 4 + AddrSize(r[3])
  }

  predicate KnownAType(c: byte) {
    c == IPV4 || c == FQDN || c == IPV6
  }

  /** The fixed part of a CONNECT request, and for a domain name its length. */
  predicate HasHeader(r: seq<byte>) {
    && |r| >= 4 && r[0] == SOCKS_VERSION && r[1] == CONNECT && r[2] == 0 && KnownAType(r[3])
    && |r| >= AddrStart(r) && (r[3] == FQDN ==> r[4] > 0)
  }

  /** A complete CONNECT request as RFC 1928 has it. */
  predicate IsRequest(r: seq<byte>) {
    HasHeader(r) && |r| == AddrEnd(r) + 2
  }

  predicate LongDomain(r: seq<byte>) {
    HasHeader(r) && r[3] == FQDN && r[4] == 255
  }

  function Address(r: seq<byte>): seq<byte>
    requires IsRequest(r)
  {
    r[AddrStart(r)..AddrEnd(r)]
  }

  datatype Target = Ip4(bytes: seq<byte>) | Domain(bytes: seq<byte>) | Ip6(bytes: seq<byte>)

  predicate ValidTarget(a: Target) {
    match a
    case Ip4(bs) => |bs| == 4
    case Domain(bs) => 1 <= |bs| <= 255
    case Ip6(bs) => |bs| == 16
  }

  function Encode(a: Target, port: seq<byte>): seq<byte>
    requires ValidTarget(a) && |port| == 2
  {
    [SOCKS_VERSION, CONNECT, 0]
    + (match a
       case Ip4(bs) => [IPV4] + bs
       case Domain(bs) => var n: byte := |bs|; [FQDN, n] + bs
       case Ip6(bs) => [IPV6] + bs)
    + port
  }

  // ----- the parser after a whole input

  /** The parser after `t`, read off `t` itself. */
  function After(t: seq<byte>, port: seq<byte>): Request
    requires |port| == 2 && !LongDomain(t)
  {
    var p := Init(port);
    if |t| == 0 then p
    else if t[0] != SOCKS_VERSION then p.(state := Error)
    else if |t| == 1 then p.(version := 5, state := ReadingCommand)
    else if t[1] != CONNECT then p.(version := 5, state := CommandError)
    else if |t| == 2 then p.(version := 5, command := 1, state := ReadingReserved)
    else if t[2] != 0 then p.(version := 5, command := 1, state := Error)
    else if |t| == 3 then p.(version := 5, command := 1, state := ReadingAType)
    else if !KnownAType(t[3]) then p.(version := 5, command := 1, state := ATypeError)
    else if t[3] == FQDN && |t| == 4 then Request(ReadingAddrLen, 5, 1, FQDN, 0, 0, [], port)
    else if t[3] == FQDN && t[4] == 0 then Request(Error, 5, 1, FQDN, 0, 0, [], port)
    else AfterHeader(t, AddrStart(t), AddrEnd(t), port)
  }

  /** The parser once the header is complete. */
  function AfterHeader(t: seq<byte>, start: nat, end: nat, port: seq<byte>): Request
    requires |port| == 2 && 4 <= start <= |t| && start < end < start + 255
  {
    var size := end - start;
    if |t| < end then Request(ReadingAddr, 5, 1, t[3], |t| - start, size + 1, t[start..] + Zeros(end + 1 - |t|), port)
    else
      var addr := t[start..end] + Zeros(1);
      if |t| == end then Request(ReadingPort, 5, 1, t[3], 0, size + 1, addr, port)
      else if |t| == end + 1 then Request(ReadingPort, 5, 1, t[3], 1, size + 1, addr, [t[end], port[1]])
      else Request(End, 5, 1, t[3], 2, size + 1, addr, t[end..end + 2])
  }

  lemma AfterHeaderStep(t: seq<byte>, start: nat, end: nat, port: seq<byte>, c: byte)
    requires |port| == 2 && 4 <= start <= |t| && start < end < start + 255
    ensures AfterHeader(t + [c], start, end, port) == Step(AfterHeader(t, start, end, port), c)
  {
    var u := t + [c];
    assert u[3] == t[3];
    if |t| < end {
      var p := AfterHeader(t, start, end, port);
      assert p.destaddr[p.index as int := c] == u[start..] + Zeros(end + 1 - |u|);
      if |u| == end {
        assert u[start..end] == u[start..];
        assert (u[start..] + Zeros(1))[|u| - start := 0] == u[start..] + Zeros(1);
      }
    } else {
      assert u[start..end] == t[start..end];
      if |t| == end + 1 {
        assert u[end..end + 2] == [t[end], c];
      } else if |t| >= end + 2 {
        assert u[end..end + 2] == t[end..end + 2];
      }
    }
  }

  lemma AfterStep(t: seq<byte>, port: seq<byte>, c: byte)
    requires |port| == 2 && !LongDomain(t + [c])
    ensures !LongDomain(t)
    ensures After(t + [c], port) == Step(After(t, port), c)
  {
    var u := t + [c];
    assert forall i :: 0 <= i < |t| ==> u[i] == t[i];
    if HasHeader(t) {
      AfterHeaderStep(t, AddrStart(t), AddrEnd(t), port, c);
    } else if HasHeader(u) {
      HeaderComplete(t, port, c);
    }
  }

  /** The byte that completes the header allocates the address. */
  lemma HeaderComplete(t: seq<byte>, port: seq<byte>, c: byte)
    requires |port| == 2 && !LongDomain(t) && !HasHeader(t) && HasHeader(t + [c]) && !LongDomain(t + [c])
    ensures After(t + [c], port) == Step(After(t, port), c)
  {
    var u := t + [c];
    assert forall i :: 0 <= i < |t| ==> u[i] == t[i];
    assert |u| == AddrStart(u);
    assert u[|u|..] == [];
    assert [] + Zeros(AddrEnd(u) + 1 - |u|) == Zeros(AddrEnd(u) + 1 - |u|);
  }

  lemma {:induction false} RunIsAfter(t: seq<byte>, port: seq<byte>)
    requires |port| == 2 && !LongDomain(t)
    ensures Run(Step, Init(port), t) == After(t, port)
    decreases |t|
  {
    if t != [] {
      var n := |t| - 1;
      assert t[..n] + [t[n]] == t;
      RunSnoc(Step, Init(port), t);
      AfterStep(t[..n], port, t[n]);
      RunIsAfter(t[..n], port);
    }
  }

  lemma LongStep(p: Request, c: byte)
    requires p.state.ReadingAddr? && |p.destaddr| == 256 && p.destaddrLen == 0
    ensures var q := Step(p, c);
            q.state.ReadingAddr? && |q.destaddr| == 256 && q.destaddrLen == 0 && q.port == p.port && q.atype == p.atype
  {
  }

  /** After the header of a domain name of 255 bytes the parser never leaves the address
      state, whatever follows. */
  lemma {:induction false} LongDomainNeverEnds(t: seq<byte>, port: seq<byte>)
    requires |port| == 2 && LongDomain(t)
    ensures var p := Run(Step, Init(port), t);
            p.state.ReadingAddr? && |p.destaddr| == 256 && p.destaddrLen == 0 && p.port == port && p.atype == FQDN
    decreases |t|
  {
    var n := |t| - 1;
    assert t[..n] + [t[n]] == t;
    RunSnoc(Step, Init(port), t);
    if n == 4 {
      RunIsAfter(t[..4], port);
    } else {
      LongDomainNeverEnds(t[..n], port);
      LongStep(Run(Step, Init(port), t[..n]), t[n]);
    }
  }

  lemma Absorbs()
    ensures Absorbing(Step, Stop)
  {
  }

  // ----- what the parser promises

  /** The stores of the next byte, terminating zero included, lie inside the arrays: the
      length fits the address, or it has wrapped and no index ever meets it. */
  predicate Safe(p: Request) {
    && |p.port| == 2
    && (BeforeAddress(p.state) ==> p.index == 0)
    && (p.state.ReadingPort? ==> p.index < 2)
    && (p.state.ReadingAddr? ==>
          if p.destaddrLen == 0 then |p.destaddr| == 256
          else |p.destaddr| == p.destaddrLen && p.index + 1 < p.destaddrLen)
  }

  predicate BeforeAddress(s: State) {
    s.ReadingVersion? || s.ReadingCommand? || s.ReadingReserved? || s.ReadingAType? || s.ReadingAddrLen?
  }

  lemma SafeStep(p: Request, c: byte)
    requires Safe(p)
    ensures Safe(Step(p, c))
  {
  }

  /** No reachable parser stores outside its arrays, not even with a long domain. */
  lemma InBounds(t: seq<byte>, port: seq<byte>)
    requires |port| == 2
    ensures Safe(Run(Step, Init(port), t))
  {
    if LongDomain(t) { LongDomainNeverEnds(t, port); } else { RunIsAfter(t, port); }
  }

  /** A CONNECT request of RFC 1928 is parsed to its end exactly when it does not name a
      domain of 255 bytes; then the fields are its own and the address is followed by a
      zero. */
  lemma ParsesRequest(r: seq<byte>, port: seq<byte>)
    requires IsRequest(r) && |port| == 2
    ensures var p := Run(Step, Init(port), r);
            && (p.state.End? <==> !(r[3] == FQDN && r[4] == 255))
            && (p.state.End? ==>
                  && p.version == SOCKS_VERSION && p.command == CONNECT && p.atype == r[3]
                  && p.destaddr == Address(r) + [0] && p.destaddrLen == |p.destaddr|
                  && p.port == r[AddrEnd(r)..])
  {
    if LongDomain(r) {
      LongDomainNeverEnds(r, port);
    } else {
      RunIsAfter(r, port);
      assert Zeros(1) == [0];
      assert r[AddrEnd(r)..AddrEnd(r) + 2] == r[AddrEnd(r)..];
    }
  }

  /** The end state means the input is one complete request, once the last byte did it. */
  lemma EndIsRequest(t: seq<byte>, port: seq<byte>)
    requires |port| == 2 && t != [] && !LongDomain(t)
    requires Run(Step, Init(port), t).state.End? && !Run(Step, Init(port), t[..|t| - 1]).state.End?
    ensures IsRequest(t)
  {
    var before := t[..|t| - 1];
    assert forall i :: 0 <= i < |before| ==> before[i] == t[i];
    RunIsAfter(before, port);
    RunIsAfter(t, port);
  }

  lemma RequestEnds(t: seq<byte>, n: nat, port: seq<byte>)
    requires |port| == 2 && n <= |t| && IsRequest(t[..n]) && !LongDomain(t[..n])
    ensures Drain(Step, Stop, Init(port), t).0.state.End?
  {
    Absorbs();
    var consumed := DrainSplits(Step, Stop, Init(port), t);
    RequestPrefix(t, n, port);
    RunIsAfter(t, port);
  }

  lemma NotLong(t: seq<byte>, port: seq<byte>)
    requires |port| == 2 && Run(Step, Init(port), t).state.End?
    ensures !LongDomain(t)
  {
    if LongDomain(t) { LongDomainNeverEnds(t, port); }
  }

  /** What the loop has consumed when it ends well is one complete request. */
  lemma EndMeansRequest(t: seq<byte>, port: seq<byte>) returns (n: nat)
    requires |port| == 2 && Drain(Step, Stop, Init(port), t).0.state.End?
    ensures var (p, rest) := Drain(Step, Stop, Init(port), t);
            && 2 <= n <= |t| && |rest| == |t| - n && rest == t[n..]
            && IsRequest(t[..n]) && !LongDomain(t[..n])
            && p.destaddr == Address(t[..n]) + [0] && p.port == t[n - 2..n]
  {
    Absorbs();
    var (p, rest) := Drain(Step, Stop, Init(port), t);
    var consumed := DrainSplits(Step, Stop, Init(port), t);
    n := |consumed|;
    assert consumed == t[..n] && rest == t[n..];
    NotLong(consumed, port);
    RunIsAfter(consumed, port);
    EndIsRequest(consumed, port);
    ParsesRequest(consumed, port);
    assert consumed[AddrEnd(consumed)..] == t[n - 2..n];
  }

  /** The loop reaches the end state exactly when the input starts with a complete
      request without a domain of 255 bytes, and stops right behind that request. */
  lemma Accepts(t: seq<byte>, port: seq<byte>)
    requires |port| == 2
    ensures var (p, rest) := Drain(Step, Stop, Init(port), t);
            && (p.state.End? <==> StartsWithRequest(t))
            && (p.state.End? ==>
                  && |rest| <= |t| && rest == t[|t| - |rest|..] && IsRequest(t[..|t| - |rest|])
                  && p.destaddr == Address(t[..|t| - |rest|]) + [0]
                  && |t| - |rest| >= 2 && p.port == t[|t| - |rest| - 2..|t| - |rest|])
  {
    hide Drain, IsRequest, LongDomain, Address, Step;
    if Drain(Step, Stop, Init(port), t).0.state.End? {
      var n := EndMeansRequest(t, port);
      assert n == |t| - |Drain(Step, Stop, Init(port), t).1|;
    }
    if n :| 0 <= n <= |t| && IsRequest(t[..n]) && !LongDomain(t[..n]) {
      RequestEnds(t, n, port);
    }
  }

  /** The input starts with a request the parser can end. */
  ghost predicate StartsWithRequest(t: seq<byte>) {
    exists n :: 0 <= n <= |t| && IsRequest(t[..n]) && !LongDomain(t[..n])
  }

  lemma RequestPrefix(t: seq<byte>, n: nat, port: seq<byte>)
    requires |port| == 2 && n <= |t| && IsRequest(t[..n]) && !LongDomain(t[..n])
    ensures !LongDomain(t) && After(t, port).state.End?
  {
    var r := t[..n];
    assert forall i :: 0 <= i < n ==> r[i] == t[i];
  }

  /** The bytes that lead to each of the two rejections, which the loop does not stop on:
      it then eats the whole buffer. */
  lemma Rejections(t: seq<byte>, port: seq<byte>)
    requires |port| == 2
    ensures var (p, rest) := Drain(Step, Stop, Init(port), t);
            && (p.state.CommandError? <==> |t| >= 2 && t[0] == SOCKS_VERSION && t[1] != CONNECT)
            && (p.state.ATypeError? <==>
                  |t| >= 4 && t[0] == SOCKS_VERSION && t[1] == CONNECT && t[2] == 0 && !KnownAType(t[3]))
            && (p.state.CommandError? || p.state.ATypeError? ==> rest == [])
  {
    Absorbs();
    var (p, rest) := Drain(Step, Stop, Init(port), t);
    var consumed := DrainSplits(Step, Stop, Init(port), t);
    if LongDomain(t) { LongDomainNeverEnds(t, port); } else { RunIsAfter(t, port); }
  }

  /** A wrong version, a reserved byte that is not zero, or an empty domain name. */
  predicate IsMalformed(t: seq<byte>) {
    || (|t| >= 1 && t[0] != SOCKS_VERSION)
    || (|t| >= 3 && t[0] == SOCKS_VERSION && t[1] == CONNECT && t[2] != 0)
    || (|t| >= 5 && t[0] == SOCKS_VERSION && t[1] == CONNECT && t[2] == 0 && t[3] == FQDN && t[4] == 0)
  }

  /** The inputs that lead to the error the loop does stop on. */
  lemma RejectsExactly(t: seq<byte>, port: seq<byte>)
    requires |port| == 2
    ensures Drain(Step, Stop, Init(port), t).0.state.Error? <==> IsMalformed(t)
  {
    Absorbs();
    var consumed := DrainSplits(Step, Stop, Init(port), t);
    if LongDomain(t) { LongDomainNeverEnds(t, port); } else { RunIsAfter(t, port); }
  }

  lemma EncodeIsRequest(a: Target, port: seq<byte>)
    requires ValidTarget(a) && |port| == 2
    ensures var r := Encode(a, port);
            && IsRequest(r) && Address(r) == a.bytes && r[AddrEnd(r)..] == port
            && (LongDomain(r) <==> a.Domain? && |a.bytes| == 255)
  {
    var r := Encode(a, port);
    if a.Domain? {
      assert r[3] == FQDN && r[4] == |a.bytes|;
      assert r[5..5 + |a.bytes|] == a.bytes;
      assert r[5 + |a.bytes|..] == port;
    } else {
      assert r[4..4 + |a.bytes|] == a.bytes;
      assert r[4 + |a.bytes|..] == port;
    }
  }

  /** Parsing an encoded request gives its address, zero-terminated, and its port, and
      leaves exactly what follows. */
  lemma RoundTrip(a: Target, to: seq<byte>, rest: seq<byte>, port: seq<byte>)
    requires ValidTarget(a) && |to| == 2 && |port| == 2 && !(a.Domain? && |a.bytes| == 255)
    ensures var (p, left) := Drain(Step, Stop, Init(port), Encode(a, to) + rest);
            && p.state.End? && left == rest
            && p.destaddr == a.bytes + [0] && p.port == to
            && p.atype == match a case Ip4(_) => IPV4 case Domain(_) => FQDN case Ip6(_) => IPV6
  {
    var r := Encode(a, to);
    EncodeIsRequest(a, to);
    ParsesRequest(r, port);
    WholeRequest(r, rest, port);
  }

  /** What one call of the loop makes of a request and what follows it, when it is given the
      first `k` bytes: it ends iff they hold the request and this has no long domain, and
      otherwise eats them all; the address type is known from the fourth byte on. */
  lemma CutRequest(r: seq<byte>, payload: seq<byte>, k: nat, port: seq<byte>)
    requires IsRequest(r) && |port| == 2 && k <= |r + payload|
    ensures var t := (r + payload)[..k];
            var (p, rest) := Drain(Step, Stop, Init(port), t);
            && !p.state.Error?
            && p.atype == (if k < 4 then 0 else r[3])
            && (p.state.End? <==> k >= |r| && !LongDomain(r))
            && rest == if p.state.End? then t[|r|..] else []
  {
    var t := (r + payload)[..k];
    assert forall i :: 0 <= i < k && i < |r| ==> t[i] == r[i];
    if k >= |r| && !LongDomain(r) {
      WholeRequest(r, t[|r|..], port);
      assert t == r + t[|r|..];
    } else {
      Absorbs();
      var consumed := DrainSplits(Step, Stop, Init(port), t);
      if LongDomain(r) && k >= 5 {
        LongDomainNeverEnds(t, port);
      } else {
        RunIsAfter(t, port);
      }
    }
  }

  lemma WholeRequest(r: seq<byte>, rest: seq<byte>, port: seq<byte>)
    requires IsRequest(r) && !LongDomain(r) && |port| == 2
    ensures Drain(Step, Stop, Init(port), r + rest) == (Run(Step, Init(port), r), rest)
    ensures Run(Step, Init(port), r).state.End? && Run(Step, Init(port), r).atype == r[3]
  {
    ParsesRequest(r, port);
    forall k | 0 < k < |r|
      ensures !Stop(Run(Step, Init(port), r[..k]))
    {
      PrefixGoesOn(r, k, port);
    }
    DrainStopsAt(Step, Stop, Init(port), r, rest);
  }

  lemma PrefixGoesOn(r: seq<byte>, k: nat, port: seq<byte>)
    requires IsRequest(r) && !LongDomain(r) && 0 < k < |r| && |port| == 2
    ensures !Stop(Run(Step, Init(port), r[..k]))
  {
    assert forall i :: 0 <= i < k ==> r[..k][i] == r[i];
    RunIsAfter(r[..k], port);
  }

  /** However the request is split over receives, the parser and the bytes left in the
      buffer are those of a single receive. */
  lemma ChunkIndependent(chunks: seq<seq<byte>>, port: seq<byte>)
    requires chunks != []
    ensures Feed(Step, Stop, Init(port), [], chunks) == Drain(Step, Stop, Init(port), Flatten(chunks))
    ensures FeedOn(Step, Stop, Init(port), [], chunks).0 == Drain(Step, Stop, Init(port), Flatten(chunks)).0
  {
    Absorbs();
    assert [] + Flatten(chunks) == Flatten(chunks);
    FeedIsOneFill(Step, Stop, Init(port), [], chunks);
    FeedOnSameParser(Step, Stop, Init(port), [], chunks);
    var consumed := DrainSplits(Step, Stop, Init(port), Flatten(chunks));
  }

  class RequestParser {
    var state: State
    var version: byte
    var command: byte
    var atype: byte
    var index: byte
    var destaddrLen: byte
    var destaddr: array<byte>   // empty until allocated
    const port: array<byte>

    function View(): Request
      reads this, destaddr, port
    {
      Request(state, version, command, atype, index, destaddrLen, destaddr[..], port[..])
    }

    ghost predicate Valid()
      reads this
    {
      port.Length == 2 && destaddr != port
    }

    constructor ()
      ensures Valid() && fresh(destaddr) && fresh(port)
      ensures View() == Init(port[..]) && Safe(View())
    {
      state := ReadingVersion;
      version, command, destaddrLen, atype, index := 0, 0, 0, 0, 0;
      destaddr := new byte[0];
      port := new byte[2];
    }

    method AllocateAddress(size: nat)
      requires Valid()
      modifies this
      ensures Valid() && fresh(destaddr)
      ensures View() == Allocate(old(View()), size)
    {
      destaddrLen := size % 256;
      destaddr := new byte[size](_ => 0);
      assert destaddr[..] == Zeros(size);
      state := ReadingAddr;
    }

    method ConsumeByte(c: byte) returns (s: State)
      requires Valid()
      requires Safe(View())
      modifies this, destaddr, port
      ensures Valid() && (destaddr == old(destaddr) || fresh(destaddr))
      ensures View() == Step(old(View()), c) && Safe(View()) && s == state
    {
      SafeStep(View(), c);
      hide Safe, StepAddr, StepPort;
      match state {
        case ReadingVersion =>
          if c == SOCKS_VERSION {
            version := c;
            state := ReadingCommand;
          } else {
            state := Error;
          }
        case ReadingCommand =>
          if c != CONNECT {
            state := CommandError;
          } else {
            command := c;
            state := ReadingReserved;
          }
        case ReadingReserved =>
          state := if c != 0 then Error else ReadingAType;
        case ReadingAType =>
          if c == FQDN {
            atype := c;
            state := ReadingAddrLen;
          } else if c == IPV4 || c == IPV6 {
            atype := c;
            AllocateAddress(AddrSize(c) + 1);
          } else {
            state := ATypeError;
          }
        case ReadingAddrLen =>
          if c <= 0 {
            state := Error;
          } else {
            AllocateAddress(AddrLength(c) + 1);
          }
        case ReadingAddr =>
          StoreAddr(c);
        case ReadingPort =>
          StorePort(c);
        case _ =>
      }
      s := state;
    }

    method StoreAddr(c: byte)
      requires Valid() && state.ReadingAddr? && Safe(View())
      modifies this`index, this`state, destaddr
      ensures View() == StepAddr(old(View()), c)
    {
      var len: int := destaddrLen;
      destaddr[index] := c;
      index := (index + 1) % 256;
      if index == len - 1 {
        destaddr[index] := 0;
        state := ReadingPort;
        index := 0;
      }
    }

    method StorePort(c: byte)
      requires Valid() && state.ReadingPort? && Safe(View())
      modifies this`index, this`state, port
      ensures View() == StepPort(old(View()), c)
    {
      port[index] := c;
      index := (index + 1) % 256;
      if index == 2 {
        state := End;
      }
    }

    /** Takes one byte from the buffer and parses it. */
    method ConsumeNext(b: Buffer) returns (s: State)
      requires Valid() && b.Valid() && b.data != destaddr && b.data != port && b.Contents() != [] && Safe(View())
      modifies this, destaddr, port, b, b.data
      ensures Valid() && b.Valid() && (destaddr == old(destaddr) || fresh(destaddr))
      ensures View() == Step(old(View()), old(b.Contents()[0])) && Safe(View())
      ensures b.View() == old(b.View()).Take(1) && b.Contents() == old(b.Contents())[1..]
      ensures s == state
    {
      hide Pipe.Take;
      var c := b.Read();
      s := ConsumeByte(c);
    }

    /** Parses what the buffer holds. */
    method Consume(b: Buffer) returns (s: State)
      requires Valid() && b.Valid() && b.data != destaddr && b.data != port && Safe(View())
      modifies this, destaddr, port, b, b.data
      ensures Valid() && b.Valid() && Safe(View())
      ensures destaddr == old(destaddr) || fresh(destaddr)
      ensures (View(), b.Contents()) == Drain(Step, Stop, old(View()), old(b.Contents()))
      ensures |b.Contents()| <= |old(b.Contents())|
      ensures b.View() == old(b.View()).Take(|old(b.Contents())| - |b.Contents()|)
      ensures s == state
    {
      s := state;
      ghost var p0, bs := View(), b.Contents();
      ghost var k := 0;
      TakeNothing(b.View());
      var can := b.CanRead();
      while can
        invariant Valid() && b.Valid() && b.data != destaddr && b.data != port
        invariant destaddr == old(destaddr) || fresh(destaddr)
        invariant can <==> b.Contents() != []
        invariant k <= |bs| && b.Contents() == bs[k..] && b.View() == old(b.View()).Take(k)
        invariant Safe(View()) && s == state
        invariant Drain(Step, Stop, View(), b.Contents()) == Drain(Step, Stop, p0, bs)
        decreases |b.Contents()|
      {
        TakeOneMore(old(b.View()), k);
        s := ConsumeNext(b);
        k := k + 1;
        if s.End? || s.Error? {
          break;
        }
        can := b.CanRead();
      }
    }
  }
}

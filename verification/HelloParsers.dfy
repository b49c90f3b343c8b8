/** The parser of the first message of a SOCKS5 client: version, number of methods,
    methods (section 3 of RFC 1928). */
module HelloParsers {
  import opened Bytes
  import opened Drains
  import opened Buffers

  const SOCKS_VERSION: byte := 5

  datatype State = ReadingVersion | ReadingNMethods | ReadingMethods | End | Error

  /** `methods` is the allocated array; it is empty before the allocation. */
  datatype Hello = Hello(state: State, methods: seq<byte>, nmethods: byte, index: byte)

  const HELLO_INIT := Hello(ReadingVersion, [], 0, 0)

  function Step(p: Hello, c: byte): Hello {
    match p.state
    case ReadingVersion => p.(state := if c == SOCKS_VERSION then ReadingNMethods else Error)
    case ReadingNMethods =>
      if c <= 0 then p.(state := Error)
      else p.(nmethods := c, methods := Zeros(c), state := ReadingMethods)
    case ReadingMethods =>
      if p.index >= |p.methods| then p   // no reachable parser stores outside the array: InBounds
      else
        var index := (p.index + 1) % 256;
        p.(methods := p.methods[p.index as int := c], index := index,
           state := if index == p.nmethods then End else ReadingMethods)
    case _ => p
  }

  predicate Stop(p: Hello) {
    p.state.End? || p.state.Error?
  }

  /** The length of the message that starts with `h`. */
  function Size(h: seq<byte>): nat
    requires |h| >= 2
  {
    var n: nat := h[1];
    2 + n
  }

  /** A complete message. */
  predicate IsHello(h: seq<byte>) {
    |h| >= 3 && h[0] == SOCKS_VERSION && h[1] > 0 && |h| == Size(h)
  }

  function Encode(methods: seq<byte>): seq<byte>
    requires 1 <= |methods| <= 255
  {
    var n: byte := |methods|;
    [SOCKS_VERSION, n] + methods
  }

  /** The parser after `t`, read off `t` itself. */
  function After(t: seq<byte>): Hello {
    if |t| == 0 then HELLO_INIT
    else if t[0] != SOCKS_VERSION then HELLO_INIT.(state := Error)
    else if |t| == 1 then HELLO_INIT.(state := ReadingNMethods)
    else if t[1] == 0 then HELLO_INIT.(state := Error)
    else if |t| < Size(t) then Hello(ReadingMethods, t[2..] + Zeros(Size(t) - |t|), t[1], |t| - 2)
    else Hello(End, t[2..Size(t)], t[1], t[1])
  }

  lemma AfterStep(t: seq<byte>, c: byte)
    ensures After(t + [c]) == Step(After(t), c)
  {
    var u := t + [c];
    if |t| >= 2 && t[0] == SOCKS_VERSION && 0 < t[1] {
      assert u[0] == t[0] && u[1] == t[1];
      var size := Size(t);
      if |t| < size {
        var p := After(t);
        assert p.methods[p.index as int := c] == u[2..] + Zeros(size - |u|);
        if |u| == size { assert u[2..] + Zeros(0) == u[2..size]; }
      } else {
        assert u[2..size] == t[2..size];
      }
    } else if |t| == 1 {
      assert u[2..] == [];
      assert c > 0 ==> [] + Zeros(c) == Zeros(c);
    }
  }

  lemma {:induction false} RunIsAfter(t: seq<byte>)
    ensures Run(Step, HELLO_INIT, t) == After(t)
    decreases |t|
  {
    if t != [] {
      var n := |t| - 1;
      RunSnoc(Step, HELLO_INIT, t);
      RunIsAfter(t[..n]);
      AfterStep(t[..n], t[n]);
      assert t[..n] + [t[n]] == t;
    }
  }

  /** The store of the next byte lies inside the array. */
  predicate Safe(p: Hello) {
    && (p.state.ReadingVersion? || p.state.ReadingNMethods? ==> p.index == 0)
    && (p.state.ReadingMethods? ==> p.index < |p.methods| == p.nmethods)
  }

  /** No reachable parser stores outside its array. */
  lemma InBounds(t: seq<byte>)
    ensures Safe(Run(Step, HELLO_INIT, t))
  {
    RunIsAfter(t);
  }

  lemma Absorbs()
    ensures Absorbing(Step, Stop)
  {
  }

  /** An input that ends the parser with its last byte is one complete message. */
  lemma EndIsHello(t: seq<byte>)
    requires After(t).state.End? && !Stop(Run(Step, HELLO_INIT, t[..|t| - 1]))
    ensures IsHello(t) && After(t).methods == t[2..]
  {
    RunIsAfter(t[..|t| - 1]);
  }

  /** What the loop has consumed when it ends well is one complete message. */
  lemma EndMeansHello(t: seq<byte>)
    requires Drain(Step, Stop, HELLO_INIT, t).0.state.End?
    ensures var (p, rest) := Drain(Step, Stop, HELLO_INIT, t);
            && |rest| <= |t| && IsHello(t[..|t| - |rest|]) && rest == t[|t| - |rest|..]
            && p.methods == t[2..|t| - |rest|]
  {
    Absorbs();
    var (p, rest) := Drain(Step, Stop, HELLO_INIT, t);
    var consumed := DrainSplits(Step, Stop, HELLO_INIT, t);
    RunIsAfter(consumed);
    EndIsHello(consumed);
    assert consumed == t[..|consumed|] && rest == t[|consumed|..];
  }

  lemma HelloEnds(t: seq<byte>, n: nat)
    requires n <= |t| && IsHello(t[..n])
    ensures Drain(Step, Stop, HELLO_INIT, t).0.state.End?
  {
    Absorbs();
    var consumed := DrainSplits(Step, Stop, HELLO_INIT, t);
    RunIsAfter(t);
    assert t[..n][0] == t[0] && t[..n][1] == t[1];
  }

  /** The end state is reached exactly when the input starts with a complete message;
      then the fields are those of the message and the loop stops right behind it. */
  lemma Accepts(t: seq<byte>)
    ensures var (p, rest) := Drain(Step, Stop, HELLO_INIT, t);
            && (p.state.End? <==> exists n :: 0 <= n <= |t| && IsHello(t[..n]))
            && (p.state.End? ==> |rest| <= |t| && IsHello(t[..|t| - |rest|]) && rest == t[|t| - |rest|..]
                                 && p.methods == t[2..|t| - |rest|])
  {
    hide Drain, IsHello, Step;
    if Drain(Step, Stop, HELLO_INIT, t).0.state.End? { EndMeansHello(t); }
    if n :| 0 <= n <= |t| && IsHello(t[..n]) { HelloEnds(t, n); }
  }

  /** The inputs the loop rejects: a wrong version or no methods. */
  lemma RejectsExactly(t: seq<byte>)
    ensures Drain(Step, Stop, HELLO_INIT, t).0.state.Error? <==>
              (|t| >= 1 && t[0] != SOCKS_VERSION) || (|t| >= 2 && t[0] == SOCKS_VERSION && t[1] == 0)
  {
    Absorbs();
    var consumed := DrainSplits(Step, Stop, HELLO_INIT, t);
    RunIsAfter(t);
  }

  /** Parsing an encoded message gives its methods and leaves exactly what follows. */
  lemma RoundTrip(methods: seq<byte>, rest: seq<byte>)
    requires 1 <= |methods| <= 255
    ensures Drain(Step, Stop, HELLO_INIT, Encode(methods) + rest)
            == (Hello(End, methods, |methods|, |methods|), rest)
  {
    var a := Encode(methods);
    RunIsAfter(a);
    assert a[2..Size(a)] == methods;
    forall k | 0 < k < |a|
      ensures !Stop(Run(Step, HELLO_INIT, a[..k]))
    {
      RunIsAfter(a[..k]);
    }
    DrainStopsAt(Step, Stop, HELLO_INIT, a, rest);
  }

  /** However the message is split over receives, the methods found and the bytes left
      in the buffer are those of a single receive. */
  lemma ChunkIndependent(chunks: seq<seq<byte>>)
    requires chunks != []
    ensures Feed(Step, Stop, HELLO_INIT, [], chunks) == Drain(Step, Stop, HELLO_INIT, Flatten(chunks))
    ensures FeedOn(Step, Stop, HELLO_INIT, [], chunks).0 == Drain(Step, Stop, HELLO_INIT, Flatten(chunks)).0
  {
    Absorbs();
    assert [] + Flatten(chunks) == Flatten(chunks);
    FeedIsOneFill(Step, Stop, HELLO_INIT, [], chunks);
    FeedOnSameParser(Step, Stop, HELLO_INIT, [], chunks);
    var consumed := DrainSplits(Step, Stop, HELLO_INIT, Flatten(chunks));
  }

  class HelloParser {
    var state: State
    var methods: array<byte>   // empty until allocated
    var nmethods: byte
    var index: byte

    function View(): Hello
      reads this, methods
    {
      Hello(state, methods[..], nmethods, index)
    }

    constructor ()
      ensures View() == HELLO_INIT && Safe(View()) && fresh(methods)
    {
      state := ReadingVersion;
      methods := new byte[0];
      nmethods := 0;
      index := 0;
    }

    method ConsumeByte(c: byte) returns (s: State)
      requires Safe(View())
      modifies this, methods
      ensures View() == Step(old(View()), c) && Safe(View()) && s == state
      ensures methods == old(methods) || fresh(methods)
    {
      match state {
        case ReadingVersion =>
          state := if c == SOCKS_VERSION then ReadingNMethods else Error;
        case ReadingNMethods =>
          if c <= 0 {
            state := Error;
          } else {
            nmethods := c;
            methods := new byte[c](_ => 0);
            assert methods[..] == Zeros(c);
            state := ReadingMethods;
          }
        case ReadingMethods =>
          methods[index] := c;
          index := (index + 1) % 256;
          if index == nmethods {
            state := End;
          }
        case _ =>
      }
      s := state;
    }

    /** Takes one byte from the buffer and parses it. */
    method ConsumeNext(b: Buffer) returns (s: State)
      requires b.Valid() && b.data != methods && b.Contents() != [] && Safe(View())
      modifies this, methods, b, b.data
      ensures b.Valid() && (methods == old(methods) || fresh(methods))
      ensures View() == Step(old(View()), old(b.Contents()[0])) && Safe(View())
      ensures b.View() == old(b.View()).Take(1) && b.Contents() == old(b.Contents())[1..]
      ensures s == state
    {
      hide Pipe.Take;
      var c := b.Read();
      s := ConsumeByte(c);
    }

    /** Parses what the buffer holds. */
    method Consume(b: Buffer) returns (s: State)
      requires b.Valid() && b.data != methods && Safe(View())
      modifies this, methods, b, b.data
      ensures b.Valid() && (methods == old(methods) || fresh(methods))
      ensures Safe(View())
      ensures (View(), b.Contents()) == Drain(Step, Stop, old(View()), old(b.Contents()))
      ensures |b.Contents()| <= |old(b.Contents())|
      ensures b.View() == old(b.View()).Take(|old(b.Contents())| - |b.Contents()|)
      ensures s == state
    {
      s := state;
      ghost var p0, bs := View(), b.Contents();
      ghost var k := 0;
      TakeNothing(b.View());
      var can := b.CanRead();
      while can
        invariant b.Valid() && b.data != methods
        invariant methods == old(methods) || fresh(methods)
        invariant can <==> b.Contents() != []
        invariant k <= |bs| && b.Contents() == bs[k..] && b.View() == old(b.View()).Take(k)
        invariant Safe(View()) && s == state
        invariant Drain(Step, Stop, View(), b.Contents()) == Drain(Step, Stop, p0, bs)
        decreases |b.Contents()|
      {
        TakeOneMore(old(b.View()), k);
        s := ConsumeNext(b);
        k := k + 1;
        if s.End? || s.Error? {
          break;
        }
        can := b.CanRead();
      }
    }
  }
}

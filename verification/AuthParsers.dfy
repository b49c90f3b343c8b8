/** The parser of the username/password message (section 2 of RFC 1929): version, user
    length, user, password length, password.

    The two arrays have 255 slots and a terminating zero is stored after the text, so
    a length of 255 makes the parser store outside its array.  C gives such a program
    no meaning; `overrun` marks it, and nothing is said about what comes after. */
module AuthParsers {
  import opened Bytes
  import opened Drains
  import opened Buffers

  const AUTH_VERSION: byte := 1
  const SLOTS: nat := 255

  datatype State = ReadingVersion | ReadingULen | ReadingUName | ReadingPLen | ReadingPassword | End | Error

  datatype Auth = Auth(state: State, user: seq<byte>, pass: seq<byte>,
                       userIndex: byte, ulen: byte, passIndex: byte, plen: byte, overrun: bool)

  /** The arrays start with whatever the allocator left in them. */
  function Init(user: seq<byte>, pass: seq<byte>): Auth {
    Auth(ReadingVersion, user, pass, 0, 0, 0, 0, false)
  }

  function Next(i: byte): byte {
    (i + 1) % 256
  }

  function StepUser(p: Auth, c: byte): Auth {
    if p.userIndex >= |p.user| then p.(overrun := true) else
    var i := Next(p.userIndex);
    var q := p.(user := p.user[p.userIndex as int := c], userIndex := i);
    if i != p.ulen then q
    else if i >= |p.user| then q.(overrun := true)
    else q.(user := q.user[i as int := 0], userIndex := Next(i), state := ReadingPLen)
  }

  function StepPass(p: Auth, c: byte): Auth {
    if p.passIndex >= |p.pass| then p.(overrun := true) else
    var i := Next(p.passIndex);
    var q := p.(pass := p.pass[p.passIndex as int := c], passIndex := i);
    if i != p.plen then q
    else if i >= |p.pass| then q.(overrun := true)
    else q.(pass := q.pass[i as int := 0], passIndex := Next(i), state := End)
  }

  function Step(p: Auth, c: byte): Auth {
    if p.overrun then p else
    match p.state
    case ReadingVersion => p.(state := if c == AUTH_VERSION then ReadingULen else Error)
    case ReadingULen => if c <= 0 then p.(state := Error) else p.(ulen := c, state := ReadingUName)
    case ReadingUName => StepUser(p, c)
    case ReadingPLen => if c <= 0 then p.(state := Error) else p.(plen := c, state := ReadingPassword)
    case ReadingPassword => StepPass(p, c)
    case _ => p
  }

  predicate Stop(p: Auth) {
    p.state.End? || p.state.Error?
  }

  // ----- messages

  /** Where the user name of the message that starts with `a` ends. */
  function UserEnd(a: seq<byte>): nat
    requires |a| >= 2
  {
    var n: nat := a[1];
    2 + n
  }

  /** Where its password ends. */
  function PassEnd(a: seq<byte>): nat
    requires |a| >= 2 && |a| > UserEnd(a)
  {
    var n: nat := a[UserEnd(a)];
    UserEnd(a) + 1 + n
  }

  /** A complete message as RFC 1929 has it: both lengths from 1 to 255. */
  predicate IsAuth(a: seq<byte>) {
    && |a| >= 2 && a[0] == AUTH_VERSION && a[1] > 0
    && |a| > UserEnd(a) && a[UserEnd(a)] > 0
    && |a| == PassEnd(a)
  }

  function User(a: seq<byte>): seq<byte>
    requires IsAuth(a)
  {
    a[2..UserEnd(a)]
  }

  function Password(a: seq<byte>): seq<byte>
    requires IsAuth(a)
  {
    a[UserEnd(a) + 1..]
  }

  function Encode(user: seq<byte>, pass: seq<byte>): seq<byte>
    requires 1 <= |user| <= 255 && 1 <= |pass| <= 255
  {
    var u: byte, p: byte := |user|, |pass|;
    [AUTH_VERSION, u] + user + [p] + pass
  }

  /** The input holds all bytes of a user name of 255 bytes. */
  predicate LongUser(t: seq<byte>) {
    |t| >= 2 && t[0] == AUTH_VERSION && t[1] == 255 && |t| >= UserEnd(t)
  }

  /** The input holds a shorter user name and all bytes of a password of 255 bytes. */
  predicate LongPass(t: seq<byte>) {
    && |t| >= 2 && t[0] == AUTH_VERSION && 0 < t[1] < 255
    && |t| > UserEnd(t) && t[UserEnd(t)] == 255 && |t| >= PassEnd(t)
  }

  // ----- the parser after a whole input

  /** The start of an array overwritten by `s`. */
  function Over(s: seq<byte>, a: seq<byte>): seq<byte>
    requires |s| <= |a|
  {
    s + a[|s|..]
  }

  /** The parser after `t`, read off `t` itself. */
  function After(t: seq<byte>, user: seq<byte>, pass: seq<byte>): Auth
    requires |user| == |pass| == SLOTS
  {
    var p := Init(user, pass);
    if |t| == 0 then p
    else if t[0] != AUTH_VERSION then p.(state := Error)
    else if |t| == 1 then p.(state := ReadingULen)
    else if t[1] == 0 then p.(state := Error)
    else
      var end := UserEnd(t);
      if |t| < end then Auth(ReadingUName, Over(t[2..], user), pass, |t| - 2, t[1], 0, 0, false)
      else if t[1] == 255 then Auth(ReadingUName, t[2..end], pass, 255, 255, 0, 0, true)
      else
        var q := Auth(ReadingPLen, Over(t[2..end] + [0], user), pass, end - 1, t[1], 0, 0, false);
        AfterUser(t, end, q)
  }

  /** The rest of the message, once the user name has been read into `q`. */
  function AfterUser(t: seq<byte>, end: nat, q: Auth): Auth
    requires end <= |t| && |q.pass| == SLOTS
  {
    if |t| == end then q
    else if t[end] == 0 then q.(state := Error)
    else
      var n: nat := t[end];
      var from, last := end + 1, end + 1 + n;
      if |t| < last then q.(state := ReadingPassword, plen := t[end], passIndex := |t| - from, pass := Over(t[from..], q.pass))
      else if t[end] == 255 then q.(state := ReadingPassword, plen := 255, passIndex := 255, pass := t[from..last], overrun := true)
      else q.(state := End, plen := t[end], passIndex := n + 1, pass := Over(t[from..last] + [0], q.pass))
  }

  lemma OverStep(s: seq<byte>, a: seq<byte>, c: byte)
    requires |s| < |a|
    ensures Over(s, a)[|s| := c] == Over(s + [c], a)
    ensures |Over(s, a)| == |a|
  {
  }

  lemma AfterPassByte(t: seq<byte>, end: nat, q: Auth, c: byte)
    requires end < |t| && |q.pass| == SLOTS && q.state.ReadingPLen? && !q.overrun && q.passIndex == 0
    requires var n: nat := t[end]; 0 < n && |t| < end + 1 + n
    ensures AfterUser(t + [c], end, q) == Step(AfterUser(t, end, q), c)
  {
    var u := t + [c];
    var n: nat := t[end];
    var from, last := end + 1, end + 1 + n;
    assert u[end] == t[end];
    assert u[from..] == t[from..] + [c];
    OverStep(t[from..], q.pass, c);
    if |u| == last {
      assert u[from..last] == u[from..];
      OverAll(u[from..], q.pass, n);
    }
    hide Over;
  }

  /** A text with its terminator, or a text that fills the array. */
  lemma OverAll(s: seq<byte>, a: seq<byte>, n: nat)
    requires |s| == n <= |a|
    ensures n == |a| ==> Over(s, a) == s
    ensures n < |a| ==> Over(s, a)[n := 0] == Over(s + [0], a)
  {
  }

  lemma AfterUserStep(t: seq<byte>, end: nat, q: Auth, c: byte)
    requires end <= |t| && |q.pass| == SLOTS && q.state.ReadingPLen? && !q.overrun && q.passIndex == 0
    ensures AfterUser(t + [c], end, q) == Step(AfterUser(t, end, q), c)
  {
    var u := t + [c];
    if |t| == end {
      assert u[end + 1..] == [];
      assert Over([], q.pass) == q.pass;
    } else {
      assert u[end] == t[end];
      var n: nat := t[end];
      if 0 < n && |t| < end + 1 + n {
        AfterPassByte(t, end, q, c);
      } else if 0 < n {
        assert u[end + 1..end + 1 + n] == t[end + 1..end + 1 + n];
      }
    }
  }

  lemma AfterUserByte(t: seq<byte>, c: byte, user: seq<byte>, pass: seq<byte>)
    requires |user| == |pass| == SLOTS
    requires |t| >= 2 && t[0] == AUTH_VERSION && t[1] != 0 && |t| < UserEnd(t)
    ensures After(t + [c], user, pass) == Step(After(t, user, pass), c)
  {
    var u := t + [c];
    var end := UserEnd(t);
    assert u[0] == t[0] && u[1] == t[1];
    assert u[2..] == t[2..] + [c];
    OverStep(t[2..], user, c);
    if |u| == end {
      assert u[2..end] == u[2..];
      OverAll(u[2..], user, t[1]);
    }
  }

  lemma AfterStep(t: seq<byte>, c: byte, user: seq<byte>, pass: seq<byte>)
    requires |user| == |pass| == SLOTS
    ensures After(t + [c], user, pass) == Step(After(t, user, pass), c)
  {
    var u := t + [c];
    if |t| == 1 {
      assert u[2..] == [];
      assert Over([], user) == user;
    } else if |t| >= 2 && t[0] == AUTH_VERSION && t[1] != 0 {
      assert u[0] == t[0] && u[1] == t[1];
      var end := UserEnd(t);
      if |t| < end {
        AfterUserByte(t, c, user, pass);
      } else {
        assert u[2..end] == t[2..end];
        if t[1] != 255 {
          AfterUserStep(t, end, Auth(ReadingPLen, Over(t[2..end] + [0], user), pass, end - 1, t[1], 0, 0, false), c);
        }
      }
    }
  }

  lemma {:induction false} RunIsAfter(t: seq<byte>, user: seq<byte>, pass: seq<byte>)
    requires |user| == |pass| == SLOTS
    ensures Run(Step, Init(user, pass), t) == After(t, user, pass)
    decreases |t|
  {
    if t != [] {
      var n := |t| - 1;
      RunSnoc(Step, Init(user, pass), t);
      RunIsAfter(t[..n], user, pass);
      AfterStep(t[..n], t[n], user, pass);
      assert t[..n] + [t[n]] == t;
    }
  }

  lemma Absorbs()
    ensures Absorbing(Step, Stop)
  {
  }

  // ----- what the parser promises

  /** The parser stores outside its arrays exactly when the input completes a user name
      or a password of 255 bytes. */
  lemma OverrunsExactly(t: seq<byte>, user: seq<byte>, pass: seq<byte>)
    requires |user| == |pass| == SLOTS
    ensures Run(Step, Init(user, pass), t).overrun <==> LongUser(t) || LongPass(t)
  {
    RunIsAfter(t, user, pass);
  }

  /** One such message: RFC 1929 allows it, and the parser stores outside its array. */
  lemma OverrunExample(user: seq<byte>, pass: seq<byte>)
    requires |user| == |pass| == SLOTS
    ensures var name := seq(255, _ => 97);
            IsAuth(Encode(name, [98])) && Run(Step, Init(user, pass), Encode(name, [98])).overrun
  {
    var name: seq<byte> := seq(255, _ => 97);
    var t := Encode(name, [98]);
    assert t[1] == 255 && t[257] == 1;
    OverrunsExactly(t, user, pass);
  }

  /** A message of RFC 1929 is parsed to its end exactly when neither text has 255
      bytes; then both texts are stored, each followed by a zero. */
  lemma ParsesMessage(a: seq<byte>, user: seq<byte>, pass: seq<byte>)
    requires IsAuth(a) && |user| == |pass| == SLOTS
    ensures var p := Run(Step, Init(user, pass), a);
            && (p.state.End? && !p.overrun <==> |User(a)| != 255 && |Password(a)| != 255)
            && (p.state.End? ==> User(a) + [0] <= p.user && Password(a) + [0] <= p.pass)
  {
    RunIsAfter(a, user, pass);
    assert a[UserEnd(a) + 1..PassEnd(a)] == Password(a);
  }

  lemma MessagePrefix(t: seq<byte>, n: nat, user: seq<byte>, pass: seq<byte>)
    requires |user| == |pass| == SLOTS && n <= |t|
    requires IsAuth(t[..n]) && |User(t[..n])| != 255 && |Password(t[..n])| != 255
    ensures After(t, user, pass).state.End?
  {
    var a := t[..n];
    assert a[0] == t[0] && a[1] == t[1] && a[UserEnd(a)] == t[UserEnd(a)];
  }

  lemma MessageEnds(t: seq<byte>, n: nat, user: seq<byte>, pass: seq<byte>)
    requires |user| == |pass| == SLOTS && n <= |t|
    requires IsAuth(t[..n]) && |User(t[..n])| != 255 && |Password(t[..n])| != 255
    ensures Drain(Step, Stop, Init(user, pass), t).0.state.End?
  {
    Absorbs();
    var consumed := DrainSplits(Step, Stop, Init(user, pass), t);
    RunIsAfter(t, user, pass);
    MessagePrefix(t, n, user, pass);
  }

  /** What the loop has consumed when it ends well is one complete message. */
  lemma EndMeansMessage(t: seq<byte>, user: seq<byte>, pass: seq<byte>) returns (n: nat)
    requires |user| == |pass| == SLOTS && Drain(Step, Stop, Init(user, pass), t).0.state.End?
    ensures var (p, rest) := Drain(Step, Stop, Init(user, pass), t);
            && n <= |t| && |rest| == |t| - n && rest == t[n..]
            && IsAuth(t[..n]) && |User(t[..n])| != 255 && |Password(t[..n])| != 255
            && User(t[..n]) + [0] <= p.user && Password(t[..n]) + [0] <= p.pass
  {
    Absorbs();
    var (p, rest) := Drain(Step, Stop, Init(user, pass), t);
    var consumed := DrainSplits(Step, Stop, Init(user, pass), t);
    n := |consumed|;
    assert consumed == t[..n] && rest == t[n..];
    RunIsAfter(consumed, user, pass);
    RunIsAfter(consumed[..n - 1], user, pass);
    EndIsMessage(consumed, user, pass);
    ParsesMessage(consumed, user, pass);
  }

  /** The loop reaches the end state exactly when the input starts with a complete
      message without a text of 255 bytes, and stops right behind that message. */
  lemma Accepts(t: seq<byte>, user: seq<byte>, pass: seq<byte>)
    requires |user| == |pass| == SLOTS
    ensures var (p, rest) := Drain(Step, Stop, Init(user, pass), t);
            && (p.state.End? <==>
                  exists n :: 0 <= n <= |t| && IsAuth(t[..n]) && |User(t[..n])| != 255 && |Password(t[..n])| != 255)
            && (p.state.End? ==>
                  && |rest| <= |t| && rest == t[|t| - |rest|..] && IsAuth(t[..|t| - |rest|])
                  && User(t[..|t| - |rest|]) + [0] <= p.user && Password(t[..|t| - |rest|]) + [0] <= p.pass)
  {
    hide Drain, IsAuth, User, Password, Step;
    if Drain(Step, Stop, Init(user, pass), t).0.state.End? {
      var n := EndMeansMessage(t, user, pass);
      assert n == |t| - |Drain(Step, Stop, Init(user, pass), t).1|;
    }
    if n :| 0 <= n <= |t| && IsAuth(t[..n]) && |User(t[..n])| != 255 && |Password(t[..n])| != 255 {
      MessageEnds(t, n, user, pass);
    }
  }

  /** An input that ends the parser with its last byte is one complete message. */
  lemma EndIsMessage(t: seq<byte>, user: seq<byte>, pass: seq<byte>)
    requires |user| == |pass| == SLOTS && t != []
    requires After(t, user, pass).state.End? && !Stop(After(t[..|t| - 1], user, pass))
    ensures IsAuth(t) && |User(t)| != 255 && |Password(t)| != 255
  {
    var before := t[..|t| - 1];
    assert forall i :: 0 <= i < |before| ==> before[i] == t[i];
    assert |t| == PassEnd(t);
  }

  /** A parser fed with what starts like a message stops at the end of that message. */
  lemma StopsBehindMessage(a: seq<byte>, x: seq<byte>, fed: seq<byte>, y: seq<byte>, user: seq<byte>, pass: seq<byte>)
    requires IsAuth(a) && |user| == |pass| == SLOTS && a + x == fed + y
    requires fed != [] && Stop(Run(Step, Init(user, pass), fed))
    requires forall k :: 0 < k < |fed| ==> !Stop(Run(Step, Init(user, pass), fed[..k]))
    ensures fed == a && Run(Step, Init(user, pass), fed).state.End?
  {
    RunIsAfter(fed, user, pass);
    StoppedHoldsMessage(a, x, fed, y, user, pass);
    assert fed[..|a|] == a by { assert (a + x)[..|a|] == a; }
    RunIsAfter(a, user, pass);
    MessagePrefix(a, |a|, user, pass) by { assert a[..|a|] == a; }
  }

  lemma StoppedHoldsMessage(a: seq<byte>, x: seq<byte>, fed: seq<byte>, y: seq<byte>, user: seq<byte>, pass: seq<byte>)
    requires IsAuth(a) && |user| == |pass| == SLOTS && a + x == fed + y
    requires fed != [] && Stop(After(fed, user, pass))
    ensures |fed| >= |a| && |User(a)| != 255 && |Password(a)| != 255
  {
    var all := a + x;
    assert forall i :: 0 <= i < |a| ==> all[i] == a[i];
    assert forall i :: 0 <= i < |fed| ==> (fed + y)[i] == fed[i];
  }

  /** A wrong version, no user name, or no password behind a user name that fits its array. */
  predicate IsMalformed(t: seq<byte>) {
    || (|t| >= 1 && t[0] != AUTH_VERSION)
    || (|t| >= 2 && t[0] == AUTH_VERSION && t[1] == 0)
    || (|t| >= 2 && t[0] == AUTH_VERSION && 0 < t[1] < 255 && |t| > UserEnd(t) && t[UserEnd(t)] == 0)
  }

  predicate IsGoodAuth(a: seq<byte>) {
    IsAuth(a) && |User(a)| != 255 && |Password(a)| != 255
  }

  /** The inputs the loop rejects. */
  lemma RejectsExactly(t: seq<byte>, user: seq<byte>, pass: seq<byte>)
    requires |user| == |pass| == SLOTS
    ensures Drain(Step, Stop, Init(user, pass), t).0.state.Error? <==> IsMalformed(t)
  {
    Absorbs();
    var consumed := DrainSplits(Step, Stop, Init(user, pass), t);
    RunIsAfter(t, user, pass);
  }

  /** Parsing an encoded message stores both texts and leaves exactly what follows. */
  lemma RoundTrip(name: seq<byte>, word: seq<byte>, rest: seq<byte>, user: seq<byte>, pass: seq<byte>)
    requires 1 <= |name| <= 254 && 1 <= |word| <= 254 && |user| == |pass| == SLOTS
    ensures var (p, left) := Drain(Step, Stop, Init(user, pass), Encode(name, word) + rest);
            && p.state.End? && left == rest
            && p.ulen == |name| && name + [0] <= p.user
            && p.plen == |word| && word + [0] <= p.pass
  {
    var a := Encode(name, word);
    assert a[1] == |name| && a[2..2 + |name|] == name && a[2 + |name|] == |word| && a[3 + |name|..] == word;
    assert IsAuth(a) && User(a) == name && Password(a) == word;
    ParsesMessage(a, user, pass);
    RunIsAfter(a, user, pass);
    forall k | 0 < k < |a|
      ensures !Stop(Run(Step, Init(user, pass), a[..k]))
    {
      RunIsAfter(a[..k], user, pass);
    }
    DrainStopsAt(Step, Stop, Init(user, pass), a, rest);
  }

  /** However the message is split over receives, the parser and the bytes left in the
      buffer are those of a single receive. */
  lemma ChunkIndependent(chunks: seq<seq<byte>>, user: seq<byte>, pass: seq<byte>)
    requires chunks != []
    ensures Feed(Step, Stop, Init(user, pass), [], chunks) == Drain(Step, Stop, Init(user, pass), Flatten(chunks))
    ensures FeedOn(Step, Stop, Init(user, pass), [], chunks).0 == Drain(Step, Stop, Init(user, pass), Flatten(chunks)).0
  {
    Absorbs();
    assert [] + Flatten(chunks) == Flatten(chunks);
    FeedIsOneFill(Step, Stop, Init(user, pass), [], chunks);
    FeedOnSameParser(Step, Stop, Init(user, pass), [], chunks);
    var consumed := DrainSplits(Step, Stop, Init(user, pass), Flatten(chunks));
  }

  class AuthParser {
    var state: State
    const user: array<byte>
    const pass: array<byte>
    var userIndex: byte
    var ulen: byte
    var passIndex: byte
    var plen: byte
    var overrun: bool

    ghost predicate Valid() {
      user.Length == pass.Length == SLOTS && user != pass
    }

    function View(): Auth
      reads this, user, pass
    {
      Auth(state, user[..], pass[..], userIndex, ulen, passIndex, plen, overrun)
    }

    constructor ()
      ensures Valid() && fresh(user) && fresh(pass)
      ensures View() == Init(user[..], pass[..])
    {
      state := ReadingVersion;
      user := new byte[SLOTS];
      pass := new byte[SLOTS];
      userIndex, ulen, passIndex, plen := 0, 0, 0, 0;
      overrun := false;
    }

    method StoreUser(c: byte)
      requires Valid() && state.ReadingUName? && !overrun
      modifies this, user
      ensures View() == StepUser(old(View()), c)
    {
      if userIndex >= user.Length {
        overrun := true;
        return;
      }
      user[userIndex] := c;
      userIndex := Next(userIndex);
      if userIndex == ulen {
        if userIndex >= user.Length {
          overrun := true;
          return;
        }
        user[userIndex] := 0;
        userIndex := Next(userIndex);
        state := ReadingPLen;
      }
    }

    method StorePass(c: byte)
      requires Valid() && state.ReadingPassword? && !overrun
      modifies this, pass
      ensures View() == StepPass(old(View()), c)
    {
      if passIndex >= pass.Length {
        overrun := true;
        return;
      }
      pass[passIndex] := c;
      passIndex := Next(passIndex);
      if passIndex == plen {
        if passIndex >= pass.Length {
          overrun := true;
          return;
        }
        pass[passIndex] := 0;
        passIndex := Next(passIndex);
        state := End;
      }
    }

    method ConsumeByte(c: byte) returns (s: State)
      requires Valid()
      modifies this, user, pass
      ensures View() == Step(old(View()), c) && s == state
    {
      if !overrun {
        match state {
          case ReadingVersion =>
            state := if c == AUTH_VERSION then ReadingULen else Error;
          case ReadingULen =>
            if c <= 0 {
              state := Error;
            } else {
              ulen := c;
              state := ReadingUName;
            }
          case ReadingUName =>
            StoreUser(c);
          case ReadingPLen =>
            if c <= 0 {
              state := Error;
            } else {
              plen := c;
              state := ReadingPassword;
            }
          case ReadingPassword =>
            StorePass(c);
          case _ =>
        }
      }
      s := state;
    }

    /** Takes one byte from the buffer and parses it. */
    method ConsumeNext(b: Buffer) returns (s: State)
      requires Valid() && b.Valid() && b.data != user && b.data != pass && b.Contents() != []
      modifies this, user, pass, b, b.data
      ensures b.Valid()
      ensures View() == Step(old(View()), old(b.Contents()[0]))
      ensures b.View() == old(b.View()).Take(1) && b.Contents() == old(b.Contents())[1..]
      ensures s == state
    {
      hide Pipe.Take;
      var c := b.Read();
      s := ConsumeByte(c);
    }

    method Consume(b: Buffer) returns (s: State)
      requires Valid() && b.Valid() && b.data != user && b.data != pass
      modifies this, user, pass, b, b.data
      ensures b.Valid()
      ensures (View(), b.Contents()) == Drain(Step, Stop, old(View()), old(b.Contents()))
      ensures |b.Contents()| <= |old(b.Contents())|
      ensures b.View() == old(b.View()).Take(|old(b.Contents())| - |b.Contents()|)
      ensures s == state
    {
      s := state;
      ghost var p0, bs := View(), b.Contents();
      ghost var k := 0;
      TakeNothing(b.View());
      var can := b.CanRead();
      while can
        invariant b.Valid()
        invariant can <==> b.Contents() != []
        invariant k <= |bs| && b.Contents() == bs[k..] && b.View() == old(b.View()).Take(k)
        invariant s == state
        invariant Drain(Step, Stop, View(), b.Contents()) == Drain(Step, Stop, p0, bs)
        decreases |b.Contents()|
      {
        TakeOneMore(old(b.View()), k);
        s := ConsumeNext(b);
        k := k + 1;
        if s.End? || s.Error? {
          break;
        }
        can := b.CanRead();
      }
    }
  }
}

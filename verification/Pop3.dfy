/** The scanner that looks for POP3 credentials in the bytes a client sends in one go.

    `cmd`, `user` and `pass` are the texts stored so far in their arrays, whose indices
    are the lengths.  Storing the terminator of a text of 255 bytes falls outside its
    array; `overrun` marks that, and nothing is said about what comes after. */
module Pop3 {
  import opened Wrappers
  import opened Bytes

  const SPACE: byte := 32
  const CR: byte := 13
  const LF: byte := 10
  const CMD_MAX: nat := 49
  const TEXT_MAX: nat := 255

  const USER: seq<byte> := [85, 83, 69, 82]
  const PASS: seq<byte> := [80, 65, 83, 83]

  datatype State = ReadingCommand | CheckCommand | ReadingUser | ReadingPassword | Done

  /** `found` is what was logged: the user and the password. */
  datatype Sniffer = Sniffer(state: State, cmd: seq<byte>, user: seq<byte>, pass: seq<byte>,
                             userDone: bool, passDone: bool, found: Option<(seq<byte>, seq<byte>)>, overrun: bool)

  const FRESH := Sniffer(ReadingCommand, [], [], [], false, false, None, false)

  /** The C string that starts an array. */
  function CString(s: seq<byte>): seq<byte> {
    if s == [] || s[0] == 0 then [] else [s[0]] + CString(s[1..])
  }

  function Append(text: seq<byte>, c: byte, max: nat): seq<byte> {
    if |text| < max then text + [c] else text
  }

  /** The scanner after looking at `c`, and how far it moves on. */
  function Look(s: Sniffer, c: byte): (Sniffer, nat) {
    match s.state
    case ReadingCommand =>
      if c == SPACE then (s.(state := CheckCommand), 0)
      else (s.(cmd := Append(s.cmd, ToUpper(c), CMD_MAX)), 1)
    case CheckCommand =>
      if CString(s.cmd) == USER then (s.(state := ReadingUser, user := [], cmd := []), 1)
      else if CString(s.cmd) == PASS then (s.(state := ReadingPassword, pass := [], cmd := []), 1)
      else if c == CR then (s.(state := ReadingCommand, cmd := []), 2)
      else (s.(cmd := []), 1)
    case ReadingUser =>
      if c == CR then (s.(state := ReadingCommand, cmd := [], userDone := true, overrun := |s.user| >= TEXT_MAX), 2)
      else (s.(user := Append(s.user, c, TEXT_MAX)), 1)
    case ReadingPassword =>
      if c == CR then (s.(state := Done, cmd := [], passDone := true, overrun := |s.pass| >= TEXT_MAX), 1)
      else (s.(pass := Append(s.pass, c, TEXT_MAX)), 1)
    case Done =>
      if s.userDone && s.passDone then
        (s.(state := ReadingCommand, cmd := [], user := [], pass := [], found := Some((s.user, s.pass))), 1)
      else (s, 1)
  }

  predicate Over(s: Sniffer) {
    s.found.Some? || s.overrun
  }

  /** The only step that stays at a byte leaves the state that allows it. */
  function Rank(s: Sniffer): nat {
    if s.state.ReadingCommand? then 1 else 0
  }

  /** The scanner after the bytes from `i` on. */
  function Scan(s: Sniffer, bs: seq<byte>, i: nat): Sniffer
    decreases |bs| - i, Rank(s)
  {
    if i >= |bs| || Over(s) then s
    else
      var (t, n) := Look(s, bs[i]);
      Scan(t, bs, i + n)
  }

  /** Runs over the bytes of one buffer; it ends because each turn moves on or leaves
      the command state. */
  method ParsePop3(s: Sniffer, bs: seq<byte>) returns (t: Sniffer)
    ensures t == Scan(s, bs, 0)
  {
    t := s;
    var i := 0;
    while i < |bs| && !Over(t)
      invariant 0 <= i
      invariant Scan(t, bs, i) == Scan(s, bs, 0)
      decreases |bs| - i, Rank(t)
    {
      match t.state {
        case ReadingCommand =>
          if bs[i] == SPACE {
            t := t.(state := CheckCommand);
          } else {
            t := t.(cmd := Append(t.cmd, ToUpper(bs[i]), CMD_MAX));
            i := i + 1;
          }
        case CheckCommand =>
          if CString(t.cmd) == USER {
            t := t.(state := ReadingUser, user := []);
          } else if CString(t.cmd) == PASS {
            t := t.(state := ReadingPassword, pass := []);
          } else if bs[i] == CR {
            t := t.(state := ReadingCommand);
            i := i + 1;
          }
          t := t.(cmd := []);
          i := i + 1;
        case ReadingUser =>
          if bs[i] == CR {
            t := t.(state := ReadingCommand, cmd := [], userDone := true, overrun := |t.user| >= TEXT_MAX);
            i := i + 2;
          } else {
            t := t.(user := Append(t.user, bs[i], TEXT_MAX));
            i := i + 1;
          }
        case ReadingPassword =>
          if bs[i] == CR {
            t := t.(state := Done, cmd := [], passDone := true, overrun := |t.pass| >= TEXT_MAX);
          } else {
            t := t.(pass := Append(t.pass, bs[i], TEXT_MAX));
          }
          i := i + 1;
        case Done =>
          if t.userDone && t.passDone {
            t := t.(state := ReadingCommand, cmd := [], user := [], pass := [], found := Some((t.user, t.pass)));
          }
          i := i + 1;
      }
    }
  }

  // ----- what one buffer with both commands gives

  /** The bytes at `i` in `bs` are `part`. */
  predicate At(bs: seq<byte>, i: nat, part: seq<byte>) {
    i + |part| <= |bs| && bs[i..i + |part|] == part
  }

  lemma AtByte(bs: seq<byte>, i: nat, part: seq<byte>, k: nat)
    requires At(bs, i, part) && k < |part|
    ensures bs[i + k] == part[k]
  {
    assert bs[i..i + |part|][k] == bs[i + k];
  }

  lemma AtRest(bs: seq<byte>, i: nat, part: seq<byte>, n: nat)
    requires At(bs, i, part) && n <= |part|
    ensures At(bs, i + n, part[n..])
  {
    assert bs[i + n..i + |part|] == bs[i..i + |part|][n..];
  }

  predicate SameCommand(typed: seq<byte>, cmd: seq<byte>) {
    |typed| == |cmd| && forall i :: 0 <= i < |typed| ==> typed[i] != SPACE && ToUpper(typed[i]) == cmd[i]
  }

  lemma CStringOf(s: seq<byte>)
    requires 0 !in s
    ensures CString(s) == s
  {
  }

  /** The state a command leads to at its space. */
  function Recognise(s: Sniffer): Sniffer {
    var word := CString(s.cmd);
    if word == USER then s.(state := ReadingUser, cmd := [], user := [])
    else if word == PASS then s.(state := ReadingPassword, cmd := [], pass := [])
    else s.(state := CheckCommand, cmd := [])
  }

  lemma SpaceLeads(s: Sniffer, bs: seq<byte>, sp: nat) returns (t: Sniffer)
    requires s.state.ReadingCommand? && !Over(s) && sp < |bs| && bs[sp] == SPACE
    ensures t == Recognise(s) && Scan(s, bs, sp) == Scan(t, bs, sp + 1) && !Over(t)
    ensures |s.user| <= TEXT_MAX && |s.pass| <= TEXT_MAX ==> Resting(t)
  {
    var c := s.(state := CheckCommand);
    assert Look(s, bs[sp]) == (c, 0);
    assert Scan(s, bs, sp) == Scan(c, bs, sp);
    t := Look(c, bs[sp]).0;
    assert Scan(c, bs, sp) == Scan(t, bs, sp + 1);
  }

  lemma LetterRead(s: Sniffer, bs: seq<byte>, i: nat)
    requires s.state.ReadingCommand? && !Over(s) && i < |bs| && bs[i] != SPACE && |s.cmd| < CMD_MAX
    ensures Scan(s, bs, i) == Scan(s.(cmd := s.cmd + [ToUpper(bs[i])]), bs, i + 1)
  {
  }

  /** A command typed in any case, and the space after it, is read and recognised; its
      first `k` letters have been read. */
  lemma {:induction false} CommandRead(s: Sniffer, bs: seq<byte>, i: nat, typed: seq<byte>, cmd: seq<byte>, k: nat)
    requires (cmd == USER || cmd == PASS) && SameCommand(typed, cmd) && At(bs, i, typed + [SPACE])
    requires k <= |cmd| && s.cmd == cmd[..k] && s.state.ReadingCommand? && !Over(s)
    ensures Scan(s, bs, i + k) == Scan(Recognise(s.(cmd := cmd)), bs, i + |cmd| + 1)
    decreases |cmd| - k
  {
    hide Scan, Look, Recognise;
    AtByte(bs, i, typed + [SPACE], k);
    if k == |cmd| {
      assert cmd[..k] == cmd;
      var t := SpaceLeads(s, bs, i + k);
    } else {
      var t := s.(cmd := cmd[..k + 1]);
      assert cmd[..k] + [cmd[k]] == cmd[..k + 1];
      LetterRead(s, bs, i + k);
      CommandRead(t, bs, i, typed, cmd, k + 1);
    }
  }

  function Clip(text: seq<byte>, max: nat): seq<byte> {
    if |text| <= max then text else text[..max]
  }

  lemma ClipAppend(text: seq<byte>, c: byte, more: seq<byte>, max: nat)
    requires |text| <= max
    ensures |Append(text, c, max)| <= max
    ensures Clip(Append(text, c, max) + more, max) == Clip(text + ([c] + more), max)
  {
    assert text + [c] + more == text + ([c] + more);
  }

  /** The first place from `i` on that holds `c`, or the end. */
  function Find(bs: seq<byte>, i: nat, c: byte): (j: nat)
    requires i <= |bs|
    ensures i <= j <= |bs| && c !in bs[i..j] && (j < |bs| ==> bs[j] == c)
    decreases |bs| - i
  {
    if i == |bs| || bs[i] == c then i
    else
      var j := Find(bs, i + 1, c);
      assert bs[i..j] == [bs[i]] + bs[i + 1..j];
      j
  }

  lemma {:induction false} FindAt(bs: seq<byte>, i: nat, text: seq<byte>, c: byte, rest: seq<byte>)
    requires c !in text && At(bs, i, text + ([c] + rest))
    ensures i + |text| < |bs| && Find(bs, i, c) == i + |text| && bs[i..i + |text|] == text
    decreases |text|
  {
    var all := text + ([c] + rest);
    AtByte(bs, i, all, 0);
    if text == [] {
      assert all[0] == c;
    } else {
      AtRest(bs, i, all, 1);
      assert all[1..] == text[1..] + ([c] + rest);
      assert all[0] == text[0] && text[0] in text;
      FindAt(bs, i + 1, text[1..], c, rest);
      assert bs[i..i + |text|] == [bs[i]] + bs[i + 1..i + |text|];
    }
  }

  /** A text is stored up to the next CR. */
  lemma {:induction false} UserSkips(s: Sniffer, bs: seq<byte>, i: nat)
    requires s.state.ReadingUser? && !Over(s) && i <= |bs| && |s.user| <= TEXT_MAX
    ensures var j := Find(bs, i, CR);
            Scan(s, bs, i) == Scan(s.(user := Clip(s.user + bs[i..j], TEXT_MAX)), bs, j)
    decreases |bs| - i
  {
    var j := Find(bs, i, CR);
    if i == j {
      assert s.user + bs[i..j] == s.user;
    } else {
      var t := s.(user := Append(s.user, bs[i], TEXT_MAX));
      assert Scan(s, bs, i) == Scan(t, bs, i + 1);
      ClipAppend(s.user, bs[i], bs[i + 1..j], TEXT_MAX);
      assert bs[i..j] == [bs[i]] + bs[i + 1..j];
      UserSkips(t, bs, i + 1);
    }
  }

  lemma {:induction false} PassSkips(s: Sniffer, bs: seq<byte>, i: nat)
    requires s.state.ReadingPassword? && !Over(s) && i <= |bs| && |s.pass| <= TEXT_MAX
    ensures var j := Find(bs, i, CR);
            Scan(s, bs, i) == Scan(s.(pass := Clip(s.pass + bs[i..j], TEXT_MAX)), bs, j)
    decreases |bs| - i
  {
    var j := Find(bs, i, CR);
    if i == j {
      assert s.pass + bs[i..j] == s.pass;
    } else {
      var t := s.(pass := Append(s.pass, bs[i], TEXT_MAX));
      assert Scan(s, bs, i) == Scan(t, bs, i + 1);
      ClipAppend(s.pass, bs[i], bs[i + 1..j], TEXT_MAX);
      assert bs[i..j] == [bs[i]] + bs[i + 1..j];
      PassSkips(t, bs, i + 1);
    }
  }

  /** The rest of a text and its CR LF are read. */
  lemma UserRead(s: Sniffer, bs: seq<byte>, i: nat, text: seq<byte>)
    requires s.state.ReadingUser? && !Over(s) && CR !in text && |s.user| <= TEXT_MAX
    requires At(bs, i, text + [CR, LF])
    ensures Scan(s, bs, i) == Scan(s.(state := ReadingCommand, cmd := [], userDone := true,
                                      user := Clip(s.user + text, TEXT_MAX), overrun := |s.user + text| >= TEXT_MAX), bs, i + |text| + 2)
  {
    FindAt(bs, i, text, CR, [LF]);
    assert [CR] + [LF] == [CR, LF];
    UserSkips(s, bs, i);
  }

  lemma PassRead(s: Sniffer, bs: seq<byte>, i: nat, text: seq<byte>)
    requires s.state.ReadingPassword? && !Over(s) && s.userDone && CR !in text && |s.pass| <= TEXT_MAX
    requires At(bs, i, text + [CR, LF])
    ensures var t := Scan(s, bs, i);
            if |s.pass + text| >= TEXT_MAX then t.overrun && t.found.None?
            else !t.overrun && t.found == Some((s.user, s.pass + text))
  {
    FindAt(bs, i, text, CR, [LF]);
    assert [CR] + [LF] == [CR, LF];
    AtByte(bs, i, text + [CR, LF], |text| + 1);
    PassSkips(s, bs, i);
    hide At, Find, Scan;
    PassEnds(s.(pass := Clip(s.pass + text, TEXT_MAX)), bs, i + |text|);
  }

  lemma PassEnds(s: Sniffer, bs: seq<byte>, j: nat)
    requires s.state.ReadingPassword? && !Over(s) && s.userDone && j + 1 < |bs| && bs[j] == CR
    ensures var t := Scan(s, bs, j);
            if |s.pass| >= TEXT_MAX then t.overrun && t.found.None? else !t.overrun && t.found == Some((s.user, s.pass))
  {
    var t := Look(s, bs[j]).0;
    assert Scan(s, bs, j) == Scan(t, bs, j + 1);
    if !t.overrun { assert Scan(t, bs, j + 1) == Scan(Look(t, bs[j + 1]).0, bs, j + 2); }
  }

  lemma FourParts(a: seq<byte>, b: seq<byte>, c: seq<byte>, d: seq<byte>, rest: seq<byte>)
    ensures var bs := a + b + c + d + rest;
            At(bs, 0, a) && At(bs, |a|, b) && At(bs, |a| + |b|, c) && At(bs, |a| + |b| + |c|, d)
  {
  }

  // ----- which buffers make the scanner store outside its arrays

  /** What is stored of a command whose bytes follow those stored before. */
  function Typed(cmd: seq<byte>, part: seq<byte>): seq<byte> {
    Clip(cmd + Upper(part), CMD_MAX)
  }

  function Upper(part: seq<byte>): (r: seq<byte>)
    ensures |r| == |part| && forall i :: 0 <= i < |r| ==> r[i] == ToUpper(part[i])
  {
    seq(|part|, i requires 0 <= i < |part| => ToUpper(part[i]))
  }

  /** Read line by line from where a command starts or goes on: a command ends at the first
      space, its text at the first CR behind that, and the byte behind the CR is skipped.
      A line overruns if it is a USER or PASS line whose text has 255 bytes or more; nothing
      behind a PASS line can. */
  predicate LinesOverrun(cmd: seq<byte>, bs: seq<byte>, i: nat)
    decreases |bs| - i
  {
    && i < |bs|
    && var sp := Find(bs, i, SPACE);
       && sp < |bs|
       && var word, cr := CString(Typed(cmd, bs[i..sp])), Find(bs, sp + 1, CR);
          && cr < |bs|
          && (|| ((word == USER || word == PASS) && cr - (sp + 1) >= TEXT_MAX)
              || (word != PASS && LinesOverrun([], bs, cr + 2)))
  }

  /** The same for a scanner that the last buffer left anywhere. */
  predicate WillOverrun(s: Sniffer, bs: seq<byte>, i: nat)
    requires i <= |bs|
  {
    var cr := Find(bs, i, CR);
    match s.state
    case ReadingCommand => LinesOverrun(s.cmd, bs, i)
    case CheckCommand => LinesOverrun([], bs, cr + 2)
    case ReadingUser => cr < |bs| && (|s.user| + cr - i >= TEXT_MAX || LinesOverrun([], bs, cr + 2))
    case ReadingPassword => cr < |bs| && |s.pass| + cr - i >= TEXT_MAX
    case Done => false
  }

  /** Where a buffer can leave the scanner. */
  predicate Resting(s: Sniffer) {
    && |s.cmd| <= CMD_MAX && |s.user| <= TEXT_MAX && |s.pass| <= TEXT_MAX
    && (s.state.CheckCommand? ==> s.cmd == [])
  }

  lemma {:induction false} CommandSkips(s: Sniffer, bs: seq<byte>, i: nat)
    requires s.state.ReadingCommand? && !Over(s) && i <= |bs| && |s.cmd| <= CMD_MAX
    ensures var j := Find(bs, i, SPACE);
            Scan(s, bs, i) == Scan(s.(cmd := Typed(s.cmd, bs[i..j])), bs, j)
    decreases |bs| - i
  {
    var j := Find(bs, i, SPACE);
    if i == j {
      assert s.cmd + Upper(bs[i..j]) == s.cmd;
    } else {
      var t := s.(cmd := Append(s.cmd, ToUpper(bs[i]), CMD_MAX));
      assert Scan(s, bs, i) == Scan(t, bs, i + 1);
      ClipAppend(s.cmd, ToUpper(bs[i]), Upper(bs[i + 1..j]), CMD_MAX);
      assert Upper(bs[i..j]) == [ToUpper(bs[i])] + Upper(bs[i + 1..j]);
      CommandSkips(t, bs, i + 1);
    }
  }

  lemma {:induction false} CheckSkips(s: Sniffer, bs: seq<byte>, i: nat)
    requires s.state.CheckCommand? && s.cmd == [] && !Over(s) && i <= |bs|
    ensures Scan(s, bs, i) == Scan(s, bs, Find(bs, i, CR))
    decreases |bs| - i
  {
    if i < |bs| && bs[i] != CR {
      assert Look(s, bs[i]) == (s, 1);
      CheckSkips(s, bs, i + 1);
    }
  }

  lemma {:induction false} DoneStays(s: Sniffer, bs: seq<byte>, i: nat)
    requires s.state.Done? && !Over(s)
    ensures !Scan(s, bs, i).overrun
    decreases |bs| - i
  {
    if i < |bs| && !(s.userDone && s.passDone) { DoneStays(s, bs, i + 1); }
  }

  /** A user name overruns, or is followed by the next command, or goes on behind the buffer. */
  lemma UserLine(s: Sniffer, bs: seq<byte>, i: nat) returns (t: Sniffer)
    requires s.state.ReadingUser? && !Over(s) && Resting(s) && i <= |bs|
    ensures var cr := Find(bs, i, CR);
            if cr == |bs| then !Scan(s, bs, i).overrun
            else if |s.user| + cr - i >= TEXT_MAX then Scan(s, bs, i).overrun
            else Scan(s, bs, i) == Scan(t, bs, cr + 2) && AtCommand(t)
  {
    UserSkips(s, bs, i);
    var cr := Find(bs, i, CR);
    var at := s.(user := Clip(s.user + bs[i..cr], TEXT_MAX));
    t := at.(state := ReadingCommand, cmd := [], userDone := true, overrun := |at.user| >= TEXT_MAX);
    if cr < |bs| {
      assert Look(at, bs[cr]) == (t, 2);
      assert Scan(at, bs, cr) == Scan(t, bs, cr + 2);
    }
  }

  lemma PassLine(s: Sniffer, bs: seq<byte>, i: nat)
    requires s.state.ReadingPassword? && !Over(s) && Resting(s) && i <= |bs|
    ensures Scan(s, bs, i).overrun <==> Find(bs, i, CR) < |bs| && |s.pass| + Find(bs, i, CR) - i >= TEXT_MAX
  {
    PassSkips(s, bs, i);
    var cr := Find(bs, i, CR);
    var at := s.(pass := Clip(s.pass + bs[i..cr], TEXT_MAX));
    if cr < |bs| {
      var t := Look(at, bs[cr]).0;
      assert Scan(at, bs, cr) == Scan(t, bs, cr + 1);
      if t.overrun { ScanStops(t, bs, cr + 1); } else { DoneStays(t, bs, cr + 1); }
    }
  }

  lemma OtherLine(s: Sniffer, bs: seq<byte>, i: nat) returns (t: Sniffer)
    requires s.state.CheckCommand? && !Over(s) && Resting(s) && i <= |bs|
    ensures var cr := Find(bs, i, CR);
            if cr == |bs| then !Scan(s, bs, i).overrun else Scan(s, bs, i) == Scan(t, bs, cr + 2) && AtCommand(t)
  {
    CheckSkips(s, bs, i);
    var cr := Find(bs, i, CR);
    t := s.(state := ReadingCommand, cmd := []);
    if cr < |bs| {
      assert Look(s, bs[cr]) == (t, 2);
      assert Scan(s, bs, cr) == Scan(t, bs, cr + 2);
    }
  }

  /** About to read a command from its first byte. */
  predicate AtCommand(s: Sniffer) {
    s.state.ReadingCommand? && s.cmd == [] && !Over(s) && Resting(s)
  }

  lemma CommandLine(s: Sniffer, bs: seq<byte>, i: nat) returns (t: Sniffer)
    requires s.state.ReadingCommand? && !Over(s) && Resting(s) && i <= |bs|
    ensures var sp := Find(bs, i, SPACE);
            if sp == |bs| then !Scan(s, bs, i).overrun
            else
              && Scan(s, bs, i) == Scan(t, bs, sp + 1) && !Over(t) && Resting(t)
              && var word := CString(Typed(s.cmd, bs[i..sp]));
                 if word == USER then t.state.ReadingUser? && t.user == []
                 else if word == PASS then t.state.ReadingPassword? && t.pass == []
                 else t.state.CheckCommand?
  {
    CommandSkips(s, bs, i);
    var sp := Find(bs, i, SPACE);
    var at := s.(cmd := Typed(s.cmd, bs[i..sp]));
    t := at;
    if sp < |bs| { t := SpaceLeads(at, bs, sp); }
  }

  /** For every buffer and wherever the last one left it, the scanner stores outside an
      array iff some line makes it do so. */
  lemma {:induction false} OverrunsExactly(s: Sniffer, bs: seq<byte>, i: nat)
    requires !Over(s) && Resting(s) && i <= |bs|
    ensures Scan(s, bs, i).overrun <==> WillOverrun(s, bs, i)
    decreases |bs| - i, 1
  {
    hide Scan, Find, CString, Typed, Clip, Look;
    match s.state {
      case ReadingCommand =>
        var t := CommandLine(s, bs, i);
        var sp := Find(bs, i, SPACE);
        if sp < |bs| {
          assert USER != PASS by { assert USER[0] != PASS[0]; }
          OverrunsExactly(t, bs, sp + 1);
        }
      case CheckCommand =>
        var t := OtherLine(s, bs, i);
        NextLine(t, bs, Find(bs, i, CR));
      case ReadingUser =>
        var t := UserLine(s, bs, i);
        NextLine(t, bs, Find(bs, i, CR));
      case ReadingPassword => PassLine(s, bs, i);
      case Done => DoneStays(s, bs, i);
    }
  }

  lemma {:induction false} NextLine(t: Sniffer, bs: seq<byte>, cr: nat)
    requires cr <= |bs|
    ensures cr < |bs| && AtCommand(t) ==> (Scan(t, bs, cr + 2).overrun <==> LinesOverrun([], bs, cr + 2))
    ensures cr == |bs| ==> !LinesOverrun([], bs, cr + 2)
    decreases |bs| - cr, 0
  {
    if cr + 2 <= |bs| && AtCommand(t) { OverrunsExactly(t, bs, cr + 2); }
  }

  /** A buffer that can be told to be harmless at a glance: among any 255 bytes in a row
      there is a CR. */
  predicate ShortLines(bs: seq<byte>) {
    forall k :: 0 <= k <= |bs| - TEXT_MAX ==> CrWithin(bs, k)
  }

  predicate CrWithin(bs: seq<byte>, k: nat)
    requires k + TEXT_MAX <= |bs|
  {
    CR in bs[k..k + TEXT_MAX]
  }

  lemma LongHasCr(bs: seq<byte>, a: nat, b: nat)
    requires ShortLines(bs) && a + TEXT_MAX <= b <= |bs|
    ensures CR in bs[a..b]
  {
    assert CrWithin(bs, a);
    var k :| 0 <= k < TEXT_MAX && bs[a..a + TEXT_MAX][k] == CR;
    assert bs[a..b][k] == CR;
  }

  lemma {:induction false} ShortLinesAreSafe(cmd: seq<byte>, bs: seq<byte>, i: nat)
    requires ShortLines(bs)
    ensures !LinesOverrun(cmd, bs, i)
    decreases |bs| - i
  {
    if i < |bs| {
      var sp := Find(bs, i, SPACE);
      if sp < |bs| {
        var cr := Find(bs, sp + 1, CR);
        if cr < |bs| {
          if cr - (sp + 1) >= TEXT_MAX {
            LongHasCr(bs, sp + 1, cr);
            assert false;
          }
          ShortLinesAreSafe([], bs, cr + 2);
        }
      }
    }
  }

  /** No store outside an array from a buffer with a CR among any 255 bytes in a row. */
  lemma ShortLinesNeverOverrun(bs: seq<byte>)
    requires ShortLines(bs)
    ensures !Scan(FRESH, bs, 0).overrun
  {
    OverrunsExactly(FRESH, bs, 0);
    ShortLinesAreSafe([], bs, 0);
  }

  /** A line on its own with either command: its text must have fewer than 255 bytes. */
  lemma LoneLineOverruns(typed: seq<byte>, cmd: seq<byte>, text: seq<byte>)
    requires (cmd == USER || cmd == PASS) && SameCommand(typed, cmd) && CR !in text
    ensures Scan(FRESH, typed + [SPACE] + text + [CR], 0).overrun <==> |text| >= 255
  {
    var bs := typed + [SPACE] + text + [CR];
    hide Scan, Find, Typed, SameCommand, CString, LinesOverrun;
    OverrunsExactly(FRESH, bs, 0);
    CommandEnds(bs, typed, cmd, text);
    TextEnds(bs, typed, text);
    OneLine(bs, |typed|, |bs| - 1, cmd);
  }

  lemma OneLine(bs: seq<byte>, sp: nat, cr: nat, cmd: seq<byte>)
    requires cmd == USER || cmd == PASS
    requires 0 <= sp < cr == |bs| - 1 && Find(bs, 0, SPACE) == sp && Find(bs, sp + 1, CR) == cr
    requires CString(Typed([], bs[0..sp])) == cmd
    ensures LinesOverrun([], bs, 0) <==> cr - (sp + 1) >= TEXT_MAX
  {
    hide Find, CString, Typed;
    assert !LinesOverrun([], bs, cr + 2);
  }

  lemma CommandEnds(bs: seq<byte>, typed: seq<byte>, cmd: seq<byte>, text: seq<byte>)
    requires (cmd == USER || cmd == PASS) && SameCommand(typed, cmd)
    requires bs == typed + [SPACE] + text + [CR]
    ensures Find(bs, 0, SPACE) == |typed| && CString(Typed([], bs[0..|typed|])) == cmd
  {
    assert bs[0..|typed| + 1] == typed + ([SPACE] + []);
    FindAt(bs, 0, typed, SPACE, []);
    assert bs[0..|typed|] == typed;
    assert Upper(typed) == cmd;
    assert [] + cmd == cmd;
    CStringOf(cmd);
  }

  lemma AfterHead(head: seq<byte>, tail: seq<byte>)
    ensures At(head + tail, |head|, tail)
  {
  }

  lemma TextEnds(bs: seq<byte>, typed: seq<byte>, text: seq<byte>)
    requires bs == typed + [SPACE] + text + [CR] && CR !in text
    ensures Find(bs, |typed| + 1, CR) == |typed| + 1 + |text| == |bs| - 1
  {
    var head, tail := typed + [SPACE], text + ([CR] + []);
    assert bs == head + tail;
    AfterHead(head, tail);
    FindAt(bs, |typed| + 1, text, CR, []);
  }

  // ----- the scanner line by line

  /** The scanner read off the structure of the bytes: from where it stands it goes to the
      end of the command or text at hand, and on from there. */
  function ByLines(s: Sniffer, bs: seq<byte>, i: nat): Sniffer
    decreases |bs| - i
  {
    if i >= |bs| then s else
    var sp, cr := Find(bs, i, SPACE), Find(bs, i, CR);
    match s.state
    case ReadingCommand =>
      var at := s.(cmd := Typed(s.cmd, bs[i..sp]));
      if sp == |bs| then at else ByLines(Recognise(at), bs, sp + 1)
    case CheckCommand =>
      if cr == |bs| then s else ByLines(s.(state := ReadingCommand), bs, cr + 2)
    case ReadingUser =>
      var text := s.user + bs[i..cr];
      if cr == |bs| then s.(user := Clip(text, TEXT_MAX))
      else if |text| >= TEXT_MAX then
        s.(state := ReadingCommand, cmd := [], user := Clip(text, TEXT_MAX), userDone := true, overrun := true)
      else ByLines(s.(state := ReadingCommand, cmd := [], user := text, userDone := true), bs, cr + 2)
    case ReadingPassword =>
      var text := s.pass + bs[i..cr];
      if cr == |bs| then s.(pass := Clip(text, TEXT_MAX))
      else if |text| >= TEXT_MAX then
        s.(state := Done, cmd := [], pass := Clip(text, TEXT_MAX), passDone := true, overrun := true)
      else ByLines(s.(state := Done, cmd := [], pass := text, passDone := true), bs, cr + 1)
    case Done =>
      if s.userDone && s.passDone then
        s.(state := ReadingCommand, cmd := [], user := [], pass := [], found := Some((s.user, s.pass)))
      else s
  }

  lemma {:induction false} DoneIsDone(s: Sniffer, bs: seq<byte>, i: nat)
    requires s.state.Done? && !Over(s)
    ensures Scan(s, bs, i) == ByLines(s, bs, i)
    decreases |bs| - i
  {
    if i < |bs| {
      if s.userDone && s.passDone {
        ScanStops(Look(s, bs[i]).0, bs, i + 1);
      } else {
        DoneIsDone(s, bs, i + 1);
      }
    }
  }

  /** Byte by byte and line by line the scanner is the same, for every buffer and wherever
      the last one left it. */
  lemma {:induction false} ScanIsByLines(s: Sniffer, bs: seq<byte>, i: nat)
    requires !Over(s) && Resting(s) && i <= |bs|
    ensures Scan(s, bs, i) == ByLines(s, bs, i)
    decreases |bs| - i, 1
  {
    if i < |bs| {
      match s.state {
        case ReadingCommand => CommandByLines(s, bs, i);
        case CheckCommand => OtherByLines(s, bs, i);
        case ReadingUser => UserByLines(s, bs, i);
        case ReadingPassword => PassByLines(s, bs, i);
        case Done => DoneIsDone(s, bs, i);
      }
    }
  }

  lemma {:induction false} CommandByLines(s: Sniffer, bs: seq<byte>, i: nat)
    requires s.state.ReadingCommand? && !Over(s) && Resting(s) && i < |bs|
    ensures Scan(s, bs, i) == ByLines(s, bs, i)
    decreases |bs| - i, 0
  {
    hide Find, CString, Typed, Scan, Recognise, Look;
    CommandSkips(s, bs, i);
    AtEnd(s.(cmd := Typed(s.cmd, bs[i..Find(bs, i, SPACE)])), bs);
    var sp := Find(bs, i, SPACE);
    var at := s.(cmd := Typed(s.cmd, bs[i..sp]));
    if sp < |bs| {
      var t := SpaceLeads(at, bs, sp);
      ScanIsByLines(t, bs, sp + 1);
    }
  }

  lemma UserCr(s: Sniffer, bs: seq<byte>, cr: nat)
    requires s.state.ReadingUser? && !Over(s) && cr < |bs| && bs[cr] == CR
    ensures var t := s.(state := ReadingCommand, cmd := [], userDone := true, overrun := |s.user| >= TEXT_MAX);
            Scan(s, bs, cr) == if t.overrun then t else Scan(t, bs, cr + 2)
  {
    var t := Look(s, CR).0;
    assert Scan(s, bs, cr) == Scan(t, bs, cr + 2);
    if t.overrun { ScanStops(t, bs, cr + 2); }
  }

  lemma PassCr(s: Sniffer, bs: seq<byte>, cr: nat)
    requires s.state.ReadingPassword? && !Over(s) && cr < |bs| && bs[cr] == CR
    ensures var t := s.(state := Done, cmd := [], passDone := true, overrun := |s.pass| >= TEXT_MAX);
            Scan(s, bs, cr) == if t.overrun then t else Scan(t, bs, cr + 1)
  {
    var t := Look(s, CR).0;
    assert Scan(s, bs, cr) == Scan(t, bs, cr + 1);
    if t.overrun { ScanStops(t, bs, cr + 1); }
  }

  lemma OtherCr(s: Sniffer, bs: seq<byte>, cr: nat)
    requires s.state.CheckCommand? && s.cmd == [] && !Over(s) && cr < |bs| && bs[cr] == CR
    ensures Scan(s, bs, cr) == Scan(s.(state := ReadingCommand), bs, cr + 2)
  {
    assert Look(s, CR) == (s.(state := ReadingCommand), 2);
  }

  lemma AtEnd(s: Sniffer, bs: seq<byte>)
    ensures Scan(s, bs, |bs|) == s
  {
  }

  lemma {:induction false} OtherByLines(s: Sniffer, bs: seq<byte>, i: nat)
    requires s.state.CheckCommand? && !Over(s) && Resting(s) && i < |bs|
    ensures Scan(s, bs, i) == ByLines(s, bs, i)
    decreases |bs| - i, 0
  {
    hide Find, Scan, Look;
    CheckSkips(s, bs, i);
    AtEnd(s, bs);
    var cr := Find(bs, i, CR);
    if cr < |bs| {
      OtherCr(s, bs, cr);
      PastLine(s.(state := ReadingCommand), bs, cr + 2);
    }
  }

  /** A line may end the buffer, or have its last byte beyond it. */
  lemma {:induction false} PastLine(t: Sniffer, bs: seq<byte>, i: nat)
    requires !Over(t) && Resting(t)
    ensures Scan(t, bs, i) == ByLines(t, bs, i)
    decreases |bs| - i, 2
  {
    if i <= |bs| { ScanIsByLines(t, bs, i); }
  }

  lemma {:induction false} UserByLines(s: Sniffer, bs: seq<byte>, i: nat)
    requires s.state.ReadingUser? && !Over(s) && Resting(s) && i < |bs|
    ensures Scan(s, bs, i) == ByLines(s, bs, i)
    decreases |bs| - i, 0
  {
    hide Find, Scan, Look;
    UserSkips(s, bs, i);
    var cr := Find(bs, i, CR);
    var at := s.(user := Clip(s.user + bs[i..cr], TEXT_MAX));
    AtEnd(at, bs);
    if cr < |bs| {
      var t := at.(state := ReadingCommand, cmd := [], userDone := true, overrun := |at.user| >= TEXT_MAX);
      UserCr(at, bs, cr);
      if !t.overrun { PastLine(t, bs, cr + 2); }
    }
  }

  lemma {:induction false} PassByLines(s: Sniffer, bs: seq<byte>, i: nat)
    requires s.state.ReadingPassword? && !Over(s) && Resting(s) && i < |bs|
    ensures Scan(s, bs, i) == ByLines(s, bs, i)
    decreases |bs| - i, 0
  {
    hide Find, Scan, Look;
    PassSkips(s, bs, i);
    var cr := Find(bs, i, CR);
    var at := s.(pass := Clip(s.pass + bs[i..cr], TEXT_MAX));
    AtEnd(at, bs);
    if cr < |bs| {
      var t := at.(state := Done, cmd := [], passDone := true, overrun := |at.pass| >= TEXT_MAX);
      PassCr(at, bs, cr);
      if !t.overrun { DoneIsDone(t, bs, cr + 1); }
    }
  }

  /** A buffer that does not overrun leaves the scanner at rest, also behind a find. */
  lemma {:induction false} ScanRests(s: Sniffer, bs: seq<byte>, i: nat)
    requires Resting(s) || (s.state.CheckCommand? && i < |bs| && bs[i] == SPACE && Resting(s.(cmd := [])) && !Over(s))
    ensures Scan(s, bs, i).overrun || Resting(Scan(s, bs, i))
    decreases |bs| - i, Rank(s)
  {
    if i < |bs| && !Over(s) {
      var (t, n) := Look(s, bs[i]);
      ScanRests(t, bs, i + n);
    }
  }

  /** Several buffers in turn; what was found is logged and forgotten between them. */
  function ScanAll(s: Sniffer, buffers: seq<seq<byte>>): Sniffer
    decreases |buffers|
  {
    if buffers == [] || s.overrun then s else ScanAll(Scan(s.(found := None), buffers[0], 0), buffers[1..])
  }

  /** Some buffer has a line that overruns, read from where the lines before left off. */
  predicate SomeWillOverrun(s: Sniffer, buffers: seq<seq<byte>>)
    decreases |buffers|
  {
    && buffers != []
    && (WillOverrun(s, buffers[0], 0) || SomeWillOverrun(ByLines(s.(found := None), buffers[0], 0), buffers[1..]))
  }

  /** Over any series of buffers, finds included. */
  lemma {:induction false} AllBuffersExactly(s: Sniffer, buffers: seq<seq<byte>>)
    requires !s.overrun && Resting(s)
    ensures ScanAll(s, buffers).overrun <==> SomeWillOverrun(s, buffers)
    decreases |buffers|
  {
    if buffers != [] {
      var next := s.(found := None);
      OverrunsExactly(next, buffers[0], 0);
      ScanIsByLines(next, buffers[0], 0);
      ScanRests(next, buffers[0], 0);
      if !Scan(next, buffers[0], 0).overrun { AllBuffersExactly(Scan(next, buffers[0], 0), buffers[1..]); }
    }
  }

  // ----- what is found, buffer by buffer

  lemma KnownCommands(s: Sniffer)
    ensures Recognise(s.(cmd := USER)) == s.(state := ReadingUser, cmd := [], user := [])
    ensures Recognise(s.(cmd := PASS)) == s.(state := ReadingPassword, cmd := [], pass := [])
  {
    CStringOf(USER);
    CStringOf(PASS);
    assert USER[0] != PASS[0];
  }

  /** A USER line read from its first byte. */
  lemma UserLineRead(s: Sniffer, bs: seq<byte>, i: nat, u: seq<byte>, user: seq<byte>)
    requires AtCommand(s) && SameCommand(u, USER) && CR !in user
    requires At(bs, i, u + [SPACE]) && At(bs, i + |USER| + 1, user + [CR, LF])
    ensures Scan(s, bs, i) == Scan(s.(userDone := true, user := Clip(user, TEXT_MAX), overrun := |user| >= TEXT_MAX),
                                   bs, i + |USER| + 1 + |user| + 2)
  {
    hide At, SameCommand, Scan, Find, Recognise, Look;
    assert USER[..0] == [] && [] + user == user;
    KnownCommands(s);
    CommandRead(s, bs, i, u, USER, 0);
    UserRead(s.(state := ReadingUser, user := [], cmd := []), bs, i + |USER| + 1, user);
  }

  /** A PASS line read from its first byte, when a user name is known. */
  lemma PassLineRead(s: Sniffer, bs: seq<byte>, i: nat, p: seq<byte>, pass: seq<byte>)
    requires AtCommand(s) && s.userDone && SameCommand(p, PASS) && CR !in pass
    requires At(bs, i, p + [SPACE]) && At(bs, i + |PASS| + 1, pass + [CR, LF])
    ensures var t := Scan(s, bs, i);
            && (t.found == Some((s.user, pass)) <==> |pass| < TEXT_MAX)
            && (t.overrun <==> |pass| >= TEXT_MAX)
  {
    hide At, SameCommand, Scan, Find, Recognise, Look;
    assert PASS[..0] == [] && [] + pass == pass;
    KnownCommands(s);
    CommandRead(s, bs, i, p, PASS, 0);
    PassRead(s.(state := ReadingPassword, pass := [], cmd := []), bs, i + |PASS| + 1, pass);
  }

  lemma ScanStops(s: Sniffer, bs: seq<byte>, i: nat)
    requires Over(s)
    ensures Scan(s, bs, i) == s
  {
  }

  lemma FindsInParts(s: Sniffer, bs: seq<byte>, user: seq<byte>, pass: seq<byte>, u: seq<byte>, p: seq<byte>, a: nat, b: nat, c: nat)
    requires AtCommand(s) && SameCommand(u, USER) && SameCommand(p, PASS) && CR !in user && CR !in pass
    requires a == |USER| + 1 && b == a + |user| + 2 && c == b + |PASS| + 1
    requires At(bs, 0, u + [SPACE]) && At(bs, a, user + [CR, LF]) && At(bs, b, p + [SPACE]) && At(bs, c, pass + [CR, LF])
    ensures var t := Scan(s, bs, 0);
            && (t.found == Some((user, pass)) <==> |user| < TEXT_MAX && |pass| < TEXT_MAX)
            && (t.overrun <==> !(|user| < TEXT_MAX && |pass| < TEXT_MAX))
  {
    hide At, SameCommand, Scan;
    UserLineRead(s, bs, 0, u, user);
    var t := s.(userDone := true, user := Clip(user, TEXT_MAX), overrun := |user| >= TEXT_MAX);
    if |user| < TEXT_MAX {
      PassLineRead(t, bs, b, p, pass);
    } else {
      ScanStops(t, bs, b);
    }
  }

  /** A buffer that starts with a USER and a PASS line, the commands typed in any case, yields
      exactly the two texts, whatever was found before and whatever follows, if and only if
      neither text has 255 bytes or more; otherwise the scanner stores outside its array. */
  lemma FindsCredentials(s: Sniffer, user: seq<byte>, pass: seq<byte>, u: seq<byte>, p: seq<byte>, rest: seq<byte>)
    requires AtCommand(s) && SameCommand(u, USER) && SameCommand(p, PASS) && CR !in user && CR !in pass
    ensures var t := Scan(s, (u + [SPACE]) + (user + [CR, LF]) + (p + [SPACE]) + (pass + [CR, LF]) + rest, 0);
            && (t.found == Some((user, pass)) <==> |user| < 255 && |pass| < 255)
            && (t.overrun <==> !(|user| < 255 && |pass| < 255))
  {
    hide At, Scan;
    var bs := (u + [SPACE]) + (user + [CR, LF]) + (p + [SPACE]) + (pass + [CR, LF]) + rest;
    FourParts(u + [SPACE], user + [CR, LF], p + [SPACE], pass + [CR, LF], rest);
    var a := |USER| + 1;
    FindsInParts(s, bs, user, pass, u, p, a, a + |user| + 2, a + |user| + 2 + |PASS| + 1);
  }

  lemma TwoParts(a: seq<byte>, b: seq<byte>, rest: seq<byte>)
    ensures var bs := a + b + rest; At(bs, 0, a) && At(bs, |a|, b)
  {
  }

  /** The same when the two lines come in different buffers: a USER line that fills its buffer
      is remembered, and a PASS line in the next one completes it. */
  lemma FindsAcrossBuffers(s: Sniffer, user: seq<byte>, pass: seq<byte>, u: seq<byte>, p: seq<byte>, rest: seq<byte>)
    requires AtCommand(s) && SameCommand(u, USER) && SameCommand(p, PASS) && CR !in user && CR !in pass
    requires |user| < TEXT_MAX
    ensures var m := Scan(s, (u + [SPACE]) + (user + [CR, LF]), 0);
            var t := Scan(m, (p + [SPACE]) + (pass + [CR, LF]) + rest, 0);
            && AtCommand(m)
            && (t.found == Some((user, pass)) <==> |pass| < TEXT_MAX) && (t.overrun <==> |pass| >= TEXT_MAX)
  {
    var first, second := (u + [SPACE]) + (user + [CR, LF]), (p + [SPACE]) + (pass + [CR, LF]) + rest;
    assert first + [] == first;
    TwoParts(u + [SPACE], user + [CR, LF], []);
    TwoParts(p + [SPACE], pass + [CR, LF], rest);
    UserLineRead(s, first, 0, u, user);
    var m := s.(userDone := true, user := user, overrun := false);
    assert Scan(m, first, |first|) == m;
    hide Scan, At;
    PassLineRead(m, second, 0, p, pass);
  }

  /** A find leaves the scanner at a command again, both texts forgotten. */
  lemma {:induction false} FoundLeavesAtCommand(s: Sniffer, bs: seq<byte>, i: nat)
    requires !Over(s) && (Resting(s) || (s.state.CheckCommand? && Resting(s.(cmd := []))))
    ensures var t := Scan(s, bs, i);
            t.found.Some? ==> AtCommand(t.(found := None)) && t.user == [] && t.pass == [] && t.userDone && t.passDone
    decreases |bs| - i, Rank(s)
  {
    if i < |bs| {
      var (t, n) := Look(s, bs[i]);
      if !Over(t) { FoundLeavesAtCommand(t, bs, i + n); }
    }
  }

  /** What is logged over several buffers. */
  function Logged(s: Sniffer, buffers: seq<seq<byte>>): seq<(seq<byte>, seq<byte>)>
    decreases |buffers|
  {
    if buffers == [] || s.overrun then []
    else
      var t := Scan(s.(found := None), buffers[0], 0);
      (if t.found.Some? then [t.found.value] else []) + Logged(t, buffers[1..])
  }

  function LoginText(login: (seq<byte>, seq<byte>)): seq<byte> {
    (USER + [SPACE]) + (login.0 + [CR, LF]) + (PASS + [SPACE]) + (login.1 + [CR, LF]) + []
  }

  predicate ValidLogin(login: (seq<byte>, seq<byte>)) {
    CR !in login.0 && CR !in login.1 && |login.0| < TEXT_MAX && |login.1| < TEXT_MAX
  }

  /** A client that logs in again and again, a login to a buffer, has every login logged. */
  lemma {:induction false} LogsEveryLogin(s: Sniffer, logins: seq<(seq<byte>, seq<byte>)>)
    requires AtCommand(s.(found := None)) && forall i :: 0 <= i < |logins| ==> ValidLogin(logins[i])
    ensures Logged(s, seq(|logins|, i requires 0 <= i < |logins| => LoginText(logins[i]))) == logins
    decreases |logins|
  {
    var buffers := seq(|logins|, i requires 0 <= i < |logins| => LoginText(logins[i]));
    if logins != [] {
      var login, later := logins[0], logins[1..];
      var next := s.(found := None);
      var t := Scan(next, buffers[0], 0);
      assert ValidLogin(login);
      FindsCredentials(next, login.0, login.1, USER, PASS, []);
      FoundLeavesAtCommand(next, buffers[0], 0);
      LogsEveryLogin(t, later);
      assert buffers[1..] == seq(|later|, i requires 0 <= i < |later| => LoginText(later[i]));
      assert logins == [login] + later;
    }
  }
}

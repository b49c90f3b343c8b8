/** The table-driven parser: per state a run of rows, the first matching row acts. */
module ParserEngine {
  import opened Wrappers
  import opened Bytes

  /** Matches every byte; the codes above it and between 0x100 and it are class masks. */
  const ANY: int := 512

  datatype Event = Event(kind: nat, data: seq<byte>, n: byte)

  type Action = (Event, byte) -> Event

  datatype Transition = Transition(when: int, dest: nat, act1: Action, act2: Option<Action>)

  /** A definition: the rows of state `i` are `rows[states[i]..states[i] + counts[i]]`. */
  datatype Table = Table(start: nat, rows: seq<Transition>, states: seq<nat>, counts: seq<nat>)

  predicate RowsFit(t: Table) {
    |t.states| == |t.counts| && forall i :: 0 <= i < |t.states| ==> t.states[i] + t.counts[i] <= |t.rows|
  }

  predicate HasRow(t: Table, state: nat, j: nat)
    requires RowsFit(t)
  {
    state < |t.states| && j < t.counts[state]
  }

  function RowOf(t: Table, state: nat, j: nat): Transition
    requires RowsFit(t) && HasRow(t, state, j)
  {
    t.rows[t.states[state] + j]
  }

  /** No row leads outside the table. */
  ghost predicate WellFormed(t: Table) {
    RowsFit(t) && t.start < |t.states| && forall i, j :: HasRow(t, i, j) ==> RowOf(t, i, j).dest < |t.states|
  }

  /** What `parser_feed` works on; `chained` says that the first event links to the second. */
  datatype Machine = Machine(state: nat, e1: Event, e2: Event, chained: bool)

  /** The two numbers have a binary digit one in common. */
  predicate SharesBit(a: nat, b: nat)
    decreases a
  {
    a > 0 && b > 0 && ((a % 2 == 1 && b % 2 == 1) || SharesBit(a / 2, b / 2))
  }

  predicate Matches(row: Transition, mask: nat, c: byte) {
    if row.when <= 0xFF then c == row.when
    else if row.when == ANY then true
    else SharesBit(mask, row.when)
  }

  ghost predicate Running(t: Table, m: Machine) {
    WellFormed(t) && m.state < |t.states|
  }

  /** The first matching row of a state at or after row `i`, or the number of its rows. */
  function FirstMatch(t: Table, state: nat, i: nat, mask: nat, c: byte): (j: nat)
    requires RowsFit(t) && state < |t.states| && i <= t.counts[state]
    ensures i <= j <= t.counts[state]
    ensures HasRow(t, state, j) ==> Matches(RowOf(t, state, j), mask, c)
    ensures forall k :: i <= k < j ==> !Matches(RowOf(t, state, k), mask, c)
    decreases t.counts[state] - i
  {
    if i == t.counts[state] || Matches(RowOf(t, state, i), mask, c) then i
    else FirstMatch(t, state, i + 1, mask, c)
  }

  function Fire(m: Machine, row: Transition, c: byte): Machine {
    var e1 := row.act1(m.e1, c);
    if row.act2.Some? then Machine(row.dest, e1, row.act2.value(m.e2, c), true)
    else Machine(row.dest, e1, m.e2, false)
  }

  /** Without a matching row the state stays and the old event is handed out again. */
  function Advance(t: Table, classes: seq<nat>, m: Machine, c: byte): (next: Machine)
    requires Running(t, m) && |classes| == 256
    ensures Running(t, next)
  {
    var j := FirstMatch(t, m.state, 0, classes[c], c);
    if !HasRow(t, m.state, j) then m.(chained := false) else Fire(m, RowOf(t, m.state, j), c)
  }

  /** Binary digit `k`. */
  predicate Digit(a: nat, k: nat)
    decreases k
  {
    if k == 0 then a % 2 == 1 else Digit(a / 2, k - 1)
  }

  predicate OneInBoth(a: nat, b: nat, k: nat) {
    Digit(a, k) && Digit(b, k)
  }

  /** Two masks share a bit iff some binary digit is one in both. */
  lemma SharesBitMeans(a: nat, b: nat)
    ensures SharesBit(a, b) <==> exists k: nat :: OneInBoth(a, b, k)
  {
    if SharesBit(a, b) { var k := SharedDigit(a, b); }
    if k: nat :| OneInBoth(a, b, k) { DigitShared(a, b, k); }
  }

  lemma {:induction false} SharedDigit(a: nat, b: nat) returns (k: nat)
    requires SharesBit(a, b)
    ensures OneInBoth(a, b, k)
    decreases a
  {
    if a % 2 == 1 && b % 2 == 1 {
      k := 0;
    } else {
      var j := SharedDigit(a / 2, b / 2);
      k := j + 1;
    }
  }

  lemma {:induction false} DigitShared(a: nat, b: nat, k: nat)
    requires OneInBoth(a, b, k)
    ensures SharesBit(a, b)
    decreases k
  {
    if k > 0 {
      DigitShared(a / 2, b / 2, k - 1);
    }
  }

  /** What makes a row match: its own byte, any byte, or a class the byte has. */
  predicate Suits(row: Transition, mask: nat, c: byte) {
    || (row.when <= 0xFF && c == row.when)
    || row.when == 512
    || (row.when > 0xFF && row.when != 512 && SharesBit(mask, row.when))
  }

  /** What one byte does: the first row of the state that suits it runs its first action on
      the first event and its second, if any, on the second event, which is then linked,
      and leads to its destination. */
  lemma AdvanceExactly(t: Table, classes: seq<nat>, m: Machine, c: byte, j: nat)
    requires Running(t, m) && |classes| == 256
    requires HasRow(t, m.state, j) && Suits(RowOf(t, m.state, j), classes[c], c)
    requires forall k: nat :: k < j ==> !Suits(RowOf(t, m.state, k), classes[c], c)
    ensures var next, row := Advance(t, classes, m, c), RowOf(t, m.state, j);
            && next.state == row.dest && next.e1 == row.act1(m.e1, c) && next.chained == row.act2.Some?
            && next.e2 == if row.act2.Some? then row.act2.value(m.e2, c) else m.e2
  {
    SuitsIsMatches(t, m.state, classes[c], c);
  }

  /** If none suits, state and events stay. */
  lemma NothingSuits(t: Table, classes: seq<nat>, m: Machine, c: byte)
    requires Running(t, m) && |classes| == 256
    requires forall j: nat :: HasRow(t, m.state, j) ==> !Suits(RowOf(t, m.state, j), classes[c], c)
    ensures var next := Advance(t, classes, m, c);
            next.state == m.state && next.e1 == m.e1 && next.e2 == m.e2 && !next.chained
  {
    SuitsIsMatches(t, m.state, classes[c], c);
  }

  lemma SuitsIsMatches(t: Table, state: nat, mask: nat, c: byte)
    requires RowsFit(t)
    ensures forall j: nat :: HasRow(t, state, j) ==>
              (Suits(RowOf(t, state, j), mask, c) <==> Matches(RowOf(t, state, j), mask, c))
  {
  }

  function AdvanceAll(t: Table, classes: seq<nat>, m: Machine, input: seq<byte>): (end: Machine)
    requires Running(t, m) && |classes| == 256
    ensures Running(t, end)
    decreases |input|
  {
    if input == [] then m
    else Advance(t, classes, AdvanceAll(t, classes, m, input[..|input| - 1]), input[|input| - 1])
  }

  const NO_EVENT := Event(0, [0, 0, 0], 0)

  function StartOf(t: Table): Machine {
    Machine(t.start, NO_EVENT, NO_EVENT, false)
  }

  class Parser {
    const classes: seq<nat>
    const def: Table
    var state: nat
    var e1: Event
    var e2: Event
    var chained: bool

    function View(): Machine
      reads this
    {
      Machine(state, e1, e2, chained)
    }

    ghost predicate Valid()
      reads this
    {
      Running(def, View()) && |classes| == 256
    }

    constructor (classes: seq<nat>, def: Table)
      requires WellFormed(def) && |classes| == 256
      ensures Valid() && this.def == def && this.classes == classes && View() == StartOf(def)
      ensures state == def.start && !chained
      ensures e1.kind == e2.kind == 0 && e1.n == e2.n == 0 && e1.data == e2.data == [0, 0, 0]
    {
      this.classes, this.def := classes, def;
      state := def.start;
      e1, e2, chained := NO_EVENT, NO_EVENT, false;
    }

    method Reset()
      requires Valid()
      modifies this
      ensures Valid() && View() == old(View()).(state := def.start)
    {
      state := def.start;
    }

    /** Takes one byte; the event is the first one, linked to the second if `chained`. */
    method Feed(c: byte) returns (event: Event)
      requires Valid()
      modifies this
      ensures Valid() && View() == Advance(def, classes, old(View()), c)
      ensures event == e1
    {
      var mask := classes[c];
      chained := false;
      var first, n := def.states[state], def.counts[state];
      var i := 0;
      while i < n
        invariant 0 <= i <= n
        invariant FirstMatch(def, state, i, mask, c) == FirstMatch(def, state, 0, mask, c)
        invariant View() == old(View()).(chained := false)
      {
        var row := def.rows[first + i];
        assert HasRow(def, state, i) && row == RowOf(def, state, i);
        var matched;
        if row.when <= 0xFF {
          matched := c == row.when;
        } else if row.when == ANY {
          matched := true;
        } else {
          matched := SharesBit(mask, row.when);
        }
        if matched {
          e1 := row.act1(e1, c);
          if row.act2.Some? {
            chained := true;
            e2 := row.act2.value(e2, c);
          }
          state := row.dest;
          break;
        }
        i := i + 1;
      }
      event := e1;
    }
  }
}

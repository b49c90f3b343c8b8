/** A string compiled into a parser table that compares its input with the string,
    ignoring case. */
module StringCompare {
  import opened Wrappers
  import opened Bytes
  import opened ParserEngine

  const MAYEQ: nat := 0
  const EQ: nat := 1
  const NEQ: nat := 2

  /** A C string of ASCII characters, without its terminator. */
  predicate IsAscii(s: seq<byte>) {
    forall i :: 0 <= i < |s| ==> 0 < s[i] < 128
  }

  predicate SameIgnoringCase(a: seq<byte>, b: seq<byte>) {
    |a| == |b| && forall i :: 0 <= i < |a| ==> ToLower(a[i]) == ToLower(b[i])
  }

  function Signal(kind: nat): Action {
    (e: Event, c: byte) => Event(kind, if |e.data| > 0 then e.data[0 := c] else [c], 1)
  }

  const BLANK := Transition(0, 0, Signal(0), None)

  function Row(when: int, dest: nat, kind: nat): Transition {
    Transition(when, dest, Signal(kind), None)
  }

  /** The rows of the state that expects `s[i]`: both cases of it, then anything else. */
  function RowFor(s: seq<byte>, i: nat, j: nat): Transition
    requires i < |s| && j < 3
  {
    var kind := if i + 1 == |s| then EQ else MAYEQ;
    if j == 0 then Row(ToLower(s[i]), i + 1, kind)
    else if j == 1 then Row(ToUpper(s[i]), i + 1, kind)
    else Row(ANY, |s| + 1, NEQ)
  }

  /** Three slots a state; the last two states, reached by an equal input and by a
      failed one, use just the first of theirs. */
  ghost predicate Compiles(t: Table, s: seq<byte>) {
    var n := |s|;
    && t.start == 0 && |t.states| == |t.counts| == n + 2 && |t.rows| == 3 * (n + 2)
    && (forall i :: 0 <= i < n + 2 ==> t.states[i] == 3 * i && t.counts[i] == if i < n then 3 else 1)
    && (forall k, j :: 0 <= k < n && 0 <= j < 3 ==> t.rows[3 * k + j] == RowFor(s, k, j))
    && t.rows[3 * n] == t.rows[3 * n + 3] == Row(ANY, n + 1, NEQ)
  }

  /** Fills the three slots of state `i`. */
  method PutRows(transitions: array<Transition>, i: nat, a: Transition, b: Transition, c: Transition)
    requires 3 * i + 2 < transitions.Length
    modifies transitions
    ensures transitions[3 * i] == a && transitions[3 * i + 1] == b && transitions[3 * i + 2] == c
    ensures forall p :: 0 <= p < transitions.Length && !(3 * i <= p < 3 * i + 3) ==> transitions[p] == old(transitions[p])
  {
    transitions[i * 3 + 0] := a;
    transitions[i * 3 + 1] := b;
    transitions[i * 3 + 2] := c;
  }

  /** Fills in the states that expect a letter. */
  method CompileLetters(s: seq<byte>, transitions: array<Transition>, states: array<nat>, nstates: array<nat>)
    requires |s| + 2 == states.Length == nstates.Length && transitions.Length == 3 * (|s| + 2) && states != nstates
    modifies transitions, states, nstates
    ensures forall k :: 0 <= k < |s| ==> states[k] == 3 * k && nstates[k] == 3
    ensures forall k, j :: 0 <= k < |s| && 0 <= j < 3 ==> transitions[3 * k + j] == RowFor(s, k, j)
  {
    var n := |s|;
    var stEq, stNeq := n, n + 1;
    var i := 0;
    while i < n
      invariant 0 <= i <= n
      invariant forall k :: 0 <= k < i ==> states[k] == 3 * k && nstates[k] == 3
      invariant forall k, j :: 0 <= k < i && 0 <= j < 3 ==> transitions[3 * k + j] == RowFor(s, k, j)
    {
      var dest := if i + 1 == n then stEq else i + 1;
      var kind := if i + 1 == n then EQ else MAYEQ;
      PutRows(transitions, i, Row(ToLower(s[i]), dest, kind), Row(ToUpper(s[i]), dest, kind), Row(ANY, stNeq, NEQ));
      states[i] := i * 3 + 0;
      nstates[i] := 3;
      i := i + 1;
    }
  }

  /** Builds the table. */
  method StrCmpI(s: seq<byte>) returns (def: Table)
    requires IsAscii(s)
    ensures Compiles(def, s)
  {
    var n := |s|;
    var states := new nat[n + 2](_ => 0);
    var nstates := new nat[n + 2](_ => 0);
    var transitions := new Transition[3 * (n + 2)](_ => BLANK);
    var stNeq := n + 1;
    CompileLetters(s, transitions, states, nstates);
    transitions[(n + 0) * 3] := Row(ANY, stNeq, NEQ);
    states[n + 0] := (n + 0) * 3 + 0;
    nstates[n + 0] := 1;
    transitions[(n + 1) * 3] := Row(ANY, stNeq, NEQ);
    states[n + 1] := (n + 1) * 3 + 0;
    nstates[n + 1] := 1;
    def := Table(0, transitions[..], states[..], nstates[..]);
  }

  lemma RowAt(t: Table, s: seq<byte>, i: nat, j: nat)
    requires Compiles(t, s) && i < |s| + 2 && j < if i < |s| then 3 else 1
    ensures RowsFit(t) && HasRow(t, i, j)
    ensures RowOf(t, i, j) == if i < |s| then RowFor(s, i, j) else Row(ANY, |s| + 1, NEQ)
  {
    if i < |s| {
      assert t.rows[3 * i + j] == RowFor(s, i, j);
    }
  }

  /** Every state that is reached stays in the table. */
  lemma CompiledIsWellFormed(t: Table, s: seq<byte>)
    requires Compiles(t, s)
    ensures WellFormed(t)
  {
    RowAt(t, s, |s|, 0);
    forall i, j | HasRow(t, i, j)
      ensures RowOf(t, i, j).dest < |t.states|
    {
      RowAt(t, s, i, j);
    }
  }

  lemma CaseRows(a: byte, c: byte)
    ensures c == ToLower(a) || c == ToUpper(a) <==> ToLower(c) == ToLower(a)
  {
  }

  /** One byte in state `i`: the byte matches, or the input is lost. */
  lemma CompareStep(t: Table, s: seq<byte>, classes: seq<nat>, m: Machine, c: byte)
    requires Compiles(t, s) && IsAscii(s) && |classes| == 256 && Running(t, m)
    ensures var i := m.state;
            var ok := i < |s| && ToLower(c) == ToLower(s[i]);
            var kind := if !ok then NEQ else if i + 1 == |s| then EQ else MAYEQ;
            Advance(t, classes, m, c) == Machine(if ok then i + 1 else |s| + 1, Signal(kind)(m.e1, c), m.e2, false)
  {
    var i := m.state;
    RowAt(t, s, i, 0);
    if i < |s| {
      RowAt(t, s, i, 1);
      RowAt(t, s, i, 2);
      CaseRows(s[i], c);
      assert FirstMatch(t, i, 0, classes[c], c) ==
             if c == ToLower(s[i]) then 0 else if c == ToUpper(s[i]) then 1 else 2;
    } else {
      assert FirstMatch(t, i, 0, classes[c], c) == 0;
    }
  }

  /** The answer a comparison of `s` with the input so far should give. */
  function Verdict(s: seq<byte>, input: seq<byte>): nat {
    if |input| <= |s| && SameIgnoringCase(input, s[..|input|]) then
      if |input| == |s| then EQ else MAYEQ
    else NEQ
  }

  function StateFor(s: seq<byte>, input: seq<byte>): nat {
    if Verdict(s, input) == NEQ then |s| + 1 else |input|
  }

  lemma VerdictStep(s: seq<byte>, input: seq<byte>)
    requires input != []
    ensures var before, c := input[..|input| - 1], input[|input| - 1];
            Verdict(s, input) != NEQ <==>
              Verdict(s, before) != NEQ && |before| < |s| && ToLower(c) == ToLower(s[|before|])
  {
    var before := input[..|input| - 1];
    var n := |before|;
    assert forall i :: 0 <= i < n ==> before[i] == input[i];
    if Verdict(s, input) != NEQ {
      assert forall i :: 0 <= i < n ==> s[..n][i] == s[..n + 1][i];
      assert ToLower(input[n]) == ToLower(s[..n + 1][n]);
    }
    if Verdict(s, before) != NEQ && n < |s| && ToLower(input[n]) == ToLower(s[n]) {
      assert forall i :: 0 <= i < n ==> s[..n + 1][i] == s[..n][i];
    }
  }

  /** The compiled table compares: after any nonempty input the event is EQ iff the
      input is the string up to case, MAYEQ iff it is a proper prefix of it, else NEQ. */
  lemma {:induction false} CompareIsCorrect(t: Table, s: seq<byte>, classes: seq<nat>, input: seq<byte>)
    requires Compiles(t, s) && IsAscii(s) && |classes| == 256 && WellFormed(t)
    ensures var m := AdvanceAll(t, classes, StartOf(t), input);
            && m.state == StateFor(s, input)
            && (input != [] ==> m.e1.kind == Verdict(s, input) && m.e1.n == 1 && !m.chained
                                && |m.e1.data| > 0 && m.e1.data[0] == input[|input| - 1])
    decreases |input|
  {
    if input == [] {
      assert SameIgnoringCase(input, s[..0]);
    } else {
      var before, c := input[..|input| - 1], input[|input| - 1];
      CompareIsCorrect(t, s, classes, before);
      VerdictStep(s, input);
      CompareStep(t, s, classes, AdvanceAll(t, classes, StartOf(t), before), c);
    }
  }

  lemma {:induction false} VerdictStays(s: seq<byte>, input: seq<byte>, more: seq<byte>)
    requires Verdict(s, input) == NEQ
    ensures Verdict(s, input + more) == NEQ
    decreases |more|
  {
    if more == [] {
      assert input + more == input;
    } else {
      var all := input + more;
      assert all[..|all| - 1] == input + more[..|more| - 1];
      VerdictStays(s, input, more[..|more| - 1]);
      VerdictStep(s, all);
    }
  }

  /** A parser that has reported a mismatch reports one after every further byte. */
  lemma MismatchStays(t: Table, s: seq<byte>, classes: seq<nat>, input: seq<byte>, more: seq<byte>)
    requires Compiles(t, s) && IsAscii(s) && |classes| == 256 && WellFormed(t)
    requires input != [] && AdvanceAll(t, classes, StartOf(t), input).e1.kind == NEQ
    ensures AdvanceAll(t, classes, StartOf(t), input + more).e1.kind == NEQ
  {
    CompareIsCorrect(t, s, classes, input);
    VerdictStays(s, input, more);
    CompareIsCorrect(t, s, classes, input + more);
  }

  /** Compiles `s`, feeds it `input`, and tells the kind of the last event. */
  method Compare(s: seq<byte>, input: seq<byte>, classes: seq<nat>) returns (kind: nat)
    requires IsAscii(s) && input != [] && |classes| == 256
    ensures kind == Verdict(s, input)
  {
    var def := StrCmpI(s);
    CompiledIsWellFormed(def, s);
    var parser := new Parser(classes, def);
    kind := NEQ;
    for i := 0 to |input|
      invariant parser.Valid() && parser.def == def && parser.classes == classes && fresh(parser)
      invariant parser.View() == AdvanceAll(def, classes, StartOf(def), input[..i])
      invariant i > 0 ==> kind == parser.e1.kind
    {
      assert input[..i + 1][..i] == input[..i];
      var event := parser.Feed(input[i]);
      kind := event.kind;
    }
    assert input[..|input|] == input;
    CompareIsCorrect(def, s, classes, input);
  }
}

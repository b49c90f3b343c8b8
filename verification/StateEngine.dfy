/** The state engine of a session: a table of states, hooks on entering and leaving a
    state, and handlers that answer with the next state. */
module StateEngine {
  import opened Wrappers

  datatype Kind = OnRead | OnWrite | OnBlock

  /** Which of the callbacks of a state are present. */
  datatype StateDef = StateDef(state: nat, arrival: bool, departure: bool, read: bool, write: bool, block: bool) {
    predicate Handles(kind: Kind) {
      match kind case OnRead => read case OnWrite => write case OnBlock => block
    }
  }

  datatype Table = Table(initial: nat, maxState: nat, states: seq<StateDef>)

  datatype Hook = Arrive(state: nat) | Depart(state: nat)

  /** `current` is none before the first event; an abort ends the program. */
  datatype Engine = Engine(current: Option<nat>, trace: seq<Hook>, aborted: bool)

  const FRESH := Engine(None, [], false)

  /** What the initialisation accepts: states in order, and an initial state below the last. */
  predicate ValidTable(t: Table) {
    && |t.states| > t.maxState && t.initial < t.maxState
    && forall i :: 0 <= i <= t.maxState ==> t.states[i].state == i
  }

  function Has(t: Table, h: Hook): bool {
    match h
    case Arrive(s) => s < |t.states| && t.states[s].arrival
    case Depart(s) => s < |t.states| && t.states[s].departure
  }

  /** The hooks of `path` that are present. */
  function Present(t: Table, path: seq<Hook>): seq<Hook> {
    if path == [] then []
    else Present(t, path[..|path| - 1]) + if Has(t, path[|path| - 1]) then [path[|path| - 1]] else []
  }

  function Call(t: Table, e: Engine, h: Hook): Engine {
    if Has(t, h) then e.(trace := e.trace + [h]) else e
  }

  function Entered(t: Table, e: Engine): Engine {
    if e.current.None? then Call(t, e.(current := Some(t.initial)), Arrive(t.initial)) else e
  }

  function Moved(t: Table, e: Engine, next: nat): Engine
    requires e.current.Some?
  {
    if next > t.maxState then e.(aborted := true)
    else if e.current.value == next then e
    else Call(t, Call(t, e, Depart(e.current.value)).(current := Some(next)), Arrive(next))
  }

  /** The engine after an event whose handler, if it runs, answers `result`. */
  function Handle(t: Table, e: Engine, kind: Kind, result: nat): Engine
    requires ValidTable(t) && (e.current.Some? ==> e.current.value <= t.maxState)
  {
    var f := Entered(t, e);
    if !t.states[f.current.value].Handles(kind) then f.(aborted := true) else Moved(t, f, result)
  }

  function HandleAll(t: Table, events: seq<(Kind, nat)>): (e: Engine)
    requires ValidTable(t)
    ensures e.current.Some? ==> e.current.value <= t.maxState
    decreases |events|
  {
    if events == [] then FRESH else
    var before := HandleAll(t, events[..|events| - 1]);
    var (kind, result) := events[|events| - 1];
    if before.aborted then before else Handle(t, before, kind, result)
  }

  // ----- what the trace should be

  /** The states a run passes through, repetitions included. */
  function Visits(t: Table, events: seq<(Kind, nat)>): seq<nat> {
    if events == [] then [t.initial] else Visits(t, events[..|events| - 1]) + [events[|events| - 1].1]
  }

  /** Neighbouring repetitions merged. */
  function StutterFree(s: seq<nat>): seq<nat> {
    if |s| <= 1 then s
    else
      var before := StutterFree(s[..|s| - 1]);
      if s[|s| - 1] == s[|s| - 2] then before else before + [s[|s| - 1]]
  }

  /** Arriving at the first state, then leaving each state for the next. */
  function Path(s: seq<nat>): seq<Hook> {
    if s == [] then []
    else if |s| == 1 then [Arrive(s[0])]
    else Path(s[..|s| - 1]) + [Depart(s[|s| - 2]), Arrive(s[|s| - 1])]
  }

  lemma {:induction false} StutterFreeEnds(s: seq<nat>)
    requires s != []
    ensures StutterFree(s) != [] && StutterFree(s)[|StutterFree(s)| - 1] == s[|s| - 1]
    decreases |s|
  {
    if |s| > 1 { StutterFreeEnds(s[..|s| - 1]); }
  }

  lemma VisitsEnd(t: Table, events: seq<(Kind, nat)>)
    ensures Visits(t, events) != []
    ensures events != [] ==> Visits(t, events)[|Visits(t, events)| - 1] == events[|events| - 1].1
  {
  }

  lemma PresentTwo(t: Table, path: seq<Hook>, a: Hook, b: Hook)
    ensures Present(t, path + [a, b]) == Present(t, path) + (if Has(t, a) then [a] else []) + (if Has(t, b) then [b] else [])
  {
    var all := path + [a, b];
    assert all[..|all| - 1] == path + [a];
    assert (path + [a])[..|path|] == path;
  }

  /** The state the engine is in before an event: the last result, or the initial state. */
  function Last(t: Table, events: seq<(Kind, nat)>): nat {
    if events == [] then t.initial else events[|events| - 1].1
  }

  /** The engine has called what `path` prescribes and stands at its end. */
  ghost predicate Follows(t: Table, e: Engine, path: seq<nat>) {
    path != [] && e.current == Some(path[|path| - 1]) && e.trace == Present(t, Path(path))
  }

  function Extend(path: seq<nat>, next: nat): seq<nat>
    requires path != []
  {
    if next == path[|path| - 1] then path else path + [next]
  }

  lemma MoveFollows(t: Table, e: Engine, path: seq<nat>, next: nat)
    requires Follows(t, e, path) && next <= t.maxState
    ensures Follows(t, Moved(t, e, next), Extend(path, next))
  {
    var last := path[|path| - 1];
    if next != last {
      assert (path + [next])[..|path|] == path;
      PresentTwo(t, Path(path), Depart(last), Arrive(next));
    }
  }

  lemma StutterFreeExtends(s: seq<nat>, next: nat)
    requires s != []
    ensures StutterFree(s) != [] && StutterFree(s + [next]) == Extend(StutterFree(s), next)
  {
    assert (s + [next])[..|s|] == s;
    StutterFreeEnds(s);
  }

  lemma FirstFollows(t: Table)
    ensures Follows(t, Entered(t, FRESH), [t.initial])
  {
    assert Path([t.initial]) == [Arrive(t.initial)];
    assert [Arrive(t.initial)][..0] == [];
    assert Present(t, [Arrive(t.initial)]) == Present(t, []) + if Has(t, Arrive(t.initial)) then [Arrive(t.initial)] else [];
  }

  /** The hooks called in a run that does not abort are, in order, those present among
      arriving at the initial state and leaving each state of the stutter-free sequence
      of results for the next; and the engine ends in the last result. */
  lemma {:induction false} TraceIsPath(t: Table, events: seq<(Kind, nat)>)
    requires ValidTable(t) && events != [] && !HandleAll(t, events).aborted
    ensures HandleAll(t, events).trace == Present(t, Path(StutterFree(Visits(t, events))))
    ensures HandleAll(t, events).current == Some(Last(t, events))
    ensures Follows(t, HandleAll(t, events), StutterFree(Visits(t, events)))
    decreases |events|
  {
    var n := |events| - 1;
    var before := events[..n];
    var (kind, result) := events[n];
    var visits := Visits(t, before);
    VisitsEnd(t, before);
    if n == 0 {
      FirstFollows(t);
    } else {
      TraceIsPath(t, before);
    }
    StutterFreeExtends(visits, result);
    StutterFreeEnds(visits + [result]);
    MoveFollows(t, Entered(t, HandleAll(t, before)), StutterFree(visits), result);
  }

  lemma EndsInLast(t: Table, events: seq<(Kind, nat)>)
    requires ValidTable(t) && !HandleAll(t, events).aborted
    ensures Entered(t, HandleAll(t, events)).current == Some(Last(t, events)) && Last(t, events) <= t.maxState
  {
    if events != [] { TraceIsPath(t, events); }
    hide Present, Path, StutterFree, Visits;
  }

  lemma HandleOneMore(t: Table, events: seq<(Kind, nat)>, kind: Kind, result: nat)
    requires ValidTable(t) && !HandleAll(t, events).aborted
    ensures HandleAll(t, events + [(kind, result)]) == Handle(t, HandleAll(t, events), kind, result)
  {
    assert (events + [(kind, result)])[..|events|] == events;
  }

  lemma AbortsHere(t: Table, e: Engine, kind: Kind, result: nat)
    requires ValidTable(t) && !e.aborted && (e.current.Some? ==> e.current.value <= t.maxState)
    ensures Handle(t, e, kind, result).aborted <==>
              !t.states[Entered(t, e).current.value].Handles(kind) || result > t.maxState
  {
  }

  /** An event aborts exactly when the state it meets has no handler for it, or the
      handler answers a state outside the table. */
  lemma AbortsExactly(t: Table, events: seq<(Kind, nat)>, kind: Kind, result: nat)
    requires ValidTable(t) && !HandleAll(t, events).aborted
    ensures var last := Last(t, events);
            && last <= t.maxState
            && (HandleAll(t, events + [(kind, result)]).aborted <==> !t.states[last].Handles(kind) || result > t.maxState)
  {
    EndsInLast(t, events);
    HandleOneMore(t, events, kind, result);
    AbortsHere(t, HandleAll(t, events), kind, result);
    hide HandleAll, Handle, Entered, Last;
  }

  /** Arrivals and departures take turns, starting with an arrival, and each departure is
      from the state last arrived at. */
  lemma {:induction false} PathAlternates(s: seq<nat>)
    requires s != []
    ensures |Path(s)| == 2 * |s| - 1
    ensures forall i :: 0 <= i < |s| ==> Path(s)[2 * i] == Arrive(s[i])
    ensures forall i :: 0 <= i < |s| - 1 ==> Path(s)[2 * i + 1] == Depart(s[i])
    decreases |s|
  {
    if |s| > 1 {
      var before := s[..|s| - 1];
      PathAlternates(before);
      assert forall i :: 0 <= i < |before| ==> Path(s)[2 * i] == Path(before)[2 * i];
      assert forall i :: 0 <= i < |before| - 1 ==> Path(s)[2 * i + 1] == Path(before)[2 * i + 1];
    }
  }

  lemma {:induction false} NoStutter(s: seq<nat>)
    ensures forall i :: 0 < i < |StutterFree(s)| ==> StutterFree(s)[i - 1] != StutterFree(s)[i]
    decreases |s|
  {
    if |s| > 1 {
      NoStutter(s[..|s| - 1]);
      StutterFreeEnds(s[..|s| - 1]);
    }
  }

  ghost predicate AllHooks(t: Table) {
    forall i :: 0 <= i < |t.states| ==> t.states[i].arrival && t.states[i].departure
  }

  lemma {:induction false} StaysInTable(t: Table, events: seq<(Kind, nat)>)
    requires ValidTable(t) && !HandleAll(t, events).aborted
    ensures forall i :: 0 <= i < |Visits(t, events)| ==> Visits(t, events)[i] <= t.maxState
    decreases |events|
  {
    if events != [] { StaysInTable(t, events[..|events| - 1]); }
  }

  lemma {:induction false} MergedStaysInTable(s: seq<nat>, max: nat)
    requires forall i :: 0 <= i < |s| ==> s[i] <= max
    ensures forall i :: 0 <= i < |StutterFree(s)| ==> StutterFree(s)[i] <= max
    decreases |s|
  {
    if |s| > 1 { MergedStaysInTable(s[..|s| - 1], max); }
  }

  lemma {:induction false} AllPresent(t: Table, path: seq<Hook>)
    requires forall i :: 0 <= i < |path| ==> Has(t, path[i])
    ensures Present(t, path) == path
    decreases |path|
  {
    if path != [] {
      AllPresent(t, path[..|path| - 1]);
      assert path == path[..|path| - 1] + [path[|path| - 1]];
    }
  }

  /** Arrivals and departures take turns, each departure is from the state arrived at, and
      no state is left for itself. */
  ghost predicate Alternates(trace: seq<Hook>) {
    |trace| % 2 == 1 && forall i :: 0 <= i < |trace| ==> TakesTurn(trace, i)
  }

  predicate TakesTurn(trace: seq<Hook>, i: nat)
    requires i < |trace|
  {
    if i % 2 == 1 then trace[i] == Depart(trace[i - 1].state)
    else trace[i].Arrive? && (i > 0 ==> trace[i].state != trace[i - 2].state)
  }

  lemma PathAt(s: seq<nat>, i: nat)
    requires s != [] && i < 2 * |s| - 1
    ensures |Path(s)| == 2 * |s| - 1 && Path(s)[i] == if i % 2 == 0 then Arrive(s[i / 2]) else Depart(s[i / 2])
  {
    PathAlternates(s);
    var k := i / 2;
    if i % 2 == 0 { assert Path(s)[2 * k] == Arrive(s[k]); } else { assert Path(s)[2 * k + 1] == Depart(s[k]); }
  }

  lemma PathTurns(s: seq<nat>)
    requires s != [] && forall i :: 0 < i < |s| ==> s[i - 1] != s[i]
    ensures Alternates(Path(s)) && Path(s)[0] == Arrive(s[0]) && Path(s)[|Path(s)| - 1] == Arrive(s[|s| - 1])
  {
    PathAt(s, 0);
    PathAt(s, 2 * |s| - 2);
    forall i | 0 <= i < |Path(s)|
      ensures TakesTurn(Path(s), i)
    {
      PathAt(s, i);
      if i % 2 == 1 {
        PathAt(s, i - 1);
      } else if i > 0 {
        PathAt(s, i - 2);
        assert s[i / 2 - 1] != s[i / 2];
      }
    }
  }

  lemma PathStates(s: seq<nat>, max: nat)
    requires s != [] && forall i :: 0 <= i < |s| ==> s[i] <= max
    ensures forall i :: 0 <= i < |Path(s)| ==> Path(s)[i].state <= max
  {
    PathAt(s, 0);
    forall i | 0 <= i < |Path(s)|
      ensures Path(s)[i].state <= max
    {
      PathAt(s, i);
    }
  }

  /** The hooks an engine calls when every state has both: they alternate as above, from
      the arrival at the initial state to the arrival at the current one. */
  lemma EngineAlternates(t: Table, events: seq<(Kind, nat)>)
    requires ValidTable(t) && events != [] && !HandleAll(t, events).aborted && AllHooks(t)
    ensures var trace := HandleAll(t, events).trace;
            && Alternates(trace)
            && trace[0] == Arrive(t.initial) && trace[|trace| - 1] == Arrive(Last(t, events))
  {
    hide Path, StutterFree, Visits, HandleAll, Present, Alternates;
    var visits := Visits(t, events);
    TraceIsPath(t, events);
    VisitsEnd(t, events);
    VisitsStart(t, events);
    StaysInTable(t, events);
    StutterFreeEnds(visits);
    StutterFreeStarts(visits);
    NoStutter(visits);
    MergedStaysInTable(visits, t.maxState);
    PathTurns(StutterFree(visits));
    PathStates(StutterFree(visits), t.maxState);
    AllPresent(t, Path(StutterFree(visits)));
  }

  lemma {:induction false} StutterFreeStarts(s: seq<nat>)
    requires s != []
    ensures StutterFree(s) != [] && StutterFree(s)[0] == s[0]
    decreases |s|
  {
    if |s| > 1 { StutterFreeStarts(s[..|s| - 1]); }
  }

  lemma {:induction false} VisitsStart(t: Table, events: seq<(Kind, nat)>)
    ensures Visits(t, events) != [] && Visits(t, events)[0] == t.initial
    decreases |events|
  {
    if events != [] { VisitsStart(t, events[..|events| - 1]); }
  }

  // ----- the table of a session

  const HELLO: nat := 0
  const HELLO_AUTH: nat := 1
  const REQUEST_READING: nat := 2
  const DNS_QUERY: nat := 3
  const RESPONSE_WRITING: nat := 4
  const COPY: nat := 5
  const CLOSE_CONNECTION: nat := 6
  const ERROR: nat := 7

  const SESSION := Table(HELLO, ERROR, [
    StateDef(HELLO, true, false, true, true, false),
    StateDef(HELLO_AUTH, true, false, true, true, false),
    StateDef(REQUEST_READING, true, false, true, false, false),
    StateDef(DNS_QUERY, true, false, false, false, true),
    StateDef(RESPONSE_WRITING, false, false, false, true, false),
    StateDef(COPY, false, false, true, true, false),
    StateDef(CLOSE_CONNECTION, false, false, false, false, false),
    StateDef(ERROR, false, false, false, false, false)])

  /** A session that has not aborted aborts on these events and no others, as long as its
      handlers answer states of the table. */
  lemma SessionAborts(events: seq<(Kind, nat)>, kind: Kind, result: nat)
    requires !HandleAll(SESSION, events).aborted && result <= ERROR
    ensures HandleAll(SESSION, events + [(kind, result)]).aborted <==>
              var last := Last(SESSION, events);
              match kind
              case OnRead => last in {DNS_QUERY, RESPONSE_WRITING, CLOSE_CONNECTION, ERROR}
              case OnWrite => last in {REQUEST_READING, DNS_QUERY, CLOSE_CONNECTION, ERROR}
              case OnBlock => last != DNS_QUERY
  {
    AbortsExactly(SESSION, events, kind, result);
  }

  /** The states among these that the session table has something to start in. */
  function Arrivals(s: seq<nat>): seq<Hook> {
    if s == [] then []
    else Arrivals(s[..|s| - 1]) +
         if s[|s| - 1] in {HELLO, HELLO_AUTH, REQUEST_READING, DNS_QUERY} then [Arrive(s[|s| - 1])] else []
  }

  lemma {:induction false} PresentInSession(s: seq<nat>)
    requires forall i :: 0 <= i < |s| ==> s[i] <= ERROR
    ensures Present(SESSION, Path(s)) == Arrivals(s)
    decreases |s|
  {
    if |s| == 1 {
      assert Path(s) == [Arrive(s[0])] && Path(s)[..0] == [];
      assert Present(SESSION, []) == [] && s[..0] == [];
      SessionHas(s[0]);
    } else if |s| > 1 {
      var n := |s| - 1;
      PresentInSession(s[..n]);
      PresentTwo(SESSION, Path(s[..n]), Depart(s[n - 1]), Arrive(s[n]));
      SessionHas(s[n - 1]);
      SessionHas(s[n]);
    }
  }

  lemma SessionHas(state: nat)
    requires state <= ERROR
    ensures Has(SESSION, Arrive(state)) <==> state in {HELLO, HELLO_AUTH, REQUEST_READING, DNS_QUERY}
    ensures !Has(SESSION, Depart(state))
  {
  }

  /** A session starts in HELLO; in a run its parsers and its name resolution are set up, in
      order, each time it comes to a state that has them from another one, and at no other
      time; nothing is called on leaving a state. */
  lemma SessionHooks(events: seq<(Kind, nat)>, engine: Engine)
    requires events != [] && engine == HandleAll(SESSION, events) && !engine.aborted
    ensures engine.trace == Arrivals(StutterFree(Visits(SESSION, events)))
    ensures Visits(SESSION, events)[0] == HELLO
  {
    VisitsStart(SESSION, events);
    TraceIsPath(SESSION, events);
    StaysInTable(SESSION, events);
    MergedStaysInTable(Visits(SESSION, events), ERROR);
    hide HandleAll, Visits, StutterFree, Path, Present, Arrivals;
    PresentInSession(StutterFree(Visits(SESSION, events)));
  }

  // ----- the engine in place

  class StateMachine {
    const table: Table
    var current: Option<nat>
    var trace: seq<Hook>

    ghost predicate Valid()
      reads this
    {
      ValidTable(table) && (current.Some? ==> current.value <= table.maxState)
    }

    function View(): Engine
      reads this
    {
      Engine(current, trace, false)
    }

    constructor (table: Table)
      ensures this.table == table && trace == [] && current == None
    {
      this.table := table;
      current := None;
      trace := [];
    }

    /** Checks the table; the program aborts unless `ok`. */
    method Init() returns (ok: bool)
      requires |table.states| > table.maxState
      modifies this`current
      ensures ok <==> ValidTable(table)
      ensures ok <==> table.initial < table.maxState && forall i :: 0 <= i <= table.maxState ==> table.states[i].state == i
      ensures ok ==> Valid() && current == None
    {
      var i := 0;
      while i <= table.maxState
        invariant 0 <= i <= table.maxState + 1
        invariant forall k :: 0 <= k < i ==> table.states[k].state == k
      {
        if i != table.states[i].state {
          return false;
        }
        i := i + 1;
      }
      if table.initial < table.maxState {
        current := None;
        ok := true;
      } else {
        ok := false;
      }
    }

    method HandleFirst()
      requires Valid()
      modifies this`current, this`trace
      ensures Valid() && current.Some? && View() == Entered(table, old(View()))
    {
      if current.None? {
        current := Some(table.initial);
        if table.states[table.initial].arrival {
          trace := trace + [Arrive(table.states[table.initial].state)];
        }
      }
    }

    method Jump(next: nat) returns (ok: bool)
      requires Valid() && current.Some?
      modifies this`current, this`trace
      ensures Valid() && ok == !Moved(table, old(View()), next).aborted
      ensures View() == Moved(table, old(View()), next).(aborted := false)
    {
      if next > table.maxState {
        return false;
      }
      if current.value != next {
        var now := table.states[current.value];
        if now.departure {
          trace := trace + [Depart(now.state)];
        }
        current := Some(next);
        if table.states[next].arrival {
          trace := trace + [Arrive(table.states[next].state)];
        }
      }
      ok := true;
    }

    /** Handles an event; `answer` is what the handler of the state would return. */
    method Event(kind: Kind, answer: nat) returns (ok: bool)
      requires Valid()
      modifies this`current, this`trace
      ensures Valid() && ok == !Handle(table, old(View()), kind, answer).aborted
      ensures View() == Handle(table, old(View()), kind, answer).(aborted := false)
    {
      HandleFirst();
      if !table.states[current.value].Handles(kind) {
        return false;
      }
      ok := Jump(answer);
    }

    method Close()
      requires Valid()
      modifies this`trace
      ensures Valid()
      ensures trace == old(trace) + if current.Some? && Has(table, Depart(current.value)) then [Depart(current.value)] else []
    {
      if current.Some? && table.states[current.value].departure {
        trace := trace + [Depart(table.states[current.value].state)];
      }
    }

    method State() returns (state: nat)
      requires Valid()
      ensures state == if current.Some? then current.value else table.initial
    {
      state := if current.Some? then table.states[current.value].state else table.initial;
    }
  }
}

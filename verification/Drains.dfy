/** The loop shared by the three protocol parsers: take a byte from the buffer, feed it
    to the parser, stop on a final state. */
module Drains {
  import opened Bytes

  /** The parser after all of `bs`, with no early stop. */
  function Run<P>(step: (P, byte) -> P, p: P, bs: seq<byte>): P
    decreases |bs|
  {
    if bs == [] then p else Run(step, step(p, bs[0]), bs[1..])
  }

  /** The parser and the bytes left over after one call of the loop. */
  function Drain<P>(step: (P, byte) -> P, stop: P -> bool, p: P, bs: seq<byte>): (P, seq<byte>)
    decreases |bs|
  {
    if bs == [] then (p, [])
    else
      var q := step(p, bs[0]);
      if stop(q) then (q, bs[1..]) else Drain(step, stop, q, bs[1..])
  }

  /** The loop run after each of several fills of the buffer, by a caller that goes on
      only while the parser has not stopped. */
  function Feed<P>(step: (P, byte) -> P, stop: P -> bool, p: P, left: seq<byte>, chunks: seq<seq<byte>>): (P, seq<byte>)
    decreases |chunks|
  {
    if chunks == [] then (p, left)
    else if stop(p) then (p, left + Flatten(chunks))
    else
      var (q, rest) := Drain(step, stop, p, left + chunks[0]);
      Feed(step, stop, q, rest, chunks[1..])
  }

  /** The same by a caller that keeps calling after the end. */
  function FeedOn<P>(step: (P, byte) -> P, stop: P -> bool, p: P, left: seq<byte>, chunks: seq<seq<byte>>): (P, seq<byte>)
    decreases |chunks|
  {
    if chunks == [] then (p, left)
    else
      var (q, rest) := Drain(step, stop, p, left + chunks[0]);
      FeedOn(step, stop, q, rest, chunks[1..])
  }

  ghost predicate Absorbing<P(!new)>(step: (P, byte) -> P, stop: P -> bool) {
    forall p, c :: stop(p) ==> step(p, c) == p
  }

  lemma {:induction false} RunConcat<P>(step: (P, byte) -> P, p: P, a: seq<byte>, b: seq<byte>)
    ensures Run(step, p, a + b) == Run(step, Run(step, p, a), b)
    decreases |a|
  {
    if a == [] {
      assert a + b == b;
    } else {
      assert (a + b)[0] == a[0] && (a + b)[1..] == a[1..] + b;
      RunConcat(step, step(p, a[0]), a[1..], b);
    }
  }

  lemma RunSnoc<P>(step: (P, byte) -> P, p: P, bs: seq<byte>)
    requires bs != []
    ensures Run(step, p, bs) == step(Run(step, p, bs[..|bs| - 1]), bs[|bs| - 1])
  {
    var n := |bs| - 1;
    assert bs == bs[..n] + [bs[n]];
    RunConcat(step, p, bs[..n], [bs[n]]);
    assert [bs[n]][1..] == [];
  }

  lemma {:induction false} RunStopped<P(!new)>(step: (P, byte) -> P, stop: P -> bool, p: P, bs: seq<byte>)
    requires Absorbing(step, stop) && stop(p)
    ensures Run(step, p, bs) == p
    decreases |bs|
  {
    if bs != [] {
      RunStopped(step, stop, p, bs[1..]);
    }
  }

  /** The loop splits its input: it consumes `consumed`, leaves `rest`, reaches the
      state all of its input reaches, and leaves something only by stopping. */
  lemma {:induction false} DrainSplits<P(!new)>(step: (P, byte) -> P, stop: P -> bool, p: P, bs: seq<byte>) returns (consumed: seq<byte>)
    requires Absorbing(step, stop)
    ensures var (q, rest) := Drain(step, stop, p, bs);
            && bs == consumed + rest
            && q == Run(step, p, consumed) == Run(step, p, bs)
            && (rest != [] ==> stop(q))
            && (forall k :: 0 < k < |consumed| ==> !stop(Run(step, p, consumed[..k])))
    decreases |bs|
  {
    if bs == [] {
      consumed := [];
    } else {
      var q := step(p, bs[0]);
      if stop(q) {
        consumed := [bs[0]];
        assert consumed[1..] == [];
        RunStopped(step, stop, q, bs[1..]);
      } else {
        var tail := DrainSplits(step, stop, q, bs[1..]);
        consumed := [bs[0]] + tail;
        assert consumed[1..] == tail;
        assert bs == [bs[0]] + bs[1..];
        forall k | 0 < k < |consumed|
          ensures !stop(Run(step, p, consumed[..k]))
        {
          assert consumed[..k][1..] == tail[..k - 1];
          if k == 1 { assert tail[..0] == []; }
        }
      }
    }
  }

  /** When `a` is the first point at which the parser stops, one call consumes `a` and
      leaves what follows it. */
  lemma {:induction false} DrainStopsAt<P>(step: (P, byte) -> P, stop: P -> bool, p: P, a: seq<byte>, b: seq<byte>)
    requires a != [] && stop(Run(step, p, a))
    requires forall k :: 0 < k < |a| ==> !stop(Run(step, p, a[..k]))
    ensures Drain(step, stop, p, a + b) == (Run(step, p, a), b)
    decreases |a|
  {
    var q := step(p, a[0]);
    assert (a + b)[0] == a[0] && (a + b)[1..] == a[1..] + b;
    assert a[..1][1..] == [] && Run(step, p, a[..1]) == q;
    if |a| == 1 {
      assert a[..1] == a && a[1..] + b == b;
    } else {
      forall k | 0 < k < |a[1..]|
        ensures !stop(Run(step, q, a[1..][..k]))
      {
        assert a[..k + 1][1..] == a[1..][..k];
      }
      DrainStopsAt(step, stop, q, a[1..], b);
    }
  }

  lemma {:induction false} DrainConcat<P>(step: (P, byte) -> P, stop: P -> bool, p: P, a: seq<byte>, b: seq<byte>)
    requires !stop(p)
    ensures var (q, rest) := Drain(step, stop, p, a);
            Drain(step, stop, p, a + b) == if stop(q) then (q, rest + b) else Drain(step, stop, q, rest + b)
    decreases |a|
  {
    if a == [] {
      assert a + b == b;
      assert [] + b == b;
    } else {
      assert (a + b)[0] == a[0] && (a + b)[1..] == a[1..] + b;
      var q := step(p, a[0]);
      if !stop(q) { DrainConcat(step, stop, q, a[1..], b); }
    }
  }

  lemma {:induction false} DrainLeavesOnlyIfStopped<P>(step: (P, byte) -> P, stop: P -> bool, p: P, bs: seq<byte>)
    ensures var (q, rest) := Drain(step, stop, p, bs); rest != [] ==> stop(q)
    decreases |bs|
  {
    if bs != [] {
      var q := step(p, bs[0]);
      if !stop(q) { DrainLeavesOnlyIfStopped(step, stop, q, bs[1..]); }
    }
  }

  /** Chunk independence: however the input is split over fills of the buffer, the
      final parser and the bytes left over are those of a single fill. */
  lemma {:induction false} FeedIsOneFill<P>(step: (P, byte) -> P, stop: P -> bool, p: P, left: seq<byte>, chunks: seq<seq<byte>>)
    requires !stop(p) && chunks != []
    ensures Feed(step, stop, p, left, chunks) == Drain(step, stop, p, left + Flatten(chunks))
    decreases |chunks|
  {
    var (q, rest) := Drain(step, stop, p, left + chunks[0]);
    var later := Flatten(chunks[1..]);
    DrainConcat(step, stop, p, left + chunks[0], later);
    assert left + chunks[0] + later == left + Flatten(chunks);
    DrainLeavesOnlyIfStopped(step, stop, p, left + chunks[0]);
    if chunks[1..] == [] {
      assert later == [] && rest + later == rest;
      if !stop(q) { assert Drain(step, stop, q, []) == (q, []); }
    } else if !stop(q) {
      FeedIsOneFill(step, stop, q, rest, chunks[1..]);
    }
  }

  /** A caller that goes on after the end still gets the same parser, though each
      further call may eat a byte. */
  lemma {:induction false} FeedOnSameParser<P(!new)>(step: (P, byte) -> P, stop: P -> bool, p: P, left: seq<byte>, chunks: seq<seq<byte>>)
    requires Absorbing(step, stop)
    requires left != [] ==> stop(p)
    ensures FeedOn(step, stop, p, left, chunks).0 == Run(step, p, left + Flatten(chunks))
    decreases |chunks|
  {
    if chunks == [] {
      assert left + [] == left;
      if left != [] { RunStopped(step, stop, p, left); }
    } else {
      var bs := left + chunks[0];
      var (q, rest) := Drain(step, stop, p, bs);
      var consumed := DrainSplits(step, stop, p, bs);
      FeedOnSameParser(step, stop, q, rest, chunks[1..]);
      var later := Flatten(chunks[1..]);
      assert left + (chunks[0] + later) == bs + later;
      assert consumed + rest + later == consumed + (rest + later);
      RunConcat(step, p, consumed, rest + Flatten(chunks[1..]));
    }
  }
}

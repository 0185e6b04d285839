/**
 * One direction of a channel as the other end will see it: a local mailbox, or frames on a wire with a decoder behind
 * it (chrpc/src/channel_local.c, chrpc/src/channel_fd.c). What is on its way is one sequence of messages either way,
 * however the bytes arrive.
 */
module Pipe {
  import opened Bytes
  import F = Framing

  /**
   * `wire` is written but not yet read; `st` is the decoder's state with its queue. A short write closes the writing
   * end.
   */
  datatype Pipe = Pipe(framed: bool, open: bool, wire: bytes, st: F.State)

  function Empty(framed: bool): Pipe {
    Pipe(framed, true, [], F.State([], []))
  }

  /** The messages that `s` completes after the bytes `p`. */
  function Trace(c: F.Config, p: bytes, s: bytes): seq<bytes>
    requires c.Valid()
    decreases |s|
  {
    if s == [] then []
    else
      var st := F.Step(c, F.State(p, []), s[0]);
      st.queue + Trace(c, st.pending, s[1..])
  }

  /** What is pending after `s`. */
  function After(c: F.Config, p: bytes, s: bytes): bytes
    requires c.Valid()
    decreases |s|
  {
    if s == [] then p else After(c, F.Step(c, F.State(p, []), s[0]).pending, s[1..])
  }

  /** The messages on their way to the reader, those it could take already first. */
  function OnWay(c: F.Config, p: Pipe): seq<bytes>
    requires c.Valid()
  {
    p.st.queue + Trace(c, p.st.pending, p.wire)
  }

  ghost predicate Ok(c: F.Config, p: Pipe) {
    && c.Valid() && !c.writeOver && |OnWay(c, p)| <= c.cap
    && (p.open ==> F.Searching(c, F.State(After(c, p.st.pending, p.wire), [])))
    && (!p.framed ==> p.wire == [] && p.st.pending == [] && p.open)
  }

  /**
   * Sends a message. A mailbox refuses it when it is full; of a frame `write` takes some bytes, `taken`, and if those
   * are not all the writing end is closed.
   */
  function Put(c: F.Config, p: Pipe, msg: bytes, taken: nat): (bool, Pipe) {
    if !p.framed then
      if |p.st.queue| >= c.cap then (false, p) else (true, p.(st := F.State(p.st.pending, p.st.queue + [msg])))
    else if !p.open then (false, p)
    else
      var frame := F.Frame(msg);
      if taken >= |frame| then (true, p.(wire := p.wire + frame))
      else (false, p.(wire := p.wire + frame[..taken], open := false))
  }

  /** The next `m` bytes reach the decoder. */
  function Arrive(c: F.Config, p: Pipe, m: nat): Pipe
    requires c.Valid() && m <= |p.wire|
  {
    p.(wire := p.wire[m..], st := F.Run(c, p.st, p.wire[..m]))
  }

  function Rest(p: Pipe): Pipe
    requires p.st.queue != []
  {
    p.(st := F.State(p.st.pending, p.st.queue[1..]))
  }

  // ---------------------------------------------------------------- traces

  lemma {:induction false} TraceConcat(c: F.Config, p: bytes, a: bytes, b: bytes)
    requires c.Valid()
    ensures Trace(c, p, a + b) == Trace(c, p, a) + Trace(c, After(c, p, a), b)
    ensures After(c, p, a + b) == After(c, After(c, p, a), b)
    decreases |a|
  {
    hide F.Step;
    if a == [] {
      assert a + b == b;
    } else {
      var st := F.Step(c, F.State(p, []), a[0]);
      assert (a + b)[0] == a[0] && (a + b)[1..] == a[1..] + b;
      TraceConcat(c, st.pending, a[1..], b);
      Assoc(st.queue, Trace(c, st.pending, a[1..]), Trace(c, After(c, p, a), b));
    }
  }

  /** A byte completes the same message whatever is queued and whatever the queue holds. */
  lemma StepTrace(c: F.Config, p: bytes, q: seq<bytes>, b: byte)
    requires c.Valid()
    ensures var alone := F.Step(c, F.State(p, []), b);
            var st := F.Step(c, F.State(p, q), b);
            && |alone.queue| <= 1 && st.pending == alone.pending
            && (alone.queue == [] ==> st.queue == q)
            && (alone.queue != [] && |q| < c.cap ==> st.queue == q + alone.queue)
  {
    hide FromU32;
  }

  /** With room for them all, reading queues exactly the messages completed. */
  lemma {:induction false} RunTrace(c: F.Config, p: bytes, q: seq<bytes>, s: bytes)
    requires c.Valid() && |q| + |Trace(c, p, s)| <= c.cap
    ensures F.Run(c, F.State(p, q), s) == F.State(After(c, p, s), q + Trace(c, p, s))
    decreases |s|
  {
    if s == [] {
      assert q + [] == q;
    } else {
      StepTrace(c, p, q, s[0]);
      hide F.Step;
      var alone := F.Step(c, F.State(p, []), s[0]);
      assert alone.queue == [] ==> q + alone.queue == q;
      RunTrace(c, alone.pending, q + alone.queue, s[1..]);
      Assoc(q, alone.queue, Trace(c, alone.pending, s[1..]));
    }
  }

  /** How many fit plays no part in what is completed. */
  lemma {:induction false} TraceAnyCap(c: F.Config, cap: nat, p: bytes, s: bytes)
    requires c.Valid() && cap > 0
    ensures Trace(c.(cap := cap), p, s) == Trace(c, p, s) && After(c.(cap := cap), p, s) == After(c, p, s)
    ensures |Trace(c, p, s)| <= |s|
    decreases |s|
  {
    hide FromU32;
    if s != [] {
      StepTrace(c, p, [], s[0]);
      TraceAnyCap(c, cap, F.Step(c, F.State(p, []), s[0]).pending, s[1..]);
    }
  }

  /** What running the decoder from an empty queue shows of a trace. */
  lemma TraceFromRun(c: F.Config, p: bytes, s: bytes, st: F.State)
    requires c.Valid() && F.Run(c.(cap := |s| + 1), F.State(p, []), s) == st
    ensures Trace(c, p, s) == st.queue && After(c, p, s) == st.pending
  {
    hide F.Run;
    hide Trace;
    hide After;
    TraceAnyCap(c, |s| + 1, p, s);
    RunTrace(c.(cap := |s| + 1), p, [], s);
    assert [] + Trace(c, p, s) == Trace(c, p, s);
  }

  lemma FrameTrace(c: F.Config, p: bytes, msg: bytes)
    requires c.Valid() && F.Searching(c, F.State(p, [])) && 1 <= |msg| <= c.maxMsg
    ensures Trace(c, p, F.Frame(msg)) == [msg] && After(c, p, F.Frame(msg)) == []
  {
    hide F.Run;
    var frame := F.Frame(msg);
    var big := c.(cap := |frame| + 1);
    F.FrameRun(big, F.State(p, []), msg, F.END_MAGIC);
    TraceFromRun(c, p, frame, F.State([], [msg]));
  }

  /** Part of a frame completes nothing. */
  lemma PartTrace(c: F.Config, p: bytes, msg: bytes, k: nat)
    requires c.Valid() && F.Searching(c, F.State(p, [])) && 1 <= |msg| <= c.maxMsg && k < |F.Frame(msg)|
    ensures Trace(c, p, F.Frame(msg)[..k]) == []
  {
    hide F.Run;
    hide U32;
    hide FromU32;
    var part, h := F.Frame(msg)[..k], F.Header(|msg|);
    var big := c.(cap := k + 1);
    var none := F.State(p, []);
    if k == 0 {
      F.NoBytes(big, none);
      TraceFromRun(c, p, part, none);
    } else if k <= 5 {
      assert part == [F.START_MAGIC] + U32(|msg|)[..k - 1];
      F.RunConcat(big, none, [F.START_MAGIC], U32(|msg|)[..k - 1]);
      F.OneByte(big, none, F.START_MAGIC);
      F.RunAbsorb(big, F.State([F.START_MAGIC], []), U32(|msg|)[..k - 1]);
      TraceFromRun(c, p, part, F.State(part, []));
    } else {
      assert part == h + msg[..k - 5];
      F.RunConcat(big, none, h, msg[..k - 5]);
      F.RunHeader(big, none, |msg|);
      F.RunAbsorb(big, F.State(h, []), msg[..k - 5]);
      TraceFromRun(c, p, part, F.State(part, []));
    }
  }

  // ---------------------------------------------------------------- what each operation does to what is on its way

  lemma EmptyOk(c: F.Config, framed: bool)
    requires c.Valid() && !c.writeOver
    ensures Ok(c, Empty(framed)) && OnWay(c, Empty(framed)) == []
  {
  }

  /** A message that is sent is behind the others; one that is not leaves them as they are. */
  lemma PutLaws(c: F.Config, p: Pipe, msg: bytes, taken: nat)
    requires Ok(c, p) && 1 <= |msg| <= c.maxMsg && |OnWay(c, p)| < c.cap
    ensures var (sent, p') := Put(c, p, msg, taken);
            && Ok(c, p') && OnWay(c, p') == if sent then OnWay(c, p) + [msg] else OnWay(c, p)
  {
    hide F.Searching;
    hide F.Frame;
    var frame, end := F.Frame(msg), After(c, p.st.pending, p.wire);
    if !p.framed {
      assert p.st.queue + [] == p.st.queue && p.st.queue + [msg] + [] == p.st.queue + [msg];
    } else if p.open {
      var part := if taken >= |frame| then frame else frame[..taken];
      TraceConcat(c, p.st.pending, p.wire, part);
      if taken >= |frame| {
        FrameTrace(c, end, msg);
        Assoc(p.st.queue, Trace(c, p.st.pending, p.wire), [msg]);
        NothingPending(c);
      } else {
        PartTrace(c, end, msg, taken);
        assert Trace(c, p.st.pending, p.wire) + [] == Trace(c, p.st.pending, p.wire);
      }
    }
  }

  lemma NothingPending(c: F.Config)
    requires c.Valid()
    ensures F.Searching(c, F.State([], []))
  {
  }

  /** However much of the wire is read, the same messages are on their way. */
  lemma ArriveLaws(c: F.Config, p: Pipe, m: nat)
    requires Ok(c, p) && m <= |p.wire|
    ensures Ok(c, Arrive(c, p, m)) && OnWay(c, Arrive(c, p, m)) == OnWay(c, p)
  {
    hide F.Run;
    hide F.Searching;
    var a, b := p.wire[..m], p.wire[m..];
    assert p.wire == a + b;
    TraceConcat(c, p.st.pending, a, b);
    RunTrace(c, p.st.pending, p.st.queue, a);
    Assoc(p.st.queue, Trace(c, p.st.pending, a), Trace(c, After(c, p.st.pending, a), b));
    if !p.framed {
      assert a == [] && b == [];
    }
  }

  /** The reader takes the first of them. */
  lemma RestLaws(c: F.Config, p: Pipe)
    requires Ok(c, p) && p.st.queue != []
    ensures Ok(c, Rest(p)) && OnWay(c, p) == [p.st.queue[0]] + OnWay(c, Rest(p))
  {
    assert p.st.queue == [p.st.queue[0]] + p.st.queue[1..];
    Assoc([p.st.queue[0]], p.st.queue[1..], Trace(c, p.st.pending, p.wire));
  }
}

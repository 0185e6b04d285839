/**
 * What the system of `RpcSystem` does in the end: a call whose request or reply is still on its way can always be
 * answered, and one is lost only by its client.
 */
module RpcLiveness {
  import opened Bytes
  import opened RpcMessages
  import opened RpcTheorems
  import opened Pipe
  import opened RpcSystem
  import F = Framing
  import P = WorkerPool

  // ---------------------------------------------------------------- runs without failures

  /**
   * A step in which nothing fails and nobody loses patience: no client gives up, no read fails, no idle channel times
   * out, no write is cut short, and exit is not requested.
   */
  ghost predicate Smooth(s: Sys, step: Step) {
    match step
    case Receive(_, broken, timedOut) => !broken && !timedOut
    case SendReply(w, taken) =>
      w < |s.jobs| && s.jobs[w].Reply?
      && (s.jobs[w].h.reply.Some? ==> taken >= |F.Frame(s.jobs[w].h.reply.value)|)
    case MakeCall(_, c, taken) => taken >= |F.Frame(Request(c))|
    case Internal(a) => !a.RequestExit?
    case GiveUp(_) => false
    case _ => true
  }

  ghost predicate SmoothRun(u: Server, s: Sys, steps: seq<Step>, t: Sys)
    decreases |steps|
  {
    if steps == [] then s == t
    else
      && Enabled(u, s, steps[0]) && Smooth(s, steps[0])
      && SmoothRun(u, Next(u, s, steps[0]), steps[1..], t)
  }

  lemma {:induction false} SmoothIsRun(u: Server, s: Sys, steps: seq<Step>, t: Sys)
    requires SmoothRun(u, s, steps, t)
    ensures Reaches(u, s, steps, t)
    decreases |steps|
  {
    hide Enabled;
    hide Next;
    hide Smooth;
    if steps != [] {
      SmoothIsRun(u, Next(u, s, steps[0]), steps[1..], t);
    }
  }

  lemma {:induction false} SmoothConcat(u: Server, s: Sys, a: seq<Step>, t: Sys, b: seq<Step>, v: Sys)
    requires SmoothRun(u, s, a, t) && SmoothRun(u, t, b, v)
    ensures SmoothRun(u, s, a + b, v)
    decreases |a|
  {
    hide Enabled;
    hide Next;
    hide Smooth;
    if a == [] {
      assert a + b == b;
    } else {
      assert (a + b)[0] == a[0] && (a + b)[1..] == a[1..] + b;
      SmoothConcat(u, Next(u, s, a[0]), a[1..], t, b, v);
    }
  }

  lemma OneStep(u: Server, s: Sys, step: Step)
    requires Enabled(u, s, step) && Smooth(s, step)
    ensures SmoothRun(u, s, [step], Next(u, s, step))
  {
    hide Enabled;
    hide Next;
    hide Smooth;
    assert [step][1..] == [];
    assert SmoothRun(u, Next(u, s, step), [], Next(u, s, step));
  }

  // ---------------------------------------------------------------- live channels

  predicate HeldBy(s: Sys, w: nat, id: nat) {
    Holds(s, w) && HeldId(s, w) == id
  }

  /** A worker holds the channel and is not about to drop it. */
  predicate KeptBy(s: Sys, w: nat, id: nat) {
    HeldBy(s, w, id) && s.jobs[w] != Done(true)
  }

  /** The server still has the channel and is not about to drop it. */
  ghost predicate Live(s: Sys, id: nat) {
    id in s.pool.queue || exists w: nat :: KeptBy(s, w, id)
  }

  /** The writing ends of live channels are open, and those of clients that have not given up. */
  ghost predicate Sound(s: Sys) {
    && (forall id <- s.pool.queue :: id < |s.conns| && s.conns[id].down.open)
    && (forall w: nat :: Holds(s, w) ==>
          s.jobs[w] != NoJob && (s.jobs[w] != Done(true) ==> s.conns[HeldId(s, w)].down.open))
    && (forall id: nat | id < |s.conns| && !s.conns[id].client.Gone? :: s.conns[id].up.open)
  }

  lemma InitSound(cap: nat, numWorkers: nat, maxId: nat, hasCallback: bool)
    ensures Sound(Init(cap, numWorkers, maxId, hasCallback))
  {
  }

  /** A channel that a worker holds is nowhere else. */
  lemma HeldOnly(u: Server, s: Sys, w: nat)
    requires Inv(u, s) && Holds(s, w)
    ensures HeldId(s, w) !in s.pool.queue
    ensures forall v: nat :: Holds(s, v) && HeldId(s, v) == HeldId(s, w) ==> v == w
  {
    hide P.Inv;
    hide Inv;
    OnlyHolder(u, s, w);
    Sizes(u, s);
    P.OneHolder(s.pool, w);
  }

  lemma SoundNext(u: Server, s: Sys, step: Step)
    requires Inv(u, s) && Sound(s) && Enabled(u, s, step)
    ensures Sound(Next(u, s, step))
  {
    hide Inv;
    hide Sound;
    hide Next;
    match step
    case Give(conn, first) => GiveSound(u, s, conn, first);
    case Receive(w, _, _) => WorkSound(u, s, step, w);
    case Execute(w) => WorkSound(u, s, step, w);
    case SendReply(w, _) => WorkSound(u, s, step, w);
    case Arrives(id, _, _) => ClientSound(u, s, step, id);
    case MakeCall(id, _, _) => ClientSound(u, s, step, id);
    case TakeReply(id, _) => ClientSound(u, s, step, id);
    case GiveUp(id) => ClientSound(u, s, step, id);
    case _ => PoolSound(u, s, step);
  }

  lemma PoolSound(u: Server, s: Sys, step: Step)
    requires Inv(u, s) && Sound(s) && Enabled(u, s, step) && (step.Internal? || step.Take? || step.Return? || step.Close?)
    ensures Sound(Next(u, s, step))
  {
    hide Inv;
    hide P.Inv;
    Sizes(u, s);
    var t := Next(u, s, step);
    forall id | id in t.pool.queue
      ensures id < |t.conns| && t.conns[id].down.open
    {
      if id !in s.pool.queue {
        assert step.Return? && id == HeldId(s, step.w);
      }
    }
    forall w: nat | Holds(t, w)
      ensures t.jobs[w] != NoJob && (t.jobs[w] != Done(true) ==> t.conns[HeldId(t, w)].down.open)
    {
      if !Holds(s, w) {
        assert step == Take(w);
      }
    }
  }

  lemma GiveSound(u: Server, s: Sys, conn: Conn, first: Option<Call>)
    requires Inv(u, s) && Sound(s) && Enabled(u, s, Give(conn, first))
    ensures Sound(Next(u, s, Give(conn, first)))
  {
    hide Inv;
    hide P.Inv;
    hide Request;
    hide F.Frame;
    hide Fits;
    Sizes(u, s);
    var t := Next(u, s, Give(conn, first));
    if |t.conns| > |s.conns| {
      assert t.conns[|s.conns|].down.open && t.conns[|s.conns|].up.open;
      forall v: nat | Holds(t, v)
        ensures t.jobs[v] != NoJob && (t.jobs[v] != Done(true) ==> t.conns[HeldId(t, v)].down.open)
      {
        assert Holds(s, v) && HeldId(t, v) == HeldId(s, v);
      }
    }
  }

  /** What a worker does to the channel it holds. */
  lemma WorkSound(u: Server, s: Sys, step: Step, w: nat)
    requires Inv(u, s) && Sound(s) && Enabled(u, s, step)
    requires step == Execute(w) || (step.Receive? && step.w == w) || (step.SendReply? && step.w == w)
    ensures Sound(Next(u, s, step))
  {
    hide Inv;
    hide P.Inv;
    hide Handle;
    hide F.Frame;
    HeldOnly(u, s, w);
    var t, id := Next(u, s, step), HeldId(s, w);
    assert t.conns[id].down.open || t.jobs[w] == Done(true);
    forall v: nat | Holds(t, v)
      ensures t.jobs[v] != NoJob && (t.jobs[v] != Done(true) ==> t.conns[HeldId(t, v)].down.open)
    {
      assert Holds(s, v) && HeldId(t, v) == HeldId(s, v);
    }
  }

  lemma ClientSound(u: Server, s: Sys, step: Step, id: nat)
    requires Inv(u, s) && Sound(s) && Enabled(u, s, step)
    requires (step.Arrives? || step.MakeCall? || step.TakeReply? || step.GiveUp?) && step.id == id
    ensures Sound(Next(u, s, step))
  {
    hide Inv;
    hide P.Inv;
    hide Request;
    hide ClientDecode;
    hide F.Run;
    hide F.Frame;
    hide Fits;
    var t := Next(u, s, step);
    assert id < |t.conns| ==> t.conns[id].down.open == s.conns[id].down.open;
    forall v: nat | Holds(t, v)
      ensures t.jobs[v] != NoJob && (t.jobs[v] != Done(true) ==> t.conns[HeldId(t, v)].down.open)
    {
      assert Holds(s, v) && HeldId(t, v) == HeldId(s, v);
    }
  }

  lemma {:induction false} SoundRun(u: Server, s: Sys, steps: seq<Step>, t: Sys)
    requires ValidServer(u) && Inv(u, s) && Sound(s) && Reaches(u, s, steps, t)
    ensures Inv(u, t) && Sound(t)
    decreases |steps|
  {
    hide Inv;
    hide Next;
    hide Enabled;
    hide Sound;
    if steps != [] {
      NextInv(u, s, steps[0]);
      SoundNext(u, s, steps[0]);
      SoundRun(u, Next(u, s, steps[0]), steps[1..], t);
    }
  }

  // ---------------------------------------------------------------- a worker at work

  /** A worker of a server that goes on. */
  predicate AtWork(s: Sys, w: nat) {
    w < |s.pool.workers| == |s.jobs| && !s.pool.workers[w].Exited? && !s.pool.shouldExit
  }

  /** What worker `w` does next if nothing fails. */
  ghost function Onward(s: Sys, w: nat): Step
    requires AtWork(s, w)
  {
    match s.pool.workers[w]
    case Ready => Take(w)
    case Closing(_) => Internal(P.Decrement(w))
    case Notifying(_) => Internal(P.Notify(w))
    case Holding(_) =>
      (match s.jobs[w]
       case Fresh => Receive(w, false, false)
       case Got(_) => Execute(w)
       case Reply(h) => SendReply(w, if h.reply.None? then 0 else |F.Frame(h.reply.value)|)
       case _ => if s.jobs[w] == Done(true) then Close(w) else Return(w))
    case _ => Internal(P.CheckExit(w))
  }

  /** In how many steps it looks for a channel at the latest. */
  function Toil(s: Sys, w: nat): nat
    requires AtWork(s, w)
  {
    match s.pool.workers[w]
    case Ready => 0
    case Notifying(_) => 2
    case Closing(_) => 3
    case Holding(_) =>
      (match s.jobs[w]
       case Fresh => 7
       case Got(_) => 6
       case Reply(_) => 5
       case _ => 4)
    case _ => 1
  }

  /** What a step of worker `w` leaves as it is. */
  ghost predicate GoesOn(s: Sys, w: nat, t: Sys)
    requires AtWork(s, w)
  {
    && AtWork(t, w) && t.ended == s.ended && |t.conns| == |s.conns|
    && (forall id: nat | id < |s.conns| && !HeldBy(s, w, id) :: t.conns[id] == s.conns[id])
    && (if s.pool.workers[w].Ready? && s.pool.queue != [] then
          t.pool.queue == s.pool.queue[1..] && KeptBy(t, w, s.pool.queue[0]) && t.jobs[w].Fresh?
        else
          s.pool.queue <= t.pool.queue && (s.pool.queue != [] ==> Toil(t, w) < Toil(s, w)))
  }

  lemma Works(u: Server, s: Sys, w: nat)
    requires ValidServer(u) && Inv(u, s) && Sound(s) && AtWork(s, w)
    ensures Enabled(u, s, Onward(s, w)) && Smooth(s, Onward(s, w))
    ensures var t := Next(u, s, Onward(s, w)); Inv(u, t) && Sound(t) && GoesOn(s, w, t)
  {
    hide Inv;
    hide Sound;
    hide Next;
    hide GoesOn;
    hide Enabled;
    hide Smooth;
    WorksEnabled(u, s, w);
    NextInv(u, s, Onward(s, w));
    SoundNext(u, s, Onward(s, w));
    var step := Onward(s, w);
    if step.Receive? || step.Execute? || step.SendReply? {
      WorksOnChannel(u, s, w);
    } else {
      WorksInPool(u, s, w);
    }
  }

  lemma WorksOnChannel(u: Server, s: Sys, w: nat)
    requires Inv(u, s) && Sound(s) && AtWork(s, w) && Enabled(u, s, Onward(s, w))
    requires var step := Onward(s, w); step.Receive? || step.Execute? || step.SendReply?
    ensures GoesOn(s, w, Next(u, s, Onward(s, w)))
  {
    hide Inv;
    hide Handle;
    hide F.Frame;
    hide Put;
  }

  lemma WorksInPool(u: Server, s: Sys, w: nat)
    requires Inv(u, s) && Sound(s) && AtWork(s, w) && Enabled(u, s, Onward(s, w))
    requires var step := Onward(s, w); !step.Receive? && !step.Execute? && !step.SendReply?
    ensures GoesOn(s, w, Next(u, s, Onward(s, w)))
  {
    hide Inv;
    hide Unused;
    hide ValidCall;
    hide Fits;
    hide Request;
    hide Given;
    hide Put;
    hide Handle;
    hide ClientDecode;
    hide Arrive;
    if s.pool.queue != [] {
      assert s.pool.queue[0] in s.pool.queue;
    }
  }

  lemma HasJob(u: Server, s: Sys, w: nat)
    requires Inv(u, s) && Sound(s) && w < |s.pool.workers| && s.pool.workers[w].Holding?
    ensures Holds(s, w) && s.jobs[w] != NoJob
  {
    hide Inv;
    Sizes(u, s);
    assert Holds(s, w);
  }

  lemma WorksEnabled(u: Server, s: Sys, w: nat)
    requires Inv(u, s) && Sound(s) && AtWork(s, w)
    ensures Enabled(u, s, Onward(s, w)) && Smooth(s, Onward(s, w))
  {
    hide Inv;
    hide Sound;
    hide F.Frame;
    hide Unused;
    hide ValidCall;
    hide Fits;
    hide Request;
    if s.pool.workers[w].Holding? {
      HasJob(u, s, w);
    }
  }

  /** A queued channel is taken by any worker that goes on long enough, and nothing has happened to it. */
  lemma {:induction false} QueuedTaken(u: Server, s: Sys, w: nat, k: nat) returns (steps: seq<Step>, t: Sys)
    requires ValidServer(u) && Inv(u, s) && Sound(s) && AtWork(s, w) && k < |s.pool.queue|
    ensures SmoothRun(u, s, steps, t) && Inv(u, t) && Sound(t) && AtWork(t, w)
    ensures KeptBy(t, w, s.pool.queue[k]) && t.jobs[w].Fresh?
    ensures s.pool.queue[k] < |s.conns| == |t.conns| && t.conns[s.pool.queue[k]] == s.conns[s.pool.queue[k]]
    ensures t.ended == s.ended
    decreases k, Toil(s, w)
  {
    var id, step := s.pool.queue[k], Onward(s, w);
    Works(u, s, w);
    if Holds(s, w) {
      HeldOnly(u, s, w);
    }
    assert id in s.pool.queue && id < |s.conns| && !HeldBy(s, w, id);
    var s' := Next(u, s, step);
    assert Toil(s', w) < Toil(s, w) || s.pool.workers[w].Ready?;
    hide Toil;
    hide Inv;
    hide Sound;
    hide Enabled;
    hide Smooth;
    hide Next;
    hide SmoothRun;
    OneStep(u, s, step);
    steps, t := [step], s';
    if !s.pool.workers[w].Ready? {
      steps, t := QueuedTaken(u, s', w, k);
      SmoothConcat(u, s, [step], s', steps, t);
      steps := [step] + steps;
    } else if k > 0 {
      steps, t := QueuedTaken(u, s', w, k - 1);
      SmoothConcat(u, s, [step], s', steps, t);
      steps := [step] + steps;
    }
  }

  // ---------------------------------------------------------------- an answer

  /**
   * The last call on channel `id` has returned with the outcome its caller was owed, from the endpoint run made for it.
   * None is owed only if that run returned something of a type that the endpoint does not declare.
   */
  ghost predicate Settled(u: Server, s: Sys, t: Sys, id: nat)
    requires id < |s.conns|
  {
    var conn, call := s.conns[id], s.conns[id].Last();
    && id < |t.conns| && t.conns[id].calls == conn.calls && t.conns[id].maxMsg == conn.maxMsg
    && var n := t.conns[id].servedAs;
       && (Invokes(u, call) ==> n < |t.execs| && t.execs[n] == Exec(id, |conn.calls|))
       && match Expected(Over(u, conn.maxMsg), n, id, call)
          case None => t.ended == s.ended
          case Some(outcome) =>
            && t.conns[id].client.Free?
            && t.ended == s.ended + [Ended(id, |conn.calls|, conn.maxMsg, call, Answered(outcome, n))]
  }

  /** Nothing that concerns the last call on a channel has changed. */
  predicate SameCallOpen(s: Sys, t: Sys, id: nat)
    requires id < |s.conns|
  {
    && id < |t.conns| && t.conns[id].calls == s.conns[id].calls && t.conns[id].maxMsg == s.conns[id].maxMsg
    && t.ended == s.ended
  }

  lemma Onwards(u: Server, s: Sys, a: seq<Step>, s': Sys, b: seq<Step>, t: Sys, id: nat)
    requires id < |s.conns| && SmoothRun(u, s, a, s') && SmoothRun(u, s', b, t)
    requires SameCallOpen(s, s', id) && Settled(u, s', t, id)
    ensures SmoothRun(u, s, a + b, t) && Settled(u, s, t, id)
  {
    hide SmoothRun;
    hide Expected;
    hide Invokes;
    SmoothConcat(u, s, a, s', b, t);
  }

  /** All that is on a wire has arrived. */
  function Arrived(s: Sys, id: nat, toServer: bool): Sys
    requires id < |s.conns| && s.conns[id].Config().Valid()
  {
    var conn := s.conns[id];
    var c := if toServer then conn.(up := Arrive(conn.Config(), conn.up, |conn.up.wire|))
             else conn.(down := Arrive(conn.Config(), conn.down, |conn.down.wire|));
    s.(conns := s.conns[id := c])
  }

  lemma ArrivalStep(u: Server, s: Sys, id: nat, toServer: bool)
    requires id < |s.conns| && s.conns[id].Config().Valid()
    ensures var step := Arrives(id, toServer, |(if toServer then s.conns[id].up else s.conns[id].down).wire|);
            Enabled(u, s, step) && Smooth(s, step) && Next(u, s, step) == Arrived(s, id, toServer)
  {
    hide Arrive;
  }

  lemma AllArrives(u: Server, s: Sys, id: nat, toServer: bool) returns (steps: seq<Step>, t: Sys)
    requires ValidServer(u) && Inv(u, s) && Sound(s) && id < |s.conns|
    ensures s.conns[id].Config().Valid() && t == Arrived(s, id, toServer)
    ensures SmoothRun(u, s, steps, t) && Inv(u, t) && Sound(t)
    ensures var c, c' := s.conns[id], t.conns[id];
            && ToServer(c') == ToServer(c) && ToClient(c') == ToClient(c)
            && (if toServer then c'.up.st.queue == ToServer(c) else c'.down.st.queue == ToClient(c))
  {
    var conn := s.conns[id];
    ConnAt(u, s, id);
    var pipe := if toServer then conn.up else conn.down;
    ArriveLaws(conn.Config(), pipe, |pipe.wire|);
    WireRead(conn.Config(), pipe);
    ArrivalStep(u, s, id, toServer);
    hide Inv;
    hide Sound;
    hide SmoothRun;
    hide Enabled;
    hide Smooth;
    hide Next;
    hide OnWay;
    hide Arrive;
    hide ConnOk;
    var step := Arrives(id, toServer, |pipe.wire|);
    NextInv(u, s, step);
    SoundNext(u, s, step);
    OneStep(u, s, step);
    steps, t := [step], Next(u, s, step);
  }

  lemma WireRead(c: F.Config, p: Pipe)
    requires c.Valid()
    ensures OnWay(c, Arrive(c, p, |p.wire|)) == Arrive(c, p, |p.wire|).st.queue
  {
    hide F.Run;
    var p' := Arrive(c, p, |p.wire|);
    assert p'.wire == [] && p'.st.queue + [] == p'.st.queue;
  }

  /** The client takes the reply at the front of its queue. */
  lemma TakeNext(u: Server, s: Sys, id: nat)
    requires id < |s.conns| && s.conns[id].client.Waiting? && s.conns[id].down.st.queue != []
    ensures Enabled(u, s, TakeReply(id, [])) && Smooth(s, TakeReply(id, []))
    ensures var conn := s.conns[id];
            var how := Answered(ClientDecode(conn.down.st.queue[0] + []), conn.servedAs);
            Next(u, s, TakeReply(id, []))
            == s.(conns := s.conns[id := conn.(down := Rest(conn.down), client := Free)],
                  ended := s.ended + [Ended(id, |conn.calls|, conn.maxMsg, conn.Last(), how)])
  {
    hide ClientDecode;
  }

  /** It is the outcome owed. */
  lemma FrontIsOwed(u: Server, s: Sys, id: nat)
    requires ValidServer(u) && Inv(u, s) && id < |s.conns| && s.conns[id].down.st.queue != []
    ensures var conn := s.conns[id];
            && Expected(Over(u, conn.maxMsg), conn.servedAs, id, conn.Last())
               == Some(ClientDecode(conn.down.st.queue[0] + []))
            && (Invokes(u, conn.Last()) ==>
                  conn.servedAs < |s.execs| && s.execs[conn.servedAs] == Exec(id, |conn.calls|))
  {
    var conn := s.conns[id];
    ConnAt(u, s, id);
    hide Inv;
    RestLaws(conn.Config(), conn.down);
    OverValid(u, conn.maxMsg);
    CallRoundTrip(Over(u, conn.maxMsg), conn.servedAs, id, conn.Last(), []);
    InvokesOver(u, conn.maxMsg, conn.Last());
    hide OnWay;
    hide Handle;
    hide Request;
    hide ClientDecode;
    hide Expected;
    hide Invokes;
  }

  lemma TakeStep(u: Server, s: Sys, id: nat)
    requires ValidServer(u) && Inv(u, s) && id < |s.conns|
    requires s.conns[id].client.Waiting? && s.conns[id].down.st.queue != []
    ensures Enabled(u, s, TakeReply(id, [])) && Smooth(s, TakeReply(id, []))
    ensures Settled(u, s, Next(u, s, TakeReply(id, [])), id)
  {
    hide Inv;
    hide Next;
    hide Enabled;
    hide Smooth;
    hide ClientDecode;
    hide Expected;
    hide Invokes;
    TakeNext(u, s, id);
    FrontIsOwed(u, s, id);
  }

  /** A reply on its way is taken, and is the outcome owed. */
  lemma ReplyTaken(u: Server, s: Sys, id: nat) returns (steps: seq<Step>, t: Sys)
    requires ValidServer(u) && Inv(u, s) && Sound(s) && id < |s.conns| && s.conns[id].client.Waiting?
    requires s.conns[id].Config().Valid() && ToClient(s.conns[id]) != []
    ensures SmoothRun(u, s, steps, t) && Settled(u, s, t, id)
  {
    hide Inv;
    hide Sound;
    hide SmoothRun;
    hide Enabled;
    hide Smooth;
    hide Next;
    hide OnWay;
    hide Arrive;
    hide Settled;
    var s';
    steps, s' := AllArrives(u, s, id, false);
    TakeStep(u, s', id);
    OneStep(u, s', TakeReply(id, []));
    t := Next(u, s', TakeReply(id, []));
    Onwards(u, s, steps, s', [TakeReply(id, [])], t, id);
    steps := steps + [TakeReply(id, [])];
  }

  /** A worker sends its reply. */
  lemma SendNext(u: Server, s: Sys, w: nat, id: nat, taken: nat)
    requires KeptBy(s, w, id) && s.jobs[w].Reply? && s.jobs[w].h.reply.Some?
    requires taken >= |F.Frame(s.jobs[w].h.reply.value)|
    ensures var step, h, conn := SendReply(w, taken), s.jobs[w].h, s.conns[id];
            && Enabled(u, s, step) && Smooth(s, step)
            && var (sent, down) := Put(conn.Config(), conn.down, h.reply.value, taken);
               Next(u, s, step) == s.(jobs := s.jobs[w := Done(Drops(h, sent))], conns := s.conns[id := conn.(down := down)])
  {
    hide F.Frame;
    hide Put;
  }

  /** What a worker's reply finds: nothing else on its way, and an open end to write to. */
  lemma ReplyReady(u: Server, s: Sys, w: nat, id: nat)
    requires ValidServer(u) && Inv(u, s) && Sound(s) && KeptBy(s, w, id) && s.jobs[w].Reply? && s.jobs[w].h.reply.Some?
    ensures var c := s.conns[id];
            && c.Config().Valid() && Ok(c.Config(), c.down) && OnWay(c.Config(), c.down) == [] && c.down.open
            && 1 <= |s.jobs[w].h.reply.value| <= c.maxMsg && c.depth > 0
  {
    var conn, h := s.conns[id], s.jobs[w].h;
    ConnAt(u, s, id);
    JobAt(u, s, w);
    hide Inv;
    OverValid(u, conn.maxMsg);
    CallRoundTrip(Over(u, conn.maxMsg), conn.servedAs, id, conn.Last(), []);
    hide Handle;
    hide Request;
    hide Expected;
    hide ClientDecode;
    hide OnWay;
    hide Ok;
  }

  lemma SendStep(u: Server, s: Sys, w: nat, id: nat, taken: nat)
    requires ValidServer(u) && Inv(u, s) && Sound(s) && KeptBy(s, w, id) && s.jobs[w].Reply? && s.jobs[w].h.reply.Some?
    requires s.conns[id].client.Waiting? && taken >= |F.Frame(s.jobs[w].h.reply.value)|
    ensures var step := SendReply(w, taken);
            && Enabled(u, s, step) && Smooth(s, step)
            && var t := Next(u, s, step);
               && SameCallOpen(s, t, id) && t.conns[id].client.Waiting? && t.conns[id].Config().Valid()
               && ToClient(t.conns[id]) != [] && t.jobs == s.jobs[w := Done(s.jobs[w].h.close)]
               && t == s.(jobs := t.jobs, conns := s.conns[id := t.conns[id]])
  {
    hide Inv;
    hide Sound;
    hide Next;
    hide Enabled;
    hide Smooth;
    hide F.Frame;
    hide Put;
    hide OnWay;
    hide Ok;
    var conn, h := s.conns[id], s.jobs[w].h;
    SendNext(u, s, w, id, taken);
    ReplyReady(u, s, w, id);
    PutLaws(conn.Config(), conn.down, h.reply.value, taken);
    PutSends(conn.Config(), conn.down, h.reply.value, taken);
  }

  /** Into an open pipe with nothing on its way a whole message can be sent. */
  lemma PutSends(c: F.Config, p: Pipe, msg: bytes, taken: nat)
    requires Ok(c, p) && p.open && OnWay(c, p) == [] && taken >= |F.Frame(msg)|
    ensures Put(c, p, msg, taken).0
  {
    hide F.Frame;
  }

  lemma Replied(u: Server, s: Sys, w: nat, id: nat) returns (steps: seq<Step>, t: Sys)
    requires ValidServer(u) && Inv(u, s) && Sound(s) && KeptBy(s, w, id) && s.jobs[w].Reply?
    requires s.conns[id].client.Waiting?
    ensures SmoothRun(u, s, steps, t) && Settled(u, s, t, id)
  {
    hide P.Inv;
    hide Enabled;
    hide Smooth;
    hide Next;
    hide OnWay;
    var h := s.jobs[w].h;
    if h.reply.None? {
      NothingOwed(u, s, w, id);
      steps, t := [], s;
    } else {
      var step := SendReply(w, |F.Frame(h.reply.value)|);
      SendStep(u, s, w, id, |F.Frame(h.reply.value)|);
      NextInv(u, s, step);
      SoundNext(u, s, step);
      OneStep(u, s, step);
      var s' := Next(u, s, step);
      hide Inv;
      hide Sound;
      hide SmoothRun;
      hide Settled;
      steps, t := ReplyTaken(u, s', id);
      Onwards(u, s, [step], s', steps, t, id);
      steps := [step] + steps;
    }
  }

  lemma NothingOwed(u: Server, s: Sys, w: nat, id: nat)
    requires ValidServer(u) && Inv(u, s) && KeptBy(s, w, id) && s.jobs[w].Reply? && s.jobs[w].h.reply.None?
    ensures Settled(u, s, s, id)
  {
    var conn := s.conns[id];
    ConnAt(u, s, id);
    JobAt(u, s, w);
    OverValid(u, conn.maxMsg);
    CallRoundTrip(Over(u, conn.maxMsg), conn.servedAs, id, conn.Last(), []);
    InvokesOver(u, conn.maxMsg, conn.Last());
    hide Inv;
    hide Handle;
    hide Request;
    hide Expected;
    hide Invokes;
  }

  lemma Executed(u: Server, s: Sys, w: nat, id: nat) returns (steps: seq<Step>, t: Sys)
    requires ValidServer(u) && Inv(u, s) && Sound(s) && KeptBy(s, w, id) && s.jobs[w].Got?
    requires s.conns[id].client.Waiting?
    ensures SmoothRun(u, s, steps, t) && Settled(u, s, t, id)
  {
    ExecuteStep(u, s, w, id);
    hide Inv;
    hide Sound;
    hide Enabled;
    hide Smooth;
    hide Next;
    hide SmoothRun;
    hide Settled;
    var step := Execute(w);
    NextInv(u, s, step);
    SoundNext(u, s, step);
    OneStep(u, s, step);
    var s' := Next(u, s, step);
    steps, t := Replied(u, s', w, id);
    Onwards(u, s, [step], s', steps, t, id);
    steps := [step] + steps;
  }

  lemma ExecuteStep(u: Server, s: Sys, w: nat, id: nat)
    requires KeptBy(s, w, id) && s.jobs[w].Got?
    ensures Enabled(u, s, Execute(w)) && Smooth(s, Execute(w))
    ensures var t := Next(u, s, Execute(w));
            KeptBy(t, w, id) && t.jobs[w].Reply? && SameCallOpen(s, t, id) && t.conns[id].client == s.conns[id].client
  {
    hide Handle;
  }

  lemma ReceiveStep(u: Server, s: Sys, w: nat, id: nat)
    requires KeptBy(s, w, id) && s.jobs[w].Fresh? && s.conns[id].up.st.queue != []
    ensures Enabled(u, s, Receive(w, false, false)) && Smooth(s, Receive(w, false, false))
    ensures var t := Next(u, s, Receive(w, false, false));
            KeptBy(t, w, id) && t.jobs[w].Got? && SameCallOpen(s, t, id) && t.conns[id].client == s.conns[id].client
  {
  }

  lemma Received(u: Server, s: Sys, w: nat, id: nat) returns (steps: seq<Step>, t: Sys)
    requires ValidServer(u) && Inv(u, s) && Sound(s) && KeptBy(s, w, id) && s.jobs[w].Fresh?
    requires s.conns[id].client.Waiting? && s.conns[id].Config().Valid() && ToServer(s.conns[id]) != []
    ensures SmoothRun(u, s, steps, t) && Settled(u, s, t, id)
  {
    hide Inv;
    hide Sound;
    hide Enabled;
    hide Smooth;
    hide Next;
    hide SmoothRun;
    hide Settled;
    hide OnWay;
    hide Arrive;
    var step, s' := Receive(w, false, false), s;
    var arrive;
    arrive, s' := AllArrives(u, s, id, true);
    assert KeptBy(s', w, id) && SameCallOpen(s, s', id);
    ReceiveStep(u, s', w, id);
    NextInv(u, s', step);
    SoundNext(u, s', step);
    OneStep(u, s', step);
    var v := Next(u, s', step);
    steps, t := Executed(u, v, w, id);
    Onwards(u, s', [step], v, steps, t, id);
    Onwards(u, s, arrive, s', [step] + steps, t, id);
    steps := arrive + ([step] + steps);
  }

  // ---------------------------------------------------------------- every open call can be answered

  /** A worker has taken the last call's request, or has the reply. */
  predicate ServedBy(s: Sys, w: nat, id: nat) {
    HeldBy(s, w, id) && (s.jobs[w].Got? || s.jobs[w].Reply?)
  }

  /**
   * The client waits for a reply that can still come: it is on its way, or a worker has it or its request, or its
   * request is on its way and the server still has the channel.
   */
  ghost predicate Pending(s: Sys, id: nat) {
    && id < |s.conns| && s.conns[id].client.Waiting? && s.conns[id].Config().Valid()
    && (|| ToClient(s.conns[id]) != []
        || (exists w: nat :: ServedBy(s, w, id))
        || (ToServer(s.conns[id]) != [] && Live(s, id)))
  }

  /** A worker that holds the channel with the request still on its way serves it, now or when its turn comes again. */
  lemma Kept(u: Server, s: Sys, w: nat, id: nat) returns (steps: seq<Step>, t: Sys)
    requires ValidServer(u) && Inv(u, s) && Sound(s) && KeptBy(s, w, id) && AtWork(s, w)
    requires s.conns[id].client.Waiting? && s.conns[id].Config().Valid() && ToServer(s.conns[id]) != []
    ensures SmoothRun(u, s, steps, t) && Settled(u, s, t, id)
  {
    hide OnWay;
    if s.jobs[w].Fresh? {
      steps, t := Received(u, s, w, id);
    } else if s.jobs[w].Got? {
      steps, t := Executed(u, s, w, id);
    } else if s.jobs[w].Reply? {
      steps, t := Replied(u, s, w, id);
    } else {
      ReturnStep(u, s, w, id);
      NextInv(u, s, Return(w));
      SoundNext(u, s, Return(w));
      OneStep(u, s, Return(w));
      hide Inv;
      hide Sound;
      hide Enabled;
      hide Smooth;
      hide Next;
      hide SmoothRun;
      hide Settled;
      var s' := Next(u, s, Return(w));
      steps, t := Queued(u, s', w, |s.pool.queue|, id);
      Onwards(u, s, [Return(w)], s', steps, t, id);
      steps := [Return(w)] + steps;
    }
  }

  /** There is always room to put a channel back, behind all others. */
  lemma PutBackStep(u: Server, s: Sys, w: nat)
    requires Inv(u, s) && Enabled(u, s, Return(w))
    ensures var t := Next(u, s, Return(w));
            && t == s.(pool := t.pool, jobs := s.jobs[w := NoJob])
            && t.pool == s.pool.(queue := s.pool.queue + [HeldId(s, w)], workers := s.pool.workers[w := P.Idle])
  {
    hide Inv;
    hide P.Inv;
    Sizes(u, s);
    P.RoomToPutBack(s.pool, w);
  }

  lemma ReturnStep(u: Server, s: Sys, w: nat, id: nat)
    requires Inv(u, s) && KeptBy(s, w, id) && AtWork(s, w) && s.jobs[w] == Done(false)
    ensures Enabled(u, s, Return(w)) && Smooth(s, Return(w))
    ensures var t := Next(u, s, Return(w));
            AtWork(t, w) && t.pool.queue == s.pool.queue + [id] && t.conns == s.conns && t.ended == s.ended
  {
    hide Inv;
    assert Enabled(u, s, Return(w)) && Smooth(s, Return(w));
    PutBackStep(u, s, w);
    hide Next;
  }

  lemma Queued(u: Server, s: Sys, w: nat, k: nat, id: nat) returns (steps: seq<Step>, t: Sys)
    requires ValidServer(u) && Inv(u, s) && Sound(s) && AtWork(s, w) && k < |s.pool.queue| && s.pool.queue[k] == id
    requires id < |s.conns|
    requires s.conns[id].client.Waiting? && s.conns[id].Config().Valid() && ToServer(s.conns[id]) != []
    ensures SmoothRun(u, s, steps, t) && Settled(u, s, t, id)
  {
    hide Inv;
    hide Sound;
    hide SmoothRun;
    hide Settled;
    hide OnWay;
    var a, s' := QueuedTaken(u, s, w, k);
    var b;
    b, t := Received(u, s', w, id);
    Onwards(u, s, a, s', b, t, id);
    steps := a + b;
  }

  lemma PendingAnswered(u: Server, s: Sys, id: nat, w0: nat) returns (steps: seq<Step>, t: Sys)
    requires ValidServer(u) && Inv(u, s) && Sound(s) && AtWork(s, w0) && Pending(s, id)
    ensures SmoothRun(u, s, steps, t) && Settled(u, s, t, id)
  {
    hide SmoothRun;
    hide Settled;
    hide OnWay;
    if ToClient(s.conns[id]) != [] {
      steps, t := ReplyTaken(u, s, id);
    } else if w: nat :| ServedBy(s, w, id) {
      if s.jobs[w].Got? {
        steps, t := Executed(u, s, w, id);
      } else {
        steps, t := Replied(u, s, w, id);
      }
    } else if id in s.pool.queue {
      var k: nat :| k < |s.pool.queue| && s.pool.queue[k] == id;
      steps, t := Queued(u, s, w0, k, id);
    } else {
      var w: nat :| KeptBy(s, w, id);
      steps, t := Kept(u, s, w, id);
    }
  }

  /** What is known of every state a server with workers gets to before it is told to exit. */
  lemma Reached(u: Server, cap: nat, numWorkers: nat, maxId: nat, hasCallback: bool, run: seq<Step>, s: Sys)
    requires ValidServer(u) && Reaches(u, Init(cap, numWorkers, maxId, hasCallback), run, s)
    ensures Inv(u, s) && Sound(s)
    ensures forall w: nat | w < numWorkers && !s.pool.shouldExit :: AtWork(s, w)
  {
    hide Inv;
    hide Sound;
    hide P.Inv;
    hide P.Reaches;
    InitInv(u, cap, numWorkers, maxId, hasCallback);
    InitSound(cap, numWorkers, maxId, hasCallback);
    SoundRun(u, Init(cap, numWorkers, maxId, hasCallback), run, s);
    Sizes(u, s);
    var acts := PoolRun(u, Init(cap, numWorkers, maxId, hasCallback), run, s);
    P.InitInv(cap, numWorkers, maxId, hasCallback);
    P.RunInv(P.Init(cap, numWorkers, maxId, hasCallback), acts, s.pool);
    P.WorkersStay(P.Init(cap, numWorkers, maxId, hasCallback), acts, s.pool);
    forall w: nat | w < numWorkers && !s.pool.shouldExit
      ensures AtWork(s, w)
    {
      assert s.pool.workers[w] in s.pool.workers;
    }
  }

  /**
   * In every state of every run, as long as exit is not requested, a call whose request or reply is in the system can
   * be answered: some run without failures, in which the client does not give up, gives its caller what it is owed.
   */
  lemma Answerable(u: Server, cap: nat, numWorkers: nat, maxId: nat, hasCallback: bool, run: seq<Step>, s: Sys, id: nat)
    returns (steps: seq<Step>, t: Sys)
    requires ValidServer(u) && Reaches(u, Init(cap, numWorkers, maxId, hasCallback), run, s)
    requires numWorkers > 0 && !s.pool.shouldExit && Pending(s, id)
    ensures SmoothRun(u, s, steps, t) && Settled(u, s, t, id)
  {
    hide Pending;
    hide SmoothRun;
    hide Settled;
    hide Reaches;
    Reached(u, cap, numWorkers, maxId, hasCallback, run, s);
    steps, t := PendingAnswered(u, s, id, 0);
  }

  lemma CallNext(u: Server, s: Sys, id: nat, call: Call, taken: nat)
    requires id < |s.conns| && s.conns[id].client.Free? && ValidCall(call) && Fits(s.conns[id].maxMsg, call)
    requires taken >= |F.Frame(Request(call))|
    requires Put(s.conns[id].Config(), s.conns[id].up, Request(call), taken).0
    ensures var step, conn := MakeCall(id, call, taken), s.conns[id];
            && Enabled(u, s, step) && Smooth(s, step)
            && var up := Put(conn.Config(), conn.up, Request(call), taken).1;
               Next(u, s, step)
               == s.(conns := s.conns[id := conn.(up := up, client := Waiting, calls := conn.calls + [call])])
  {
    hide F.Frame;
    hide Request;
    hide Put;
  }

  /** A call that fits is on its way once it is written whole. */
  lemma CallStep(u: Server, s: Sys, id: nat, call: Call, taken: nat)
    requires ValidServer(u) && Inv(u, s) && Sound(s) && id < |s.conns| && s.conns[id].client.Free?
    requires ValidCall(call) && Fits(s.conns[id].maxMsg, call) && taken >= |F.Frame(Request(call))|
    ensures var step := MakeCall(id, call, taken);
            && Enabled(u, s, step) && Smooth(s, step)
            && var t, conn := Next(u, s, step), s.conns[id];
               && t == s.(conns := s.conns[id := t.conns[id]])
               && t.conns[id].Config().Valid() && ToServer(t.conns[id]) != [] && t.conns[id].client.Waiting?
               && (Live(s, id) ==> Pending(t, id))
               && t.conns[id].calls == conn.calls + [call] && t.conns[id].maxMsg == conn.maxMsg
  {
    hide Request;
    hide F.Frame;
    hide Handle;
    hide Next;
    hide Enabled;
    hide Smooth;
    hide Put;
    hide OnWay;
    hide Ok;
    var conn := s.conns[id];
    CallReady(u, s, id);
    hide Inv;
    RequestNotEmpty(call);
    PutLaws(conn.Config(), conn.up, Request(call), taken);
    PutSends(conn.Config(), conn.up, Request(call), taken);
    CallNext(u, s, id, call, taken);
    var t := Next(u, s, MakeCall(id, call, taken));
    if w: nat :| KeptBy(s, w, id) {
      assert KeptBy(t, w, id);
    }
  }

  /** What a call finds: nothing else on its way, and an open end to write to. */
  lemma CallReady(u: Server, s: Sys, id: nat)
    requires Inv(u, s) && Sound(s) && id < |s.conns| && s.conns[id].client.Free?
    ensures var c := s.conns[id];
            c.Config().Valid() && Ok(c.Config(), c.up) && OnWay(c.Config(), c.up) == [] && c.up.open && c.depth > 0
  {
    ConnAt(u, s, id);
  }

  /**
   * A client that may call gets an answer: over a channel that the server still has, some run that begins with its
   * call, and in which nothing fails, ends with the outcome it is owed.
   */
  lemma CallAnswered(u: Server, cap: nat, numWorkers: nat, maxId: nat, hasCallback: bool, run: seq<Step>, s: Sys,
                     id: nat, call: Call)
    returns (steps: seq<Step>, t: Sys)
    requires ValidServer(u) && Reaches(u, Init(cap, numWorkers, maxId, hasCallback), run, s)
    requires numWorkers > 0 && !s.pool.shouldExit && id < |s.conns| && s.conns[id].client.Free? && Live(s, id)
    requires ValidCall(call) && |Request(call)| <= s.conns[id].maxMsg
    ensures var first := MakeCall(id, call, |F.Frame(Request(call))|);
            SmoothRun(u, s, [first] + steps, t)
    ensures var serial, maxMsg := |s.conns[id].calls| + 1, s.conns[id].maxMsg;
            && id < |t.conns|
            && var n := t.conns[id].servedAs;
               && (Invokes(u, call) ==> n < |t.execs| && t.execs[n] == Exec(id, serial))
               && match Expected(Over(u, maxMsg), n, id, call)
                  case None => t.ended == s.ended
                  case Some(outcome) =>
                    t.ended == s.ended + [Ended(id, serial, maxMsg, call, Answered(outcome, n))]
  {
    hide Inv;
    hide Sound;
    hide Enabled;
    hide Smooth;
    hide Next;
    hide SmoothRun;
    hide Reaches;
    hide Live;
    hide Pending;
    hide F.Frame;
    hide Request;
    Reached(u, cap, numWorkers, maxId, hasCallback, run, s);
    var first := MakeCall(id, call, |F.Frame(Request(call))|);
    CallStep(u, s, id, call, |F.Frame(Request(call))|);
    NextInv(u, s, first);
    SoundNext(u, s, first);
    OneStep(u, s, first);
    var s' := Next(u, s, first);
    Sizes(u, s');
    assert AtWork(s, 0) && AtWork(s', 0);
    steps, t := PendingAnswered(u, s', id, 0);
    SmoothConcat(u, s, [first], s', steps, t);
  }

  // ---------------------------------------------------------------- how a call is lost

  /** A step in which client `id` gives up waiting, or in which its request is cut short. */
  ghost predicate Loses(s: Sys, step: Step, e: Ended) {
    && e.id < |s.conns|
    && var conn := s.conns[e.id];
       match step
       case GiveUp(id) => id == e.id && conn.client.Waiting? && e.call == conn.Last() && e.serial == |conn.calls|
       case MakeCall(id, call, taken) =>
         && id == e.id && call == e.call && e.serial == |conn.calls| + 1
         && conn.up.framed && taken < 6 + |Request(call)|
       case _ => false
  }

  lemma LostStep(u: Server, s: Sys, step: Step)
    requires ValidServer(u) && Inv(u, s) && Sound(s) && Enabled(u, s, step)
    ensures var t := Next(u, s, step);
            && s.ended <= t.ended && |t.ended| <= |s.ended| + 1
            && (|t.ended| > |s.ended| && t.ended[|s.ended|].how.Lost? ==> Loses(s, step, t.ended[|s.ended|]))
  {
    hide P.Inv;
    hide Handle;
    hide Request;
    hide ClientDecode;
    if step.MakeCall? {
      var conn := s.conns[step.id];
      ConnAt(u, s, step.id);
      FrameLength(Request(step.call));
    }
    hide Inv;
    hide F.Frame;
  }

  lemma FrameLength(msg: bytes)
    ensures |F.Frame(msg)| == 6 + |msg|
  {
  }

  /** A call that was sent ends without an answer only when its client gives up waiting or its request is cut short. */
  lemma LostOnlyIf(u: Server, cap: nat, numWorkers: nat, maxId: nat, hasCallback: bool, run: seq<Step>, t: Sys, k: nat)
    returns (i: nat, s: Sys)
    requires ValidServer(u) && Reaches(u, Init(cap, numWorkers, maxId, hasCallback), run, t)
    requires k < |t.ended| && t.ended[k].how.Lost?
    ensures i < |run| && Reaches(u, Init(cap, numWorkers, maxId, hasCallback), run[..i], s) && Enabled(u, s, run[i])
    ensures Loses(s, run[i], t.ended[k]) && s.ended == t.ended[..k]
  {
    InitInv(u, cap, numWorkers, maxId, hasCallback);
    InitSound(cap, numWorkers, maxId, hasCallback);
    i, s := LostIn(u, Init(cap, numWorkers, maxId, hasCallback), run, t, k);
  }

  lemma {:induction false} LostIn(u: Server, s: Sys, run: seq<Step>, t: Sys, k: nat) returns (i: nat, mid: Sys)
    requires ValidServer(u) && Inv(u, s) && Sound(s) && Reaches(u, s, run, t)
    requires |s.ended| <= k < |t.ended| && t.ended[k].how.Lost?
    ensures i < |run| && Reaches(u, s, run[..i], mid) && Enabled(u, mid, run[i])
    ensures Loses(mid, run[i], t.ended[k]) && mid.ended == t.ended[..k]
    decreases |run|
  {
    hide Inv;
    hide Sound;
    hide Enabled;
    hide Next;
    hide Loses;
    var s' := Next(u, s, run[0]);
    LostStep(u, s, run[0]);
    NextInv(u, s, run[0]);
    SoundNext(u, s, run[0]);
    EndedGrows(u, s', run[1..], t);
    if |s'.ended| > k {
      i, mid := 0, s;
      assert run[..0] == [];
    } else {
      i, mid := LostIn(u, s', run[1..], t, k);
      assert run[..i + 1][1..] == run[1..][..i] && run[..i + 1][0] == run[0];
      i := i + 1;
    }
  }

  lemma {:induction false} EndedGrows(u: Server, s: Sys, run: seq<Step>, t: Sys)
    requires ValidServer(u) && Inv(u, s) && Sound(s) && Reaches(u, s, run, t)
    ensures s.ended <= t.ended
    decreases |run|
  {
    hide Inv;
    hide Sound;
    hide Enabled;
    hide Next;
    if run != [] {
      LostStep(u, s, run[0]);
      NextInv(u, s, run[0]);
      SoundNext(u, s, run[0]);
      EndedGrows(u, Next(u, s, run[0]), run[1..], t);
    }
  }
}

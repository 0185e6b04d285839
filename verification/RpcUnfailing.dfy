/**
 * Runs of the system in which nothing fails: no client is forgotten, and only an endpoint that asks for it, or returns
 * what it does not declare, ends a connection.
 */
module RpcUnfailing {
  import opened Bytes
  import opened RpcMessages
  import opened RpcTheorems
  import opened Pipe
  import opened RpcSystem
  import opened RpcLiveness
  import F = Framing
  import P = WorkerPool

  // ---------------------------------------------------------------- what ends a connection

  /**
   * Endpoint run `n` was made for a call over channel `id`, and asked to disconnect or returned what it does not
   * declare.
   */
  predicate Closes(u: Server, s: Sys, id: nat, n: nat) {
    && id < |s.conns| && n < |s.execs| && s.execs[n].id == id && 1 <= s.execs[n].serial <= |s.conns[id].calls|
    && var c, over := s.conns[id].calls[s.execs[n].serial - 1], Over(u, s.conns[id].maxMsg);
       AsksToDisconnect(over, n, id, c) || Expected(over, n, id, c).None?
  }

  ghost predicate ClosedByCall(u: Server, s: Sys, id: nat) {
    exists n: nat :: Closes(u, s, id, n)
  }

  /** In runs without failures every channel is live, or one of its calls has closed it; and no client is forgotten. */
  ghost predicate Unfailing(u: Server, s: Sys) {
    && !s.pool.shouldExit
    && (forall id: nat | id < |s.conns| :: Live(s, id) || ClosedByCall(u, s, id))
    && (forall id: nat | id < |s.conns| :: Remembered(u, s, id))
  }

  ghost predicate Remembered(u: Server, s: Sys, id: nat)
    requires id < |s.conns|
  {
    && !s.conns[id].client.Gone?
    && (s.conns[id].client.Waiting? ==>
          && s.conns[id].Config().Valid()
          && (|| ToServer(s.conns[id]) != [] || ToClient(s.conns[id]) != []
              || (exists w: nat :: ServedBy(s, w, id)) || ClosedByCall(u, s, id)))
  }

  /** What is on record of closed channels stays. */
  lemma ClosedStays(u: Server, s: Sys, t: Sys, id: nat)
    requires ClosedByCall(u, s, id) && s.execs <= t.execs
    requires id < |t.conns| && s.conns[id].calls <= t.conns[id].calls && t.conns[id].maxMsg == s.conns[id].maxMsg
    ensures ClosedByCall(u, t, id)
  {
    hide AsksToDisconnect;
    hide Expected;
    var n: nat :| Closes(u, s, id, n);
    assert Closes(u, t, id, n);
  }

  /** Nothing has happened to channel `id` but that time has passed. */
  ghost predicate Untouched(s: Sys, t: Sys, id: nat) {
    && id < |s.conns| && id < |t.conns| && t.conns[id] == s.conns[id] && s.execs <= t.execs
    && (Live(s, id) ==> Live(t, id))
    && ((exists w: nat :: ServedBy(s, w, id)) ==> exists w: nat :: ServedBy(t, w, id))
  }

  lemma UntouchedStays(u: Server, s: Sys, t: Sys, id: nat)
    requires Untouched(s, t, id) && (Live(s, id) || ClosedByCall(u, s, id)) && Remembered(u, s, id)
    ensures (Live(t, id) || ClosedByCall(u, t, id)) && Remembered(u, t, id)
  {
    hide ClosedByCall;
    hide Live;
    hide OnWay;
    if ClosedByCall(u, s, id) {
      ClosedStays(u, s, t, id);
    }
  }

  /** A worker keeps what it holds of other channels. */
  lemma HoldersKept(s: Sys, t: Sys, id: nat)
    requires id < |s.conns| <= |t.conns| && t.conns[id] == s.conns[id] && s.execs <= t.execs
    requires id in s.pool.queue ==> id in t.pool.queue || exists w: nat :: KeptBy(t, w, id)
    requires forall w: nat | KeptBy(s, w, id) ::
               (KeptBy(t, w, id) && t.jobs[w] == s.jobs[w]) || (id in t.pool.queue && !ServedBy(s, w, id))
    ensures Untouched(s, t, id)
  {
    if w: nat :| ServedBy(s, w, id) {
      assert KeptBy(s, w, id);
      assert ServedBy(t, w, id);
    }
  }


  /** A step of the pool gives up no channel but one that its worker was told to drop. */
  lemma PoolTouchesNone(u: Server, s: Sys, step: Step, id: nat)
    requires Inv(u, s) && Enabled(u, s, step) && Smooth(s, step) && !s.pool.shouldExit && id < |s.conns|
    requires step.Internal? || step.Take? || step.Return? || step.Close?
    ensures Untouched(s, Next(u, s, step), id)
  {
    hide Inv;
    hide Untouched;
    if step.Take? {
      TakeTouchesNone(u, s, step.w, id);
    } else if step.Return? {
      ReturnTouchesNone(u, s, step.w, id);
    } else {
      HoldersKept(s, Next(u, s, step), id);
    }
  }

  lemma TakeTouchesNone(u: Server, s: Sys, w: nat, id: nat)
    requires Enabled(u, s, Take(w)) && id < |s.conns|
    ensures Untouched(s, Next(u, s, Take(w)), id)
  {
    hide Untouched;
    var t := Next(u, s, Take(w));
    if s.pool.queue != [] && id == s.pool.queue[0] {
      assert KeptBy(t, w, id);
    }
    HoldersKept(s, t, id);
  }

  lemma ReturnTouchesNone(u: Server, s: Sys, w: nat, id: nat)
    requires Inv(u, s) && Enabled(u, s, Return(w)) && id < |s.conns|
    ensures Untouched(s, Next(u, s, Return(w)), id)
  {
    hide Inv;
    hide Untouched;
    assert Holds(s, w) && s.jobs[w] == Done(false);
    hide Next;
    hide Enabled;
    PutBackStep(u, s, w);
    PutBackTouchesNone(s, Next(u, s, Return(w)), w, id);
  }

  lemma PutBackTouchesNone(s: Sys, t: Sys, w: nat, id: nat)
    requires Holds(s, w) && s.jobs[w] == Done(false) && id < |s.conns|
    requires t == s.(pool := t.pool, jobs := s.jobs[w := NoJob])
    requires t.pool == s.pool.(queue := s.pool.queue + [HeldId(s, w)], workers := s.pool.workers[w := P.Idle])
    ensures Untouched(s, t, id)
  {
    assert t.pool.queue[|s.pool.queue|] == HeldId(s, w);
    if HeldId(s, w) == id {
      assert Live(t, id);
      if v: nat :| v != w && ServedBy(s, v, id) {
        assert ServedBy(t, v, id);
      }
    } else {
      if v: nat :| KeptBy(s, v, id) {
        assert KeptBy(t, v, id);
      }
      if v: nat :| ServedBy(s, v, id) {
        assert ServedBy(t, v, id);
      }
    }
  }

  lemma PoolUnfailing(u: Server, s: Sys, step: Step)
    requires Inv(u, s) && Enabled(u, s, step) && Smooth(s, step) && Unfailing(u, s)
    requires step.Internal? || step.Take? || step.Return? || step.Close?
    ensures Unfailing(u, Next(u, s, step))
  {
    hide Inv;
    hide Next;
    hide Enabled;
    hide Smooth;
    hide Untouched;
    hide Remembered;
    hide ClosedByCall;
    hide Live;
    var t := Next(u, s, step);
    PoolKeeps(u, s, step);
    forall id: nat | id < |t.conns|
      ensures (Live(t, id) || ClosedByCall(u, t, id)) && Remembered(u, t, id)
    {
      assert Live(s, id) || ClosedByCall(u, s, id);
      assert Remembered(u, s, id);
      PoolTouchesNone(u, s, step, id);
      UntouchedStays(u, s, t, id);
    }
  }

  lemma PoolKeeps(u: Server, s: Sys, step: Step)
    requires Enabled(u, s, step) && Smooth(s, step) && !s.pool.shouldExit
    requires step.Internal? || step.Take? || step.Return? || step.Close?
    ensures Next(u, s, step).conns == s.conns && !Next(u, s, step).pool.shouldExit
  {
  }

  /** A step that touches one channel only, and the job of a worker that holds it. */
  lemma OtherwiseUntouched(u: Server, s: Sys, t: Sys, id: nat)
    requires Unfailing(u, s) && t.pool == s.pool && |t.jobs| == |s.jobs| && |t.conns| == |s.conns| && s.execs <= t.execs
    requires forall i: nat | i < |s.conns| && i != id :: t.conns[i] == s.conns[i]
    requires forall w: nat | Holds(s, w) && HeldId(s, w) != id :: t.jobs[w] == s.jobs[w]
    requires id < |t.conns| && (Live(t, id) || ClosedByCall(u, t, id)) && Remembered(u, t, id)
    ensures Unfailing(u, t)
  {
    hide Remembered;
    hide ClosedByCall;
    forall i: nat | i < |t.conns|
      ensures (Live(t, i) || ClosedByCall(u, t, i)) && Remembered(u, t, i)
    {
      if i != id {
        assert Live(s, i) || ClosedByCall(u, s, i);
        assert Remembered(u, s, i);
        HoldersKept(s, t, i);
        UntouchedStays(u, s, t, i);
      }
    }
  }

  /** The worker goes on holding the channel, and has the request now or has found none. */
  lemma StillHeld(u: Server, s: Sys, t: Sys, w: nat, id: nat)
    requires id < |s.conns| && Remembered(u, s, id) && KeptBy(t, w, id) && s.execs <= t.execs
    requires var c, c' := s.conns[id], t.conns[id];
             c'.calls == c.calls && c'.maxMsg == c.maxMsg && c'.depth == c.depth && c'.client == c.client
    requires ServedBy(t, w, id) || (t.conns[id] == s.conns[id] && forall v: nat :: !ServedBy(s, v, id))
    ensures Live(t, id) && Remembered(u, t, id)
  {
    hide ClosedByCall;
    hide OnWay;
    if ClosedByCall(u, s, id) {
      ClosedStays(u, s, t, id);
    }
  }

  /** Only the holder of a channel, and the channel, have changed. */
  predicate HolderMoved(s: Sys, t: Sys, w: nat, id: nat) {
    && HeldBy(s, w, id) && w < |t.jobs| && id < |t.conns| && s.execs <= t.execs
    && t == s.(jobs := s.jobs[w := t.jobs[w]], conns := s.conns[id := t.conns[id]], execs := t.execs)
  }

  lemma OnlyHolderMoved(u: Server, s: Sys, t: Sys, w: nat, id: nat)
    requires Unfailing(u, s) && HolderMoved(s, t, w, id)
    requires (Live(t, id) || ClosedByCall(u, t, id)) && Remembered(u, t, id)
    ensures Unfailing(u, t)
  {
    hide Unfailing;
    hide Remembered;
    hide ClosedByCall;
    hide Live;
    OtherwiseUntouched(u, s, t, id);
  }

  /** The holder has looked for a request, or has handled one. */
  ghost predicate Worked(s: Sys, t: Sys, w: nat, id: nat) {
    && HolderMoved(s, t, w, id) && KeptBy(t, w, id)
    && var c, c' := s.conns[id], t.conns[id];
       && c'.calls == c.calls && c'.maxMsg == c.maxMsg && c'.depth == c.depth && c'.client == c.client
       && (ServedBy(t, w, id) || (s.jobs[w].Fresh? && c' == c))
  }

  lemma ReceiveMoves(u: Server, s: Sys, w: nat)
    requires Enabled(u, s, Receive(w, false, false))
    ensures Worked(s, Next(u, s, Receive(w, false, false)), w, HeldId(s, w))
  {
  }

  lemma ExecuteMoves(u: Server, s: Sys, w: nat)
    requires Enabled(u, s, Execute(w))
    ensures Worked(s, Next(u, s, Execute(w)), w, HeldId(s, w))
  {
    hide Handle;
  }

  lemma WorkUnfailing(u: Server, s: Sys, t: Sys, w: nat, id: nat)
    requires Inv(u, s) && Unfailing(u, s) && Worked(s, t, w, id)
    ensures Unfailing(u, t)
  {
    hide Inv;
    hide Unfailing;
    hide Remembered;
    hide Live;
    hide ClosedByCall;
    RememberedAt(u, s, id);
    HeldOnly(u, s, w);
    if !ServedBy(t, w, id) {
      NotServed(s, w, id);
    }
    StillHeld(u, s, t, w, id);
    OnlyHolderMoved(u, s, t, w, id);
  }

  lemma NotServed(s: Sys, w: nat, id: nat)
    requires HeldBy(s, w, id) && !ServedBy(s, w, id)
    requires forall v: nat :: Holds(s, v) && HeldId(s, v) == HeldId(s, w) ==> v == w
    ensures forall v: nat :: !ServedBy(s, v, id)
  {
  }

  /** A reply after which the channel is dropped is that of an endpoint run which asked for it, or there is none. */
  lemma Dropping(u: Server, s: Sys, w: nat, id: nat)
    requires ValidServer(u) && Inv(u, s) && KeptBy(s, w, id) && s.jobs[w].Reply?
    ensures s.jobs[w].h.reply.None? || s.jobs[w].h.close ==> Closes(u, s, id, s.conns[id].servedAs)
    ensures !s.conns[id].client.Free?
  {
    var conn, h := s.conns[id], s.jobs[w].h;
    ConnAt(u, s, id);
    JobAt(u, s, w);
    hide Inv;
    OverValid(u, conn.maxMsg);
    CallRoundTrip(Over(u, conn.maxMsg), conn.servedAs, id, conn.Last(), []);
    hide Handle;
    hide Request;
    hide ClientDecode;
    hide OnWay;
    hide Ok;
  }

  lemma RememberedAt(u: Server, s: Sys, id: nat)
    requires Unfailing(u, s) && id < |s.conns|
    ensures Remembered(u, s, id) && !s.conns[id].client.Gone?
  {
  }

  /** What is left of a reply that could be sent, and of none. */
  lemma SendMoves(u: Server, s: Sys, w: nat, id: nat, taken: nat)
    requires ValidServer(u) && Inv(u, s) && Sound(s) && KeptBy(s, w, id) && s.jobs[w].Reply? && s.conns[id].client.Waiting?
    requires Enabled(u, s, SendReply(w, taken)) && Smooth(s, SendReply(w, taken))
    ensures var t, h := Next(u, s, SendReply(w, taken)), s.jobs[w].h;
            && HolderMoved(s, t, w, id) && t.execs == s.execs
            && t.jobs[w] == Done(h.reply.None? || h.close)
            && t.conns[id].calls == s.conns[id].calls && t.conns[id].maxMsg == s.conns[id].maxMsg
            && t.conns[id].client.Waiting? && t.conns[id].Config().Valid()
            && (h.reply.Some? ==> ToClient(t.conns[id]) != [])
  {
    hide Sound;
    hide OnWay;
    assert s.jobs[w].h.reply.Some? ==> taken >= |F.Frame(s.jobs[w].h.reply.value)|;
    ConnIsValid(u, s, id);
    hide Inv;
    hide Smooth;
    if s.jobs[w].h.reply.None? {
      NoReplyNext(u, s, w, taken);
    } else {
      SendStep(u, s, w, id, taken);
    }
    hide Next;
    hide Enabled;
  }

  lemma ConnIsValid(u: Server, s: Sys, id: nat)
    requires Inv(u, s) && id < |s.conns|
    ensures s.conns[id].Config().Valid()
  {
    ConnAt(u, s, id);
  }

  lemma SendUnfailing(u: Server, s: Sys, w: nat, taken: nat)
    requires ValidServer(u) && Inv(u, s) && Sound(s) && Enabled(u, s, SendReply(w, taken)) && Smooth(s, SendReply(w, taken))
    requires Unfailing(u, s)
    ensures Unfailing(u, Next(u, s, SendReply(w, taken)))
  {
    hide Inv;
    hide Sound;
    hide Unfailing;
    assert Holds(s, w) && s.jobs[w].Reply?;
    hide Next;
    hide Enabled;
    hide Smooth;
    hide OnWay;
    hide Unfailing;
    hide Closes;
    var id, t := HeldId(s, w), Next(u, s, SendReply(w, taken));
    RememberedAt(u, s, id);
    Dropping(u, s, w, id);
    SendMoves(u, s, w, id, taken);
    if t.jobs[w] == Done(true) {
      ClosesStill(u, s, t, id, s.conns[id].servedAs);
    } else {
      assert KeptBy(t, w, id);
    }
    hide ClosedByCall;
    hide HolderMoved;
    OnlyHolderMoved(u, s, t, w, id);
  }

  lemma NoReplyNext(u: Server, s: Sys, w: nat, taken: nat)
    requires Enabled(u, s, SendReply(w, taken)) && s.jobs[w].h.reply.None?
    ensures Next(u, s, SendReply(w, taken)) == s.(jobs := s.jobs[w := Done(true)])
  {
  }

  lemma ClosesStill(u: Server, s: Sys, t: Sys, id: nat, n: nat)
    requires Closes(u, s, id, n) && s.execs <= t.execs
    requires id < |t.conns| && s.conns[id].calls <= t.conns[id].calls && t.conns[id].maxMsg == s.conns[id].maxMsg
    ensures Closes(u, t, id, n) && ClosedByCall(u, t, id)
  {
    hide AsksToDisconnect;
    hide Expected;
  }

  /** What a client does, or the wires, leaves the server's part as it is. */
  lemma ServerUntouched(u: Server, s: Sys, t: Sys, id: nat)
    requires Unfailing(u, s) && id < |s.conns| == |t.conns| && t == s.(conns := s.conns[id := t.conns[id]], ended := t.ended)
    requires s.conns[id].calls <= t.conns[id].calls && t.conns[id].maxMsg == s.conns[id].maxMsg
    requires !t.conns[id].client.Gone? && t.conns[id].Config().Valid()
    requires t.conns[id].client.Waiting? ==>
               || ToServer(t.conns[id]) != []
               || (s.conns[id].client.Waiting? && s.conns[id].Config().Valid()
                   && ToServer(t.conns[id]) == ToServer(s.conns[id]) && ToClient(t.conns[id]) == ToClient(s.conns[id]))
    ensures Unfailing(u, t)
  {
    assert Remembered(u, s, id);
    hide OnWay;
    if w: nat :| KeptBy(s, w, id) {
      assert KeptBy(t, w, id);
    }
    if w: nat :| ServedBy(s, w, id) {
      assert ServedBy(t, w, id);
    }
    hide Closes;
    if ClosedByCall(u, s, id) {
      ClosedStays(u, s, t, id);
    }
    hide ClosedByCall;
    OtherwiseUntouched(u, s, t, id);
  }

  lemma ArrivesUnfailing(u: Server, s: Sys, id: nat, toServer: bool, m: nat)
    requires Inv(u, s) && Enabled(u, s, Arrives(id, toServer, m)) && Unfailing(u, s)
    ensures Unfailing(u, Next(u, s, Arrives(id, toServer, m)))
  {
    var conn, t := s.conns[id], Next(u, s, Arrives(id, toServer, m));
    ConnAt(u, s, id);
    assert Remembered(u, s, id);
    ArriveLaws(conn.Config(), if toServer then conn.up else conn.down, m);
    hide Inv;
    hide ConnOk;
    hide OnWay;
    hide Arrive;
    hide Unfailing;
    hide ClosedByCall;
    ServerUntouched(u, s, t, id);
  }

  lemma MakeCallUnfailing(u: Server, s: Sys, id: nat, call: Call, taken: nat)
    requires ValidServer(u) && Inv(u, s) && Sound(s) && Enabled(u, s, MakeCall(id, call, taken)) && Unfailing(u, s)
    requires Smooth(s, MakeCall(id, call, taken))
    ensures Unfailing(u, Next(u, s, MakeCall(id, call, taken)))
  {
    hide Inv;
    hide Sound;
    hide OnWay;
    hide Unfailing;
    hide Pending;
    hide Fits;
    hide Request;
    hide ValidCall;
    hide F.Frame;
    assert id < |s.conns| && s.conns[id].client.Free? && ValidCall(call) && taken >= |F.Frame(Request(call))|;
    ConnIsValid(u, s, id);
    if !Fits(s.conns[id].maxMsg, call) {
      TooLargeNext(u, s, id, call, taken);
    }
    hide Next;
    hide Enabled;
    hide Smooth;
    if Fits(s.conns[id].maxMsg, call) {
      CallStep(u, s, id, call, taken);
    }
    ServerUntouched(u, s, Next(u, s, MakeCall(id, call, taken)), id);
  }

  lemma TooLargeNext(u: Server, s: Sys, id: nat, call: Call, taken: nat)
    requires Enabled(u, s, MakeCall(id, call, taken)) && !Fits(s.conns[id].maxMsg, call)
    ensures var t := Next(u, s, MakeCall(id, call, taken)); t == s.(ended := t.ended)
  {
    hide Fits;
    hide Request;
  }

  lemma TakeReplyUnfailing(u: Server, s: Sys, id: nat, junk: bytes)
    requires Inv(u, s) && Enabled(u, s, TakeReply(id, junk)) && Unfailing(u, s)
    ensures Unfailing(u, Next(u, s, TakeReply(id, junk)))
  {
    ConnAt(u, s, id);
    var t := Next(u, s, TakeReply(id, junk));
    hide Inv;
    hide ConnOk;
    hide OnWay;
    hide Unfailing;
    hide ClientDecode;
    ServerUntouched(u, s, t, id);
  }

  /** A channel that is accepted is behind all others, and the request its client may have sent is on its way. */
  lemma GiveStep(u: Server, s: Sys, conn: Conn, first: Option<Call>)
    requires ValidServer(u) && Inv(u, s) && Enabled(u, s, Give(conn, first))
    ensures var t, id := Next(u, s, Give(conn, first)), |s.conns|;
            if 0x80 <= conn.maxMsg <= u.bufLen && conn.maxMsg < U32_RANGE
               && s.pool.numChannels < s.pool.cap && s.pool.idCounter != s.pool.maxId then
              && t == s.(pool := t.pool, conns := s.conns + [Given(conn, first)])
              && t.pool == s.pool.(queue := s.pool.queue + [id], idCounter := id + 1, numChannels := s.pool.numChannels + 1)
              && (if first.Some? then Pending(t, id) else t.conns[id].client.Free?)
            else t == s
  {
    Sizes(u, s);
    if SizeOk(u, conn.maxMsg) {
      GiveSends(u, conn, first);
    }
    hide ConnOk;
    hide JobOk;
    hide EndedOk;
    hide ExecsOk;
    hide Request;
    hide F.Frame;
    hide OnWay;
    hide Given;
    var t := Next(u, s, Give(conn, first));
    assert t.pool.queue != s.pool.queue ==> t.pool.queue[|s.pool.queue|] == |s.conns|;
  }

  lemma GiveSends(u: Server, conn: Conn, first: Option<Call>)
    requires ValidServer(u) && SizeOk(u, conn.maxMsg) && Unused(conn)
    requires first.Some? ==> ValidCall(first.value) && Fits(conn.maxMsg, first.value)
    ensures var c := Given(conn, first);
            c.Config().Valid()
            && if first.Some? then c.client.Waiting? && ToServer(c) != [] else c.client.Free?
  {
    hide Request;
    hide F.Frame;
    hide OnWay;
    EmptyOk(conn.Config(), conn.up.framed);
    if first.Some? {
      var request := Request(first.value);
      RequestNotEmpty(first.value);
      PutLaws(conn.Config(), conn.up, request, |F.Frame(request)|);
      PutSends(conn.Config(), conn.up, request, |F.Frame(request)|);
    }
  }

  lemma GiveUnfailing(u: Server, s: Sys, conn: Conn, first: Option<Call>)
    requires ValidServer(u) && Inv(u, s) && Enabled(u, s, Give(conn, first)) && Unfailing(u, s)
    ensures Unfailing(u, Next(u, s, Give(conn, first)))
  {
    hide Inv;
    hide Next;
    hide Enabled;
    hide Given;
    hide OnWay;
    hide SizeOk;
    hide Closes;
    GiveStep(u, s, conn, first);
    Sizes(u, s);
    var t := Next(u, s, Give(conn, first));
    if t != s {
      var last := |s.conns|;
      assert t.pool.queue[|s.pool.queue|] == last;
      hide ClosedByCall;
      NewRemembered(u, t, last, first);
      forall id: nat | id < last
        ensures (Live(t, id) || ClosedByCall(u, t, id)) && Remembered(u, t, id)
      {
        assert t.conns[id] == s.conns[id];
        GiveTouchesNone(s, t, id);
        assert Live(s, id) || ClosedByCall(u, s, id);
        assert Remembered(u, s, id);
        UntouchedStays(u, s, t, id);
      }
    }
  }

  lemma NewRemembered(u: Server, t: Sys, id: nat, first: Option<Call>)
    requires id < |t.conns| && id in t.pool.queue
    requires if first.Some? then Pending(t, id) else t.conns[id].client.Free?
    ensures Live(t, id) && Remembered(u, t, id)
  {
    hide OnWay;
  }

  lemma GiveTouchesNone(s: Sys, t: Sys, id: nat)
    requires id < |s.conns| < |t.conns| && t.conns[id] == s.conns[id] && t == s.(pool := t.pool, conns := t.conns)
    requires t.pool.workers == s.pool.workers && s.pool.queue <= t.pool.queue
    ensures Untouched(s, t, id)
  {
    hide Untouched;
    HoldersKept(s, t, id);
  }

  lemma UnfailingNext(u: Server, s: Sys, step: Step)
    requires ValidServer(u) && Inv(u, s) && Sound(s) && Enabled(u, s, step) && Smooth(s, step) && Unfailing(u, s)
    ensures Unfailing(u, Next(u, s, step))
  {
    hide Inv;
    hide Sound;
    hide Next;
    hide Unfailing;
    match step
    case Give(conn, first) => GiveUnfailing(u, s, conn, first);
    case Receive(w, _, _) =>
      ReceiveMoves(u, s, w);
      WorkUnfailing(u, s, Next(u, s, step), w, HeldId(s, w));
    case Execute(w) =>
      ExecuteMoves(u, s, w);
      WorkUnfailing(u, s, Next(u, s, step), w, HeldId(s, w));
    case SendReply(w, taken) => SendUnfailing(u, s, w, taken);
    case Arrives(id, toServer, m) => ArrivesUnfailing(u, s, id, toServer, m);
    case MakeCall(id, call, taken) => MakeCallUnfailing(u, s, id, call, taken);
    case TakeReply(id, junk) => TakeReplyUnfailing(u, s, id, junk);
    case _ => PoolUnfailing(u, s, step);
  }

  lemma {:induction false} UnfailingRun(u: Server, s: Sys, run: seq<Step>, t: Sys)
    requires ValidServer(u) && Inv(u, s) && Sound(s) && Unfailing(u, s) && SmoothRun(u, s, run, t)
    ensures Unfailing(u, t)
    decreases |run|
  {
    hide Inv;
    hide Sound;
    hide Next;
    hide Enabled;
    hide Smooth;
    hide Unfailing;
    if run != [] {
      NextInv(u, s, run[0]);
      SoundNext(u, s, run[0]);
      UnfailingNext(u, s, run[0]);
      UnfailingRun(u, Next(u, s, run[0]), run[1..], t);
    }
  }

  /**
   * Where nothing fails no call is forgotten: after every such run a client that waits can still be answered, or one of
   * the calls over its channel made the server drop it, by asking to disconnect or by returning what its endpoint does
   * not declare. And nothing else makes the server drop a channel.
   */
  lemma NoneForgotten(u: Server, cap: nat, numWorkers: nat, maxId: nat, hasCallback: bool, run: seq<Step>, t: Sys, id: nat)
    requires ValidServer(u) && SmoothRun(u, Init(cap, numWorkers, maxId, hasCallback), run, t) && id < |t.conns|
    ensures !t.pool.shouldExit && (Live(t, id) || ClosedByCall(u, t, id))
    ensures t.conns[id].client.Free? || Pending(t, id) || ClosedByCall(u, t, id)
  {
    hide Inv;
    hide Sound;
    hide SmoothRun;
    hide Live;
    hide ClosedByCall;
    hide OnWay;
    var s := Init(cap, numWorkers, maxId, hasCallback);
    InitInv(u, cap, numWorkers, maxId, hasCallback);
    InitSound(cap, numWorkers, maxId, hasCallback);
    UnfailingRun(u, s, run, t);
    assert Remembered(u, t, id);
  }
}

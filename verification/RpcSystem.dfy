/**
 * Clients, channels and the worker pool together: any number of clients, one per channel, each calling when it likes,
 * and any number of workers, interleaved step by step. Messages are the real bytes, and on a framed channel their
 * frames are written, read in any chunks and decoded.
 */
module RpcSystem {
  import opened Bytes
  import opened Memory
  import opened RpcMessages
  import opened RpcTheorems
  import opened Pipe
  import F = Framing
  import P = WorkerPool

  /** A client may call, waits for a reply, or has given its channel up for good. */
  datatype Client = Free | Waiting | Gone

  /**
   * A channel of its own size and depth, in both directions, to the server and from it; its client, every call made
   * over it so far, and which endpoint run served the last.
   */
  datatype Conn = Conn(maxMsg: nat, depth: nat, up: Pipe, down: Pipe, client: Client, calls: seq<Call>, servedAs: nat) {
    function Last(): Call {
      if calls == [] then Call([], []) else calls[|calls| - 1]
    }

    /** Channels do not write over. */
    function Config(): F.Config {
      F.Config(depth, maxMsg, false)
    }
  }

  /** What a worker that holds a channel has done with it so far. */
  datatype Job = NoJob | Fresh | Got(msg: bytes) | Reply(h: Handled) | Done(close: bool)

  /** One run of an endpoint function. */
  datatype Exec = Exec(id: nat, serial: nat)

  datatype How = TooLarge | Lost | Answered(outcome: Outcome, servedAs: nat)

  /**
   * A call that has returned to its caller; `serial` says which of its client's calls it was, `maxMsg` over what
   * channel.
   */
  datatype Ended = Ended(id: nat, serial: nat, maxMsg: nat, call: Call, how: How)

  datatype Sys = Sys(pool: P.Pool, conns: seq<Conn>, jobs: seq<Job>, execs: seq<Exec>, ended: seq<Ended>)

  datatype Step =
    | Give(conn: Conn, first: Option<Call>)
    | Internal(a: P.Action)
    | Arrives(id: nat, toServer: bool, m: nat)
    | Take(w: nat)
    | Receive(w: nat, broken: bool, timedOut: bool)
    | Execute(w: nat)
    | SendReply(w: nat, taken: nat)
    | Return(w: nat)
    | Close(w: nat)
    | MakeCall(id: nat, call: Call, taken: nat)
    | TakeReply(id: nat, junk: bytes)
    | GiveUp(id: nat)

  /** The server as it handles a channel: its replies are limited by what that channel takes. */
  function Over(u: Server, maxMsg: nat): Server {
    u.(maxMsg := maxMsg)
  }

  /** The server takes channels of at least the smallest size, whose messages fit into its buffer. */
  predicate SizeOk(u: Server, maxMsg: nat) {
    MIN_MSG_SIZE <= maxMsg <= u.bufLen && maxMsg < U32_RANGE
  }

  lemma OverValid(u: Server, maxMsg: nat)
    requires ValidServer(u) && SizeOk(u, maxMsg)
    ensures ValidServer(Over(u, maxMsg))
  {
  }

  function Init(cap: nat, numWorkers: nat, maxId: nat, hasCallback: bool): Sys {
    Sys(P.Init(cap, numWorkers, maxId, hasCallback), [], seq(numWorkers, _ => NoJob), [], [])
  }

  predicate Holds(s: Sys, w: nat) {
    w < |s.pool.workers| && w < |s.jobs| && s.pool.workers[w].Holding? && s.pool.workers[w].id < |s.conns|
  }

  function HeldId(s: Sys, w: nat): nat
    requires Holds(s, w)
  {
    s.pool.workers[w].id
  }

  function Fits(maxMsg: nat, c: Call): bool {
    |Request(c)| <= maxMsg
  }

  /** A channel that nothing has been sent over. */
  predicate Unused(c: Conn) {
    && c.depth > 0 && c.up == Empty(c.up.framed) && c.down == Empty(c.down.framed)
    && c.client.Free? && c.calls == []
  }

  ghost predicate Enabled(u: Server, s: Sys, step: Step) {
    match step
    case Give(conn, first) =>
      && P.Enabled(s.pool, P.Give) && Unused(conn)
      && (first.Some? ==> ValidCall(first.value) && Fits(conn.maxMsg, first.value))
    case Internal(a) =>
      (a.CheckExit? || a.Decrement? || a.Notify? || a.RequestExit? || a.Drain?) && P.Enabled(s.pool, a)
    case Arrives(id, toServer, m) =>
      && id < |s.conns| && s.conns[id].Config().Valid()
      && m <= |(if toServer then s.conns[id].up else s.conns[id].down).wire|
    case Take(w) => P.Enabled(s.pool, P.Poll(w)) && w < |s.jobs|
    case Receive(w, _, _) => Holds(s, w) && s.jobs[w].Fresh?
    case Execute(w) => Holds(s, w) && s.jobs[w].Got?
    case SendReply(w, _) => Holds(s, w) && s.jobs[w].Reply?
    case Return(w) => Holds(s, w) && s.jobs[w] == Done(false)
    case Close(w) => Holds(s, w) && s.jobs[w] == Done(true)
    case MakeCall(id, c, _) => id < |s.conns| && s.conns[id].client.Free? && ValidCall(c)
    case TakeReply(id, _) => id < |s.conns| && s.conns[id].client.Waiting? && s.conns[id].down.st.queue != []
    case GiveUp(id) => id < |s.conns| && s.conns[id].client.Waiting?
  }

  /** A channel as it is handed to the server; its client may already have sent its first request. */
  function Given(c: Conn, first: Option<Call>): Conn {
    if first.None? then c
    else
      var request := Request(first.value);
      c.(up := Put(c.Config(), c.up, request, |F.Frame(request)|).1, client := Waiting, calls := [first.value])
  }

  ghost function Next(u: Server, s: Sys, step: Step): Sys
    requires Enabled(u, s, step)
  {
    match step
    case Give(conn, first) =>
      var pool := P.Next(s.pool, P.Give);
      if !SizeOk(u, conn.maxMsg) then s
      else if pool.idCounter == s.pool.idCounter then s.(pool := pool)
      else s.(pool := pool, conns := s.conns + [Given(conn, first)])
    case Internal(a) => s.(pool := P.Next(s.pool, a))
    case Arrives(id, toServer, m) =>
      var conn := s.conns[id];
      if toServer then s.(conns := s.conns[id := conn.(up := Arrive(conn.Config(), conn.up, m))])
      else s.(conns := s.conns[id := conn.(down := Arrive(conn.Config(), conn.down, m))])
    case Take(w) =>
      s.(pool := P.Next(s.pool, P.Poll(w)), jobs := s.jobs[w := if s.pool.queue == [] then NoJob else Fresh])
    case Receive(w, broken, timedOut) =>
      var id := HeldId(s, w);
      var conn := s.conns[id];
      if broken then s.(jobs := s.jobs[w := Done(true)])
      else if conn.up.st.queue == [] then s.(jobs := s.jobs[w := Done(timedOut)])
      else s.(jobs := s.jobs[w := Got(conn.up.st.queue[0])], conns := s.conns[id := conn.(up := Rest(conn.up))])
    case Execute(w) =>
      var id := HeldId(s, w);
      var conn := s.conns[id];
      var h := Handle(Over(u, conn.maxMsg), |s.execs|, id, s.jobs[w].msg);
      s.(jobs := s.jobs[w := Reply(h)], conns := s.conns[id := conn.(servedAs := |s.execs|)],
         execs := if h.called then s.execs + [Exec(id, |conn.calls|)] else s.execs)
    case SendReply(w, taken) =>
      var id := HeldId(s, w);
      var conn, h := s.conns[id], s.jobs[w].h;
      if h.reply.None? then s.(jobs := s.jobs[w := Done(Drops(h, false))])
      else
        var (sent, down) := Put(conn.Config(), conn.down, h.reply.value, taken);
        s.(jobs := s.jobs[w := Done(Drops(h, sent))], conns := s.conns[id := conn.(down := down)])
    case Return(w) => s.(pool := P.Next(s.pool, P.PutBack(w)), jobs := s.jobs[w := NoJob])
    case Close(w) => s.(pool := P.Next(s.pool, P.Delete(w)), jobs := s.jobs[w := NoJob])
    case MakeCall(id, c, taken) =>
      var conn := s.conns[id];
      var calls := conn.calls + [c];
      if !Fits(conn.maxMsg, c) then s.(ended := s.ended + [Ended(id, 0, conn.maxMsg, c, TooLarge)])
      else
        var (sent, up) := Put(conn.Config(), conn.up, Request(c), taken);
        if sent then s.(conns := s.conns[id := conn.(up := up, client := Waiting, calls := calls)])
        else
          s.(conns := s.conns[id := conn.(up := up, client := Gone, calls := calls)],
             ended := s.ended + [Ended(id, |calls|, conn.maxMsg, c, Lost)])
    case TakeReply(id, junk) =>
      var conn := s.conns[id];
      var how := Answered(ClientDecode(conn.down.st.queue[0] + junk), conn.servedAs);
      s.(conns := s.conns[id := conn.(down := Rest(conn.down), client := Free)],
         ended := s.ended + [Ended(id, |conn.calls|, conn.maxMsg, conn.Last(), how)])
    case GiveUp(id) =>
      var conn := s.conns[id];
      s.(conns := s.conns[id := conn.(client := Gone)],
         ended := s.ended + [Ended(id, |conn.calls|, conn.maxMsg, conn.Last(), Lost)])
  }

  ghost predicate Reaches(u: Server, s: Sys, steps: seq<Step>, t: Sys)
    decreases |steps|
  {
    if steps == [] then s == t
    else Enabled(u, s, steps[0]) && Reaches(u, Next(u, s, steps[0]), steps[1..], t)
  }

  // ---------------------------------------------------------------- the invariant

  ghost predicate Sendable(c: Conn, call: Call) {
    ValidCall(call) && Fits(c.maxMsg, call)
  }

  predicate NotRun(execs: seq<Exec>, id: nat, serial: nat) {
    Exec(id, serial) !in execs
  }

  /** `h` is what handling the connection's last call came to, as endpoint run number `servedAs` if it ran one. */
  ghost predicate Served(u: Server, execs: seq<Exec>, id: nat, c: Conn, h: Handled) {
    && h == Handle(Over(u, c.maxMsg), c.servedAs, id, Request(c.Last()))
    && (h.called ==> c.servedAs < |execs| && execs[c.servedAs] == Exec(id, |c.calls|))
  }

  ghost predicate PipesOk(u: Server, c: Conn) {
    SizeOk(u, c.maxMsg) && c.Config().Valid() && Ok(c.Config(), c.up) && Ok(c.Config(), c.down)
  }

  /** The messages on their way to the server, and back. */
  ghost function ToServer(c: Conn): seq<bytes>
    requires c.Config().Valid()
  {
    OnWay(c.Config(), c.up)
  }

  ghost function ToClient(c: Conn): seq<bytes>
    requires c.Config().Valid()
  {
    OnWay(c.Config(), c.down)
  }

  /** At most one message is in flight, and it is the last call's request or the reply to it. */
  ghost predicate ConnOk(u: Server, execs: seq<Exec>, id: nat, c: Conn) {
    && PipesOk(u, c)
    && |ToServer(c)| + |ToClient(c)| <= 1
    && (c.client.Free? ==> ToServer(c) == [] && ToClient(c) == [])
    && (!c.client.Free? ==> c.calls != [] && Sendable(c, c.Last()))
    && (ToServer(c) != [] ==> ToServer(c)[0] == Request(c.Last()) && NotRun(execs, id, |c.calls|))
    && (ToClient(c) != [] ==>
          && Served(u, execs, id, c, Handle(Over(u, c.maxMsg), c.servedAs, id, Request(c.Last())))
          && Handle(Over(u, c.maxMsg), c.servedAs, id, Request(c.Last())).reply == Some(ToClient(c)[0]))
  }

  /** While a worker has taken the request or has the reply, nothing is on its way. */
  ghost predicate JobOk(u: Server, execs: seq<Exec>, id: nat, c: Conn, job: Job) {
    && c.Config().Valid()
    && (job.Got? || job.Reply? ==> ToServer(c) == [] && ToClient(c) == [] && !c.client.Free?)
    && (job.Got? ==> job.msg == Request(c.Last()) && NotRun(execs, id, |c.calls|))
    && (job.Reply? ==> Served(u, execs, id, c, job.h))
  }

  /** An answered call got the outcome its caller was owed; if it ran an endpoint, that run is on record as its own. */
  ghost predicate Owed(u: Server, execs: seq<Exec>, e: Ended) {
    match e.how
    case TooLarge => !Fits(e.maxMsg, e.call)
    case Lost => true
    case Answered(outcome, n) =>
      && Expected(Over(u, e.maxMsg), n, e.id, e.call) == Some(outcome)
      && (Invokes(u, e.call) ==> n < |execs| && execs[n] == Exec(e.id, e.serial))
  }

  /** A call that was sent is the one on its channel's record, and nobody waits for it any more. */
  predicate OnRecord(conns: seq<Conn>, e: Ended) {
    && e.id < |conns| && conns[e.id].maxMsg == e.maxMsg
    && (e.how.TooLarge?
        || (1 <= e.serial <= |conns[e.id].calls| && conns[e.id].calls[e.serial - 1] == e.call
            && (conns[e.id].client.Waiting? ==> e.serial < |conns[e.id].calls|)))
  }

  predicate SameCall(a: Ended, b: Ended) {
    !a.how.TooLarge? && !b.how.TooLarge? && a.id == b.id && a.serial == b.serial
  }

  ghost predicate EndedOk(u: Server, s: Sys) {
    && (forall e <- s.ended :: Owed(u, s.execs, e) && OnRecord(s.conns, e))
    && (forall i, j | 0 <= i < j < |s.ended| :: !SameCall(s.ended[i], s.ended[j]))
  }

  ghost predicate ExecsOk(s: Sys) {
    && (forall i, j | 0 <= i < j < |s.execs| :: s.execs[i] != s.execs[j])
    && (forall e <- s.execs :: e.id < |s.conns| && e.serial <= |s.conns[e.id].calls|)
  }

  /** The parts of the invariant. */
  datatype Part = PoolPart | ChannelPart | WorkerPart | RunPart | CallPart

  ghost predicate Keeps(p: Part, u: Server, s: Sys) {
    match p
    case PoolPart => P.Inv(s.pool) && |s.conns| == s.pool.idCounter && |s.jobs| == |s.pool.workers|
    case ChannelPart => forall id: nat | id < |s.conns| :: ConnOk(u, s.execs, id, s.conns[id])
    case WorkerPart =>
      forall w: nat | w < |s.jobs| && w < |s.pool.workers| && s.pool.workers[w].Holding? ::
        Holds(s, w) && JobOk(u, s.execs, HeldId(s, w), s.conns[HeldId(s, w)], s.jobs[w])
    case RunPart => ExecsOk(s)
    case CallPart => EndedOk(u, s)
  }

  ghost predicate Inv(u: Server, s: Sys) {
    forall p: Part :: Keeps(p, u, s)
  }

  lemma Sizes(u: Server, s: Sys)
    requires Inv(u, s)
    ensures P.Inv(s.pool) && |s.conns| == s.pool.idCounter && |s.jobs| == |s.pool.workers|
    ensures forall w: nat | w < |s.jobs| && s.pool.workers[w].Holding? :: Holds(s, w)
  {
    hide P.Inv;
    hide JobOk;
    assert Keeps(PoolPart, u, s) && Keeps(WorkerPart, u, s);
  }

  lemma ConnAt(u: Server, s: Sys, id: nat)
    requires Inv(u, s) && id < |s.conns|
    ensures ConnOk(u, s.execs, id, s.conns[id])
  {
    hide ConnOk;
    assert Keeps(ChannelPart, u, s);
  }

  lemma JobAt(u: Server, s: Sys, w: nat)
    requires Inv(u, s) && Holds(s, w)
    ensures JobOk(u, s.execs, HeldId(s, w), s.conns[HeldId(s, w)], s.jobs[w])
  {
    hide JobOk;
    assert Keeps(WorkerPart, u, s);
  }

  lemma JobsAt(u: Server, s: Sys, id: nat)
    requires Inv(u, s) && id < |s.conns|
    ensures forall w: nat | Holds(s, w) && HeldId(s, w) == id :: JobOk(u, s.execs, id, s.conns[id], s.jobs[w])
  {
    hide Inv;
    hide JobOk;
    forall w: nat | Holds(s, w) && HeldId(s, w) == id
      ensures JobOk(u, s.execs, id, s.conns[id], s.jobs[w])
    {
      JobAt(u, s, w);
    }
  }

  lemma Records(u: Server, s: Sys)
    requires Inv(u, s)
    ensures ExecsOk(s) && EndedOk(u, s)
  {
    hide ExecsOk;
    hide EndedOk;
    assert Keeps(RunPart, u, s) && Keeps(CallPart, u, s);
  }

  lemma Together(u: Server, s: Sys)
    requires P.Inv(s.pool) && |s.conns| == s.pool.idCounter && |s.jobs| == |s.pool.workers|
    requires forall id: nat | id < |s.conns| :: ConnOk(u, s.execs, id, s.conns[id])
    requires forall w: nat | w < |s.jobs| && s.pool.workers[w].Holding? ::
               Holds(s, w) && JobOk(u, s.execs, HeldId(s, w), s.conns[HeldId(s, w)], s.jobs[w])
    requires ExecsOk(s) && EndedOk(u, s)
    ensures Inv(u, s)
  {
    hide P.Inv;
    hide ConnOk;
    hide JobOk;
    hide ExecsOk;
    hide EndedOk;
    forall p: Part
      ensures Keeps(p, u, s)
    {
      match p
      case _ =>
    }
  }

  lemma InitInv(u: Server, cap: nat, numWorkers: nat, maxId: nat, hasCallback: bool)
    ensures Inv(u, Init(cap, numWorkers, maxId, hasCallback))
  {
    P.InitInv(cap, numWorkers, maxId, hasCallback);
  }

  // ---------------------------------------------------------------- every step keeps it

  /** What is on record stays on record; what concerns other channels stays true. */
  lemma RecordsGrow(u: Server, execs: seq<Exec>, execs': seq<Exec>, id: nat, c: Conn, job: Job)
    requires execs <= execs' && forall e <- execs' :: e in execs || e.id != id
    ensures ConnOk(u, execs, id, c) ==> ConnOk(u, execs', id, c)
    ensures JobOk(u, execs, id, c, job) ==> JobOk(u, execs', id, c, job)
  {
    hide Handle;
    hide Request;
    hide Sendable;
  }

  lemma OwedStays(u: Server, execs: seq<Exec>, execs': seq<Exec>, e: Ended)
    requires execs <= execs' && Owed(u, execs, e)
    ensures Owed(u, execs', e)
  {
    hide Expected;
    hide Invokes;
    hide Request;
  }

  /** The client goes on waiting for the same call, or makes a new one, or waits for nothing. */
  predicate ClientMoves(c: Conn, c': Conn) {
    c.maxMsg == c'.maxMsg && c.calls <= c'.calls && (c'.client.Waiting? ==> c.client.Waiting? || |c.calls| < |c'.calls|)
  }

  /** What has ended stays so; at most one call ends in a step, and it is one that had not. */
  lemma EndedKept(u: Server, s: Sys, t: Sys, id: nat)
    requires EndedOk(u, s) && s.execs <= t.execs
    requires |t.conns| == |s.conns| && id < |s.conns| && ClientMoves(s.conns[id], t.conns[id])
    requires forall i: nat | i < |s.conns| && i != id :: t.conns[i] == s.conns[i]
    requires t.ended == s.ended
             || (|t.ended| == |s.ended| + 1 && s.ended <= t.ended
                 && Owed(u, t.execs, t.ended[|s.ended|]) && OnRecord(t.conns, t.ended[|s.ended|])
                 && var e := t.ended[|s.ended|];
                    e.how.TooLarge?
                    || (e.id == id && (if s.conns[id].client.Waiting? then e.serial == |s.conns[id].calls|
                                       else e.serial > |s.conns[id].calls|)))
    ensures EndedOk(u, t)
  {
    hide Owed;
    forall e | e in t.ended
      ensures Owed(u, t.execs, e) && OnRecord(t.conns, e)
    {
      if e in s.ended {
        OwedStays(u, s.execs, t.execs, e);
      }
    }
    forall i, j | 0 <= i < j < |t.ended|
      ensures !SameCall(t.ended[i], t.ended[j])
    {
      assert t.ended[i] == s.ended[i] && s.ended[i] in s.ended;
    }
  }

  /**
   * A step that touches one channel, and the job of a worker that holds it, keeps the invariant if that channel's part
   * holds.
   */
  lemma OneChannel(u: Server, s: Sys, t: Sys, id: nat)
    requires Inv(u, s) && id < |s.conns|
    requires t.pool == s.pool && |t.conns| == |s.conns| && |t.jobs| == |s.jobs|
    requires forall i: nat | i < |s.conns| && i != id :: t.conns[i] == s.conns[i]
    requires t.execs == s.execs
             || (t.execs == s.execs + [Exec(id, |s.conns[id].calls|)] && NotRun(s.execs, id, |s.conns[id].calls|))
    requires s.conns[id].calls <= t.conns[id].calls && s.conns[id].maxMsg == t.conns[id].maxMsg
    requires ConnOk(u, t.execs, id, t.conns[id])
    requires forall w: nat | Holds(s, w) ::
               if HeldId(s, w) == id then JobOk(u, t.execs, id, t.conns[id], t.jobs[w]) else t.jobs[w] == s.jobs[w]
    requires EndedOk(u, t)
    ensures Inv(u, t)
  {
    hide ConnOk;
    hide JobOk;
    hide EndedOk;
    hide P.Inv;
    hide Inv;
    Sizes(u, s);
    Records(u, s);
    forall e | e in t.execs
      ensures (e in s.execs || e.id == id) && e.id < |t.conns| && e.serial <= |t.conns[e.id].calls|
    {
    }
    forall i: nat | i < |t.conns|
      ensures ConnOk(u, t.execs, i, t.conns[i])
    {
      if i != id {
        ConnAt(u, s, i);
        RecordsGrow(u, s.execs, t.execs, i, s.conns[i], NoJob);
      }
    }
    forall w: nat | w < |t.jobs| && t.pool.workers[w].Holding?
      ensures Holds(t, w) && JobOk(u, t.execs, HeldId(t, w), t.conns[HeldId(t, w)], t.jobs[w])
    {
      JobAt(u, s, w);
      if HeldId(s, w) != id {
        RecordsGrow(u, s.execs, t.execs, HeldId(s, w), s.conns[HeldId(s, w)], s.jobs[w]);
      }
    }
    Together(u, t);
  }

  /** A worker's own channel is held by no other worker. */
  lemma OnlyHolder(u: Server, s: Sys, w: nat)
    requires Inv(u, s) && Holds(s, w)
    ensures forall v: nat | Holds(s, v) && HeldId(s, v) == HeldId(s, w) :: v == w
  {
    hide P.Inv;
    hide Inv;
    Sizes(u, s);
    forall v: nat | Holds(s, v) && HeldId(s, v) == HeldId(s, w)
      ensures v == w
    {
      if v < w {
        P.NoTwoHolders(s.pool, v, w);
      } else if w < v {
        P.NoTwoHolders(s.pool, w, v);
      }
    }
  }

  lemma ReceiveInv(u: Server, s: Sys, w: nat, broken: bool, timedOut: bool)
    requires ValidServer(u) && Inv(u, s) && Enabled(u, s, Receive(w, broken, timedOut))
    ensures Inv(u, Next(u, s, Receive(w, broken, timedOut)))
  {
    hide Handle;
    hide Request;
    hide P.Inv;
    hide Inv;
    hide Ok;
    hide OnWay;
    hide Put;
    OnlyHolder(u, s, w);
    JobAt(u, s, w);
    var id := HeldId(s, w);
    var conn := s.conns[id];
    ConnAt(u, s, id);
    if !broken && conn.up.st.queue != [] {
      RestLaws(conn.Config(), conn.up);
    }
    Records(u, s);
    EndedKept(u, s, Next(u, s, Receive(w, broken, timedOut)), id);
    OneChannel(u, s, Next(u, s, Receive(w, broken, timedOut)), id);
  }

  lemma ExecuteInv(u: Server, s: Sys, w: nat)
    requires ValidServer(u) && Inv(u, s) && Enabled(u, s, Execute(w))
    ensures Inv(u, Next(u, s, Execute(w)))
  {
    hide Handle;
    hide Request;
    hide P.Inv;
    hide Inv;
    hide Ok;
    hide OnWay;
    hide Put;
    OnlyHolder(u, s, w);
    JobAt(u, s, w);
    var id := HeldId(s, w);
    var conn := s.conns[id];
    ConnAt(u, s, id);
    Records(u, s);
    EndedKept(u, s, Next(u, s, Execute(w)), id);
    OneChannel(u, s, Next(u, s, Execute(w)), id);
  }

  lemma SendReplyInv(u: Server, s: Sys, w: nat, taken: nat)
    requires ValidServer(u) && Inv(u, s) && Enabled(u, s, SendReply(w, taken))
    ensures Inv(u, Next(u, s, SendReply(w, taken)))
  {
    hide Handle;
    hide Request;
    hide P.Inv;
    hide Inv;
    hide Ok;
    hide OnWay;
    hide Put;
    hide Drops;
    hide ClientDecode;
    hide Expected;
    hide F.Frame;
    OnlyHolder(u, s, w);
    JobAt(u, s, w);
    var id := HeldId(s, w);
    var conn := s.conns[id];
    ConnAt(u, s, id);
    var h := s.jobs[w].h;
    if h.reply.Some? {
      OverValid(u, conn.maxMsg);
      CallRoundTrip(Over(u, conn.maxMsg), conn.servedAs, id, conn.Last(), []);
      PutLaws(conn.Config(), conn.down, h.reply.value, taken);
    }
    Records(u, s);
    EndedKept(u, s, Next(u, s, SendReply(w, taken)), id);
    OneChannel(u, s, Next(u, s, SendReply(w, taken)), id);
  }

  lemma MakeCallInv(u: Server, s: Sys, id: nat, c: Call, taken: nat)
    requires ValidServer(u) && Inv(u, s) && Enabled(u, s, MakeCall(id, c, taken))
    ensures Inv(u, Next(u, s, MakeCall(id, c, taken)))
  {
    hide Handle;
    hide Request;
    hide P.Inv;
    hide Inv;
    hide Ok;
    hide OnWay;
    hide Put;
    var conn := s.conns[id];
    ConnAt(u, s, id);
    JobsAt(u, s, id);
    if Fits(conn.maxMsg, c) {
      RequestNotEmpty(c);
      PutLaws(conn.Config(), conn.up, Request(c), taken);
    }
    Records(u, s);
    EndedKept(u, s, Next(u, s, MakeCall(id, c, taken)), id);
    OneChannel(u, s, Next(u, s, MakeCall(id, c, taken)), id);
  }

  lemma TakeReplyInv(u: Server, s: Sys, id: nat, junk: bytes)
    requires ValidServer(u) && Inv(u, s) && Enabled(u, s, TakeReply(id, junk))
    ensures Inv(u, Next(u, s, TakeReply(id, junk)))
  {
    hide Handle;
    hide Request;
    hide P.Inv;
    hide Inv;
    hide Ok;
    hide OnWay;
    hide Put;
    var conn := s.conns[id];
    ConnAt(u, s, id);
    JobsAt(u, s, id);
    OverValid(u, conn.maxMsg);
    RestLaws(conn.Config(), conn.down);
    CallRoundTrip(Over(u, conn.maxMsg), conn.servedAs, id, conn.Last(), junk);
    InvokesOver(u, conn.maxMsg, conn.Last());
    hide Expected;
    hide ClientDecode;
    hide Invokes;
    Records(u, s);
    EndedKept(u, s, Next(u, s, TakeReply(id, junk)), id);
    OneChannel(u, s, Next(u, s, TakeReply(id, junk)), id);
  }

  lemma InvokesOver(u: Server, maxMsg: nat, c: Call)
    ensures Invokes(Over(u, maxMsg), c) == Invokes(u, c)
  {
  }

  lemma ArrivesInv(u: Server, s: Sys, id: nat, toServer: bool, m: nat)
    requires ValidServer(u) && Inv(u, s) && Enabled(u, s, Arrives(id, toServer, m))
    ensures Inv(u, Next(u, s, Arrives(id, toServer, m)))
  {
    hide Handle;
    hide Request;
    hide P.Inv;
    hide Inv;
    hide Ok;
    hide OnWay;
    hide Put;
    hide Arrive;
    var conn := s.conns[id];
    ConnAt(u, s, id);
    JobsAt(u, s, id);
    ArriveLaws(conn.Config(), if toServer then conn.up else conn.down, m);
    Records(u, s);
    EndedKept(u, s, Next(u, s, Arrives(id, toServer, m)), id);
    OneChannel(u, s, Next(u, s, Arrives(id, toServer, m)), id);
  }

  lemma GiveUpInv(u: Server, s: Sys, id: nat)
    requires ValidServer(u) && Inv(u, s) && Enabled(u, s, GiveUp(id))
    ensures Inv(u, Next(u, s, GiveUp(id)))
  {
    hide Handle;
    hide Request;
    hide P.Inv;
    hide Inv;
    hide Ok;
    hide OnWay;
    hide Put;
    var conn := s.conns[id];
    ConnAt(u, s, id);
    JobsAt(u, s, id);
    Records(u, s);
    EndedKept(u, s, Next(u, s, GiveUp(id)), id);
    OneChannel(u, s, Next(u, s, GiveUp(id)), id);
  }

  // ---------------------------------------------------------------- steps of the pool

  /** A worker that did not hold a channel before holds none, or one it has not yet looked at. */
  lemma PoolMoves(u: Server, s: Sys, t: Sys)
    requires Inv(u, s) && P.Inv(t.pool) && t.conns == s.conns && t.execs == s.execs && t.ended == s.ended
    requires t.pool.idCounter == s.pool.idCounter
    requires |t.jobs| == |t.pool.workers| == |s.pool.workers|
    requires forall w: nat | w < |t.jobs| && t.pool.workers[w].Holding? ::
               || (w < |s.jobs| && t.pool.workers[w] == s.pool.workers[w] && t.jobs[w] == s.jobs[w])
               || t.jobs[w] == Fresh
    ensures Inv(u, t)
  {
    hide ConnOk;
    hide JobOk;
    hide P.Inv;
    hide ExecsOk;
    hide EndedOk;
    hide Inv;
    Sizes(u, s);
    Records(u, s);
    SameRecords(u, s, t);
    forall id: nat | id < |t.conns|
      ensures ConnOk(u, t.execs, id, t.conns[id])
    {
      ConnAt(u, s, id);
    }
    forall w: nat | w < |t.jobs| && t.pool.workers[w].Holding?
      ensures Holds(t, w) && JobOk(u, t.execs, HeldId(t, w), t.conns[HeldId(t, w)], t.jobs[w])
    {
      P.OneHolder(t.pool, w);
      if t.jobs[w] == Fresh {
        ConnAt(u, s, HeldId(t, w));
        FreshOk(u, s.execs, HeldId(t, w), s.conns[HeldId(t, w)]);
      } else {
        assert Holds(s, w);
        JobAt(u, s, w);
      }
    }
    Together(u, t);
  }

  lemma FreshOk(u: Server, execs: seq<Exec>, id: nat, c: Conn)
    requires ConnOk(u, execs, id, c)
    ensures JobOk(u, execs, id, c, Fresh)
  {
  }

  lemma SameRecords(u: Server, s: Sys, t: Sys)
    requires ExecsOk(s) && EndedOk(u, s) && t.conns == s.conns && t.execs == s.execs && t.ended == s.ended
    ensures ExecsOk(t) && EndedOk(u, t)
  {
    hide Owed;
  }

  lemma PoolStepInv(u: Server, s: Sys, step: Step)
    requires ValidServer(u) && Inv(u, s) && Enabled(u, s, step) && (step.Internal? || step.Take? || step.Return? || step.Close?)
    ensures Inv(u, Next(u, s, step))
  {
    hide ConnOk;
    hide JobOk;
    hide EndedOk;
    hide ExecsOk;
    hide P.Inv;
    hide Inv;
    Sizes(u, s);
    match step
    case Internal(a) =>
      P.NextInv(s.pool, a);
      PoolMoves(u, s, Next(u, s, step));
    case Take(w) =>
      P.NextInv(s.pool, P.Poll(w));
      PoolMoves(u, s, Next(u, s, step));
    case Return(w) =>
      P.NextInv(s.pool, P.PutBack(w));
      PoolMoves(u, s, Next(u, s, step));
    case Close(w) =>
      P.NextInv(s.pool, P.Delete(w));
      PoolMoves(u, s, Next(u, s, step));
  }

  /** A channel that is just given to the server. */
  lemma GivenOk(u: Server, execs: seq<Exec>, id: nat, c: Conn, first: Option<Call>)
    requires ValidServer(u) && SizeOk(u, c.maxMsg) && Unused(c) && NotRun(execs, id, 1)
    requires first.Some? ==> Sendable(c, first.value)
    ensures ConnOk(u, execs, id, Given(c, first))
  {
    hide Handle;
    hide Request;
    hide Ok;
    hide OnWay;
    hide F.Frame;
    EmptyOk(c.Config(), c.up.framed);
    EmptyOk(c.Config(), c.down.framed);
    if first.Some? {
      var request := Request(first.value);
      RequestNotEmpty(first.value);
      PutLaws(c.Config(), c.up, request, |F.Frame(request)|);
    }
  }

  lemma GiveInv(u: Server, s: Sys, conn: Conn, first: Option<Call>)
    requires ValidServer(u) && Inv(u, s) && Enabled(u, s, Give(conn, first))
    ensures Inv(u, Next(u, s, Give(conn, first)))
  {
    hide P.Inv;
    hide Request;
    hide Handle;
    hide JobOk;
    hide ConnOk;
    hide Owed;
    hide Inv;
    Sizes(u, s);
    Records(u, s);
    P.NextInv(s.pool, P.Give);
    var t := Next(u, s, Give(conn, first));
    var id := |s.conns|;
    if t.conns != s.conns {
      assert NotRun(s.execs, id, 1);
      GivenOk(u, s.execs, id, conn, first);
    }
    forall i: nat | i < |t.conns|
      ensures ConnOk(u, t.execs, i, t.conns[i])
    {
      if i < id {
        ConnAt(u, s, i);
      }
    }
    forall w: nat | w < |t.jobs| && t.pool.workers[w].Holding?
      ensures Holds(t, w) && JobOk(u, t.execs, HeldId(t, w), t.conns[HeldId(t, w)], t.jobs[w])
    {
      JobAt(u, s, w);
    }
    Together(u, t);
  }

  lemma NextInv(u: Server, s: Sys, step: Step)
    requires ValidServer(u) && Inv(u, s) && Enabled(u, s, step)
    ensures Inv(u, Next(u, s, step))
  {
    hide Inv;
    hide Next;
    match step
    case Give(conn, first) => GiveInv(u, s, conn, first);
    case Arrives(id, toServer, m) => ArrivesInv(u, s, id, toServer, m);
    case Receive(w, broken, timedOut) => ReceiveInv(u, s, w, broken, timedOut);
    case Execute(w) => ExecuteInv(u, s, w);
    case SendReply(w, taken) => SendReplyInv(u, s, w, taken);
    case MakeCall(id, c, taken) => MakeCallInv(u, s, id, c, taken);
    case TakeReply(id, junk) => TakeReplyInv(u, s, id, junk);
    case GiveUp(id) => GiveUpInv(u, s, id);
    case _ => PoolStepInv(u, s, step);
  }

  lemma {:induction false} RunInv(u: Server, s: Sys, steps: seq<Step>, t: Sys)
    requires ValidServer(u) && Inv(u, s) && Reaches(u, s, steps, t)
    ensures Inv(u, t)
    decreases |steps|
  {
    hide Inv;
    hide Next;
    hide Enabled;
    if steps != [] {
      NextInv(u, s, steps[0]);
      RunInv(u, Next(u, s, steps[0]), steps[1..], t);
    }
  }

  // ---------------------------------------------------------------- what callers can rely on

  /**
   * In every interleaving, each call that was sent and has returned is one its client made, returned once, and if it
   * was answered got exactly the outcome it was owed, computed on the arguments it passed: never a stale reply, nor one
   * to another call. If it reached an endpoint, that endpoint ran for this call, and the outcome is that run's. A call
   * is refused unsent only if its request does not fit the channel.
   */
  lemma EndToEnd(u: Server, cap: nat, numWorkers: nat, maxId: nat, hasCallback: bool, steps: seq<Step>, t: Sys, k: nat)
    requires ValidServer(u) && Reaches(u, Init(cap, numWorkers, maxId, hasCallback), steps, t) && k < |t.ended|
    ensures var e := t.ended[k];
            match e.how
            case TooLarge => |Request(e.call)| > e.maxMsg
            case Lost => true
            case Answered(outcome, n) =>
              Expected(Over(u, e.maxMsg), n, e.id, e.call) == Some(outcome)
              && (Invokes(u, e.call) ==> n < |t.execs| && t.execs[n] == Exec(e.id, e.serial))
    ensures var e := t.ended[k];
            && e.id < |t.conns| && t.conns[e.id].maxMsg == e.maxMsg
            && (!e.how.TooLarge? ==>
                  1 <= e.serial <= |t.conns[e.id].calls| && t.conns[e.id].calls[e.serial - 1] == e.call)
    ensures forall j | 0 <= j < |t.ended| && j != k :: !SameCall(t.ended[j], t.ended[k])
  {
    InitInv(u, cap, numWorkers, maxId, hasCallback);
    RunInv(u, Init(cap, numWorkers, maxId, hasCallback), steps, t);
    Records(u, t);
    assert t.ended[k] in t.ended;
    forall j | 0 <= j < |t.ended| && j != k
      ensures !SameCall(t.ended[j], t.ended[k])
    {
      assert !SameCall(t.ended[if j < k then j else k], t.ended[if j < k then k else j]);
    }
  }

  /**
   * No call ever runs an endpoint twice, and no channel ever has two messages in flight, on its wires and in its queues
   * together. No message that a worker takes makes it read outside a block.
   */
  lemma AtMostOnce(u: Server, cap: nat, numWorkers: nat, maxId: nat, hasCallback: bool, steps: seq<Step>, t: Sys)
    requires ValidServer(u) && Reaches(u, Init(cap, numWorkers, maxId, hasCallback), steps, t)
    ensures forall i, j | 0 <= i < j < |t.execs| :: t.execs[i] != t.execs[j]
    ensures forall id: nat | id < |t.conns| ::
              t.conns[id].Config().Valid() && |ToServer(t.conns[id])| + |ToClient(t.conns[id])| <= 1
    ensures forall w: nat | Holds(t, w) && (t.jobs[w].Got? || t.jobs[w].Reply?) ::
              var conn := t.conns[HeldId(t, w)];
              conn.Config().Valid() && ToServer(conn) == [] && ToClient(conn) == []
    ensures forall w: nat | Holds(t, w) && t.jobs[w].Got? ::
              Inside(ScannedFirst(u, t.jobs[w].msg)) && Inside(ScannedLast(u, t.jobs[w].msg))
  {
    hide ScannedFirst;
    hide ScannedLast;
    hide Handle;
    hide Request;
    InitInv(u, cap, numWorkers, maxId, hasCallback);
    RunInv(u, Init(cap, numWorkers, maxId, hasCallback), steps, t);
    Records(u, t);
    forall id: nat | id < |t.conns|
      ensures t.conns[id].Config().Valid() && |ToServer(t.conns[id])| + |ToClient(t.conns[id])| <= 1
    {
      ConnAt(u, t, id);
    }
    forall w: nat | Holds(t, w) && (t.jobs[w].Got? || t.jobs[w].Reply?)
      ensures var conn := t.conns[HeldId(t, w)];
              conn.Config().Valid() && ToServer(conn) == [] && ToClient(conn) == []
    {
      JobAt(u, t, w);
    }
    forall w: nat | Holds(t, w) && t.jobs[w].Got?
      ensures Inside(ScannedFirst(u, t.jobs[w].msg)) && Inside(ScannedLast(u, t.jobs[w].msg))
    {
      var conn := t.conns[HeldId(t, w)];
      JobAt(u, t, w);
      ConnAt(u, t, HeldId(t, w));
      RequestReadInside(u, conn.Last());
    }
  }

  /** A run of the whole system is a run of its worker pool, so everything proved of pools holds here too. */
  lemma {:induction false} PoolRun(u: Server, s: Sys, steps: seq<Step>, t: Sys) returns (acts: seq<P.Action>)
    requires Reaches(u, s, steps, t)
    ensures P.Reaches(s.pool, acts, t.pool)
    decreases |steps|
  {
    hide P.Next;
    acts := [];
    if steps != [] {
      var s' := Next(u, s, steps[0]);
      acts := PoolRun(u, s', steps[1..], t);
      var a := match steps[0]
        case Give(conn, _) => if SizeOk(u, conn.maxMsg) then [P.Give] else []
        case Internal(a) => [a]
        case Take(w) => [P.Poll(w)]
        case Return(w) => [P.PutBack(w)]
        case Close(w) => [P.Delete(w)]
        case _ => [];
      if a != [] {
        acts := a + acts;
      }
    }
  }
}

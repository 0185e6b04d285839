/**
 * The worker pool of chrpc/src/rpc_server.c as a transition system. Each action is one critical section under `q_mut`
 * or `should_exit_mut`, or one thing a worker does to the channel it holds; any worker may act at any time.
 */
module WorkerPool {
  /**
   * Where a worker is in its loop. `Closing` has deleted its channel but not yet decremented the channel count;
   * `Notifying` has decremented it but not yet called the disconnect callback.
   */
  datatype Worker = Idle | Ready | Holding(id: nat) | Closing(id: nat) | Notifying(id: nat) | Exited

  /** The server's shared state, and a record of what was done to each channel. */
  datatype Pool = Pool(
    cap: nat,
    maxId: nat,
    hasCallback: bool,
    queue: seq<nat>,
    numChannels: int,
    idCounter: nat,
    workers: seq<Worker>,
    shouldExit: bool,
    closed: seq<nat>,
    drained: seq<nat>,
    notified: seq<nat>)

  datatype Action =
    | Give
    | CheckExit(w: nat)
    | Poll(w: nat)
    | PutBack(w: nat)
    | Delete(w: nat)
    | Decrement(w: nat)
    | Notify(w: nat)
    | RequestExit
    | Drain

  function Init(cap: nat, numWorkers: nat, maxId: nat, hasCallback: bool): Pool {
    Pool(cap, maxId, hasCallback, [], 0, 0, seq(numWorkers, _ => Idle), false, [], [], [])
  }

  /** `q_push`, its result ignored: a full queue loses the channel. */
  function Push(cap: nat, queue: seq<nat>, id: nat): seq<nat> {
    if |queue| < cap then queue + [id] else queue
  }

  predicate AllExited(s: Pool) {
    forall wk <- s.workers :: wk.Exited?
  }

  predicate Enabled(s: Pool, a: Action) {
    match a
    case Give => !s.shouldExit
    case CheckExit(w) => w < |s.workers| && s.workers[w].Idle?
    case Poll(w) => w < |s.workers| && s.workers[w].Ready?
    case PutBack(w) => w < |s.workers| && s.workers[w].Holding?
    case Delete(w) => w < |s.workers| && s.workers[w].Holding?
    case Decrement(w) => w < |s.workers| && s.workers[w].Closing?
    case Notify(w) => w < |s.workers| && s.workers[w].Notifying?
    case RequestExit => true
    case Drain => s.shouldExit && AllExited(s) && s.queue != []
  }

  function Next(s: Pool, a: Action): Pool
    requires Enabled(s, a)
  {
    match a
    case Give =>
      if s.numChannels == s.cap || s.idCounter == s.maxId then s
      else s.(queue := Push(s.cap, s.queue, s.idCounter), idCounter := s.idCounter + 1,
              numChannels := s.numChannels + 1)
    case CheckExit(w) => s.(workers := s.workers[w := if s.shouldExit then Exited else Ready])
    case Poll(w) =>
      if s.queue == [] then s.(workers := s.workers[w := Idle])
      else s.(workers := s.workers[w := Holding(s.queue[0])], queue := s.queue[1..])
    case PutBack(w) =>
      s.(queue := Push(s.cap, s.queue, s.workers[w].id), workers := s.workers[w := Idle])
    case Delete(w) =>
      s.(closed := s.closed + [s.workers[w].id], workers := s.workers[w := Closing(s.workers[w].id)])
    case Decrement(w) =>
      s.(numChannels := s.numChannels - 1, workers := s.workers[w := Notifying(s.workers[w].id)])
    case Notify(w) =>
      s.(notified := if s.hasCallback then s.notified + [s.workers[w].id] else s.notified,
         workers := s.workers[w := Idle])
    case RequestExit => s.(shouldExit := true)
    case Drain => s.(drained := s.drained + [s.queue[0]], queue := s.queue[1..])
  }

  /** `t` is where the run `acts` leads from `s`. */
  ghost predicate Reaches(s: Pool, acts: seq<Action>, t: Pool)
    decreases |acts|
  {
    if acts == [] then s == t
    else Enabled(s, acts[0]) && Reaches(Next(s, acts[0]), acts[1..], t)
  }

  // ---------------------------------------------------------------- the global counts

  /** What a worker's state says about a channel: it holds it, is closing it, or owes its disconnect callback. */
  datatype Claim = Holds | Closes | OwesCallback

  predicate Claims(c: Claim, wk: Worker) {
    match c
    case Holds => wk.Holding?
    case Closes => wk.Closing?
    case OwesCallback => wk.Closing? || wk.Notifying?
  }

  function Hit(c: Claim, wk: Worker, id: nat): nat {
    if Claims(c, wk) && wk.id == id then 1 else 0
  }

  /** How many workers have claim `c` on channel `id`. */
  function Count(c: Claim, ws: seq<Worker>, id: nat): nat {
    if ws == [] then 0 else Hit(c, ws[0], id) + Count(c, ws[1..], id)
  }

  /** How many workers have claim `c` on some channel. */
  function Total(c: Claim, ws: seq<Worker>): nat {
    if ws == [] then 0 else (if Claims(c, ws[0]) then 1 else 0) + Total(c, ws[1..])
  }

  lemma {:induction false} CountUpdate(c: Claim, ws: seq<Worker>, w: nat, wk: Worker, id: nat)
    requires w < |ws|
    ensures Count(c, ws[w := wk], id) + Hit(c, ws[w], id) == Count(c, ws, id) + Hit(c, wk, id)
  {
    hide Hit;
    var us, rest := ws[w := wk], ws[1..];
    if w == 0 {
      assert us[1..] == rest;
    } else {
      assert us[1..] == rest[w - 1 := wk] && us[0] == ws[0] && rest[w - 1] == ws[w];
      CountUpdate(c, rest, w - 1, wk, id);
    }
  }

  lemma {:induction false} TotalUpdate(c: Claim, ws: seq<Worker>, w: nat, wk: Worker)
    requires w < |ws|
    ensures Total(c, ws[w := wk]) + (if Claims(c, ws[w]) then 1 else 0)
            == Total(c, ws) + if Claims(c, wk) then 1 else 0
  {
    hide Claims;
    var us, rest := ws[w := wk], ws[1..];
    if w == 0 {
      assert us[1..] == rest;
    } else {
      assert us[1..] == rest[w - 1 := wk] && us[0] == ws[0] && rest[w - 1] == ws[w];
      TotalUpdate(c, rest, w - 1, wk);
    }
  }

  lemma {:induction false} CountAtLeast(c: Claim, ws: seq<Worker>, w: nat)
    requires w < |ws| && Claims(c, ws[w])
    ensures Count(c, ws, ws[w].id) >= 1 && Total(c, ws) >= 1
  {
    if w > 0 {
      CountAtLeast(c, ws[1..], w - 1);
    }
  }

  lemma {:induction false} CountTwo(c: Claim, ws: seq<Worker>, v: nat, w: nat)
    requires v < w < |ws| && Claims(c, ws[v]) && Claims(c, ws[w])
    ensures ws[v].id == ws[w].id ==> Count(c, ws, ws[w].id) >= 2
  {
    if v == 0 {
      CountAtLeast(c, ws[1..], w - 1);
    } else {
      CountTwo(c, ws[1..], v - 1, w - 1);
    }
  }

  lemma {:induction false} CountNone(c: Claim, ws: seq<Worker>)
    requires forall wk <- ws :: !Claims(c, wk)
    ensures Total(c, ws) == 0 && forall id: nat :: Count(c, ws, id) == 0
  {
    if ws != [] {
      CountNone(c, ws[1..]);
    }
  }

  /** In how many places a channel is: queued, held by a worker, closed by a worker, or drained. */
  ghost function Places(s: Pool, id: nat): nat {
    multiset(s.queue)[id] + Count(Holds, s.workers, id) + multiset(s.closed)[id] + multiset(s.drained)[id]
  }

  /** Callbacks made or owed for a channel. */
  ghost function Callbacks(s: Pool, id: nat): nat {
    multiset(s.notified)[id] + Count(OwesCallback, s.workers, id)
  }

  /** Channels not yet fully closed. */
  ghost function Live(s: Pool): nat {
    |s.queue| + Total(Holds, s.workers) + Total(Closes, s.workers) + |s.drained|
  }

  ghost predicate Inv(s: Pool) {
    && (forall id: nat :: Places(s, id) == if id < s.idCounter then 1 else 0)
    && s.numChannels == Live(s) <= s.cap
    && (s.hasCallback ==> forall id: nat :: Callbacks(s, id) == multiset(s.closed)[id])
    && (!s.hasCallback ==> s.notified == [])
    && (s.drained != [] ==> s.shouldExit && AllExited(s))
  }

  lemma InitInv(cap: nat, numWorkers: nat, maxId: nat, hasCallback: bool)
    ensures Inv(Init(cap, numWorkers, maxId, hasCallback))
  {
    var s := Init(cap, numWorkers, maxId, hasCallback);
    CountNone(Holds, s.workers);
    CountNone(Closes, s.workers);
    CountNone(OwesCallback, s.workers);
  }

  /** How a move of one worker changes the counts, channel by channel and in all. */
  lemma Counts(ws: seq<Worker>, w: nat, wk: Worker)
    requires w < |ws|
    ensures forall c, id: nat {:trigger Count(c, ws[w := wk], id)} ::
              Count(c, ws[w := wk], id) + Hit(c, ws[w], id) == Count(c, ws, id) + Hit(c, wk, id)
    ensures forall c {:trigger Total(c, ws[w := wk])} ::
              Total(c, ws[w := wk]) + (if Claims(c, ws[w]) then 1 else 0)
              == Total(c, ws) + if Claims(c, wk) then 1 else 0
  {
    forall c, id: nat
      ensures Count(c, ws[w := wk], id) + Hit(c, ws[w], id) == Count(c, ws, id) + Hit(c, wk, id)
    {
      CountUpdate(c, ws, w, wk, id);
    }
    forall c
      ensures Total(c, ws[w := wk]) + (if Claims(c, ws[w]) then 1 else 0)
              == Total(c, ws) + if Claims(c, wk) then 1 else 0
    {
      TotalUpdate(c, ws, w, wk);
    }
  }

  /** A worker that holds a channel leaves room for it in the queue. */
  lemma RoomToPutBack(s: Pool, w: nat)
    requires Inv(s) && w < |s.workers| && s.workers[w].Holding?
    ensures |s.queue| < s.cap
  {
    CountAtLeast(Holds, s.workers, w);
  }

  lemma HeadTail(q: seq<nat>)
    requires q != []
    ensures forall id: nat {:trigger multiset(q[1..])[id]} ::
              multiset(q)[id] == multiset(q[1..])[id] + if id == q[0] then 1 else 0
  {
    assert q == [q[0]] + q[1..];
  }

  lemma Appended(q: seq<nat>, x: nat)
    ensures forall id: nat {:trigger multiset(q + [x])[id]} ::
              multiset(q + [x])[id] == multiset(q)[id] + if id == x then 1 else 0
  {
  }

  lemma NextInv(s: Pool, a: Action)
    requires Inv(s) && Enabled(s, a)
    ensures Inv(Next(s, a))
  {
    match a
    case Give => GiveInv(s);
    case Poll(w) => PollInv(s, w);
    case PutBack(w) => PutBackInv(s, w);
    case Drain => DrainInv(s);
    case RequestExit => InvFrom(s, Next(s, RequestExit));
    case Delete(w) => DeleteInv(s, w);
    case Notify(w) => NotifyInv(s, w);
    case _ => WorkerInv(s, a);
  }

  lemma NobodyMoves(s: Pool, w: nat)
    requires Inv(s) && w < |s.workers| && !s.workers[w].Exited?
    ensures s.drained == []
  {
    assert s.workers[w] in s.workers;
  }

  lemma WorkerInv(s: Pool, a: Action)
    requires Inv(s) && Enabled(s, a) && (a.CheckExit? || a.Decrement?)
    ensures Inv(Next(s, a))
  {
    hide Count;
    hide Total;
    var wk := Next(s, a).workers[a.w];
    Counts(s.workers, a.w, wk);
    NobodyMoves(s, a.w);
    assert Next(s, a).workers == s.workers[a.w := wk];
    InvFrom(s, Next(s, a));
  }

  lemma DeleteInv(s: Pool, w: nat)
    requires Inv(s) && Enabled(s, Delete(w))
    ensures Inv(Next(s, Delete(w)))
  {
    hide Count;
    hide Total;
    Counts(s.workers, w, Closing(s.workers[w].id));
    NobodyMoves(s, w);
    Appended(s.closed, s.workers[w].id);
    InvFrom(s, Next(s, Delete(w)));
  }

  lemma NotifyInv(s: Pool, w: nat)
    requires Inv(s) && Enabled(s, Notify(w))
    ensures Inv(Next(s, Notify(w)))
  {
    hide Count;
    hide Total;
    Counts(s.workers, w, Idle);
    NobodyMoves(s, w);
    Appended(s.notified, s.workers[w].id);
    InvFrom(s, Next(s, Notify(w)));
  }

  /** The invariant from what a step did to the counts. */
  lemma InvFrom(s: Pool, t: Pool)
    requires Inv(s) && t.idCounter == s.idCounter && t.hasCallback == s.hasCallback && t.cap == s.cap
    requires forall id: nat :: Places(t, id) == Places(s, id)
    requires s.hasCallback ==> forall id: nat ::
               Callbacks(t, id) + multiset(s.closed)[id] == Callbacks(s, id) + multiset(t.closed)[id]
    requires !s.hasCallback ==> t.notified == []
    requires t.numChannels - Live(t) == s.numChannels - Live(s) && t.numChannels <= s.numChannels
    requires t.drained != [] ==> t.shouldExit && AllExited(t)
    ensures Inv(t)
  {
    hide Places;
    hide Callbacks;
    hide Live;
  }

  lemma PollInv(s: Pool, w: nat)
    requires Inv(s) && Enabled(s, Poll(w))
    ensures Inv(Next(s, Poll(w)))
  {
    hide Count;
    hide Total;
    var wk := Next(s, Poll(w)).workers[w];
    Counts(s.workers, w, wk);
    NobodyMoves(s, w);
    assert Next(s, Poll(w)).workers == s.workers[w := wk];
    if s.queue != [] {
      HeadTail(s.queue);
    }
    InvFrom(s, Next(s, Poll(w)));
  }

  lemma PutBackInv(s: Pool, w: nat)
    requires Inv(s) && Enabled(s, PutBack(w))
    ensures Inv(Next(s, PutBack(w)))
  {
    RoomToPutBack(s, w);
    hide Count;
    hide Total;
    Counts(s.workers, w, Idle);
    NobodyMoves(s, w);
    Appended(s.queue, s.workers[w].id);
    InvFrom(s, Next(s, PutBack(w)));
  }

  lemma DrainInv(s: Pool)
    requires Inv(s) && Enabled(s, Drain)
    ensures Inv(Next(s, Drain))
  {
    hide Count;
    hide Total;
    HeadTail(s.queue);
    Appended(s.drained, s.queue[0]);
    InvFrom(s, Next(s, Drain));
  }

  lemma GiveInv(s: Pool)
    requires Inv(s) && Enabled(s, Give)
    ensures Inv(Next(s, Give))
  {
    hide Count;
    hide Total;
    var t := Next(s, Give);
    if t != s {
      Appended(s.queue, s.idCounter);
      forall id: nat
        ensures Places(t, id) == if id < t.idCounter then 1 else 0
      {
        assert Places(s, id) == if id < s.idCounter then 1 else 0;
      }
      forall id: nat
        ensures Callbacks(t, id) == Callbacks(s, id)
      {
      }
    }
  }

  lemma {:induction false} RunInv(s: Pool, acts: seq<Action>, t: Pool)
    requires Inv(s) && Reaches(s, acts, t)
    ensures Inv(t)
    ensures t.cap == s.cap && t.maxId == s.maxId && t.hasCallback == s.hasCallback && |t.workers| == |s.workers|
    decreases |acts|
  {
    hide Inv;
    if acts != [] {
      NextInv(s, acts[0]);
      RunInv(Next(s, acts[0]), acts[1..], t);
    }
  }

  /** No worker leaves before exit is requested, and no more ids are given out than there are. */
  predicate StayOn(s: Pool) {
    (forall wk <- s.workers :: wk.Exited? ==> s.shouldExit) && s.idCounter <= s.maxId
  }

  lemma {:induction false} WorkersStay(s: Pool, acts: seq<Action>, t: Pool)
    requires StayOn(s) && Reaches(s, acts, t)
    ensures StayOn(t)
    decreases |acts|
  {
    if acts != [] {
      var s' := Next(s, acts[0]);
      forall wk | wk in s'.workers
        ensures wk.Exited? ==> s'.shouldExit
      {
        assert wk in s.workers || (!acts[0].Give? && !acts[0].RequestExit? && !acts[0].Drain? && wk == s'.workers[acts[0].w]);
      }
      WorkersStay(s', acts[1..], t);
    }
  }

  // ---------------------------------------------------------------- what holds in every reachable state

  /** The channel count is what it should be, nothing is lost, and no channel is ever in two places. */
  lemma PoolConservation(cap: nat, numWorkers: nat, maxId: nat, hasCallback: bool, acts: seq<Action>, t: Pool)
    requires Reaches(Init(cap, numWorkers, maxId, hasCallback), acts, t)
    ensures t.numChannels == |t.queue| + Total(Holds, t.workers) + Total(Closes, t.workers) + |t.drained| <= cap
    ensures forall id: nat :: Places(t, id) == if id < t.idCounter then 1 else 0
    ensures forall w | 0 <= w < |t.workers| && t.workers[w].Holding? ::
              |t.queue| < cap && t.workers[w].id !in t.queue && t.workers[w].id < t.idCounter
    ensures forall v, w | 0 <= v < w < |t.workers| && t.workers[v].Holding? && t.workers[w].Holding? ::
              t.workers[v].id != t.workers[w].id
    ensures forall i, j | 0 <= i < j < |t.queue| :: t.queue[i] != t.queue[j]
    ensures t.idCounter !in t.queue && t.idCounter <= maxId
    ensures forall wk <- t.workers :: wk.Exited? ==> t.shouldExit
  {
    InitInv(cap, numWorkers, maxId, hasCallback);
    RunInv(Init(cap, numWorkers, maxId, hasCallback), acts, t);
    WorkersStay(Init(cap, numWorkers, maxId, hasCallback), acts, t);
    forall w | 0 <= w < |t.workers| && t.workers[w].Holding?
      ensures |t.queue| < cap && t.workers[w].id !in t.queue && t.workers[w].id < t.idCounter
    {
      OneHolder(t, w);
    }
    forall v, w | 0 <= v < w < |t.workers| && t.workers[v].Holding? && t.workers[w].Holding?
      ensures t.workers[v].id != t.workers[w].id
    {
      NoTwoHolders(t, v, w);
    }
    forall i, j | 0 <= i < j < |t.queue|
      ensures t.queue[i] != t.queue[j]
    {
      QueuedOnce(t, i, j);
    }
    assert Places(t, t.idCounter) == 0;
    assert t.idCounter !in multiset(t.queue);
  }

  lemma OneHolder(t: Pool, w: nat)
    requires Inv(t) && w < |t.workers| && t.workers[w].Holding?
    ensures |t.queue| < t.cap && t.workers[w].id !in t.queue && t.workers[w].id < t.idCounter
  {
    hide Count;
    var id := t.workers[w].id;
    RoomToPutBack(t, w);
    CountAtLeast(Holds, t.workers, w);
    assert Places(t, id) == if id < t.idCounter then 1 else 0;
    assert id !in multiset(t.queue);
  }

  lemma NoTwoHolders(t: Pool, v: nat, w: nat)
    requires Inv(t) && v < w < |t.workers| && t.workers[v].Holding? && t.workers[w].Holding?
    ensures t.workers[v].id != t.workers[w].id
  {
    hide Count;
    CountTwo(Holds, t.workers, v, w);
    assert Places(t, t.workers[w].id) <= 1;
  }

  lemma QueuedOnce(t: Pool, i: nat, j: nat)
    requires Inv(t) && i < j < |t.queue|
    ensures t.queue[i] != t.queue[j]
  {
    Twice(t.queue, i, j);
    assert Places(t, t.queue[i]) <= 1;
  }

  lemma Twice(q: seq<nat>, i: nat, j: nat)
    requires i < j < |q|
    ensures q[i] == q[j] ==> multiset(q)[q[i]] >= 2
  {
    var a, b := q[..j], q[j..];
    assert q == a + b;
    assert q[i] == a[i] && a[i] in multiset(a) && q[j] == b[0] && b[0] in multiset(b);
  }

  /**
   * After all workers have been joined every live channel is in the queue; when the queue has been drained, every
   * channel ever accepted has been deleted exactly once, by a worker or by the drain, and the callback has run exactly
   * once for each channel closed by a worker and for no drained one.
   */
  lemma ExactlyOnce(cap: nat, numWorkers: nat, maxId: nat, hasCallback: bool, acts: seq<Action>, t: Pool)
    requires Reaches(Init(cap, numWorkers, maxId, hasCallback), acts, t) && AllExited(t)
    ensures forall id: nat ::
              multiset(t.queue)[id] + multiset(t.closed)[id] + multiset(t.drained)[id]
              == if id < t.idCounter then 1 else 0
    ensures multiset(t.notified) == if hasCallback then multiset(t.closed) else multiset{}
    ensures forall id <- t.drained :: id !in t.notified
  {
    var s := Init(cap, numWorkers, maxId, hasCallback);
    InitInv(cap, numWorkers, maxId, hasCallback);
    RunInv(s, acts, t);
    CountNone(Holds, t.workers);
    CountNone(OwesCallback, t.workers);
    forall id: nat
      ensures multiset(t.queue)[id] + multiset(t.closed)[id] + multiset(t.drained)[id]
              == if id < t.idCounter then 1 else 0
    {
      assert Places(t, id) == if id < t.idCounter then 1 else 0;
    }
    if hasCallback {
      forall id: nat
        ensures multiset(t.notified)[id] == multiset(t.closed)[id]
      {
        assert Callbacks(t, id) == multiset(t.closed)[id];
      }
    }
    forall id | id in t.drained
      ensures id !in t.notified
    {
      assert id in multiset(t.drained) && multiset(t.closed)[id] == 0;
      assert id !in multiset(t.notified);
    }
  }

  // ---------------------------------------------------------------- fairness and shutdown

  /** How many channels a run takes off the front of the queue. */
  ghost function Taken(s: Pool, acts: seq<Action>): nat
    decreases |acts|
  {
    if acts == [] || !Enabled(s, acts[0]) then 0
    else (if (acts[0].Poll? && s.queue != []) || acts[0].Drain? then 1 else 0) + Taken(Next(s, acts[0]), acts[1..])
  }

  /** A channel behind k others in the queue is overtaken by nobody: the (k + 1)th successful poll takes it. */
  lemma {:induction false} BoundedBypass(s: Pool, acts: seq<Action>, t: Pool, k: nat)
    requires Inv(s) && Reaches(s, acts, t) && k < |s.queue| && Taken(s, acts) <= k
    ensures k - Taken(s, acts) < |t.queue| && t.queue[k - Taken(s, acts)] == s.queue[k]
    decreases |acts|
  {
    hide Inv;
    if acts != [] {
      var s' := Next(s, acts[0]);
      NextInv(s, acts[0]);
      var k' := if (acts[0].Poll? && s.queue != []) || acts[0].Drain? then k - 1 else k;
      assert s'.queue[k'] == s.queue[k];
      BoundedBypass(s', acts[1..], t, k');
    }
  }

  /** A channel is accepted exactly when there is room for it and an id is left, and then it is behind all others. */
  lemma GiveAccepts(cap: nat, numWorkers: nat, maxId: nat, hasCallback: bool, acts: seq<Action>, t: Pool)
    requires Reaches(Init(cap, numWorkers, maxId, hasCallback), acts, t) && !t.shouldExit
    ensures var room := |t.queue| + Total(Holds, t.workers) + Total(Closes, t.workers) < cap;
            Enabled(t, Give)
            && Next(t, Give) == if !room || t.idCounter == maxId then t
                                else t.(queue := t.queue + [t.idCounter], idCounter := t.idCounter + 1,
                                        numChannels := t.numChannels + 1)
  {
    InitInv(cap, numWorkers, maxId, hasCallback);
    RunInv(Init(cap, numWorkers, maxId, hasCallback), acts, t);
  }

  /** What a worker does next if it keeps its channel. */
  function Onward(s: Pool, w: nat): Action
    requires w < |s.workers| && !s.workers[w].Exited?
  {
    match s.workers[w]
    case Ready => Poll(w)
    case Holding(_) => PutBack(w)
    case Closing(_) => Decrement(w)
    case Notifying(_) => Notify(w)
    case _ => CheckExit(w)
  }

  /** A step of worker `w` alone. */
  predicate IsOf(a: Action, w: nat) {
    !a.Give? && !a.RequestExit? && !a.Drain? && a.w == w
  }

  /** How far a worker is from taking the next channel. */
  function Distance(wk: Worker): nat {
    match wk
    case Ready => 0
    case Idle => 1
    case Notifying(_) => 2
    case Holding(_) => 2
    case Closing(_) => 3
    case Exited => 0
  }

  /**
   * Unless exit is requested, every worker is still at work, and any one of them, whatever it is doing, takes the first
   * queued channel within four steps of its own, the others doing nothing.
   */
  lemma Served(cap: nat, numWorkers: nat, maxId: nat, hasCallback: bool, acts: seq<Action>, t: Pool, w: nat)
    returns (more: seq<Action>, u: Pool)
    requires Reaches(Init(cap, numWorkers, maxId, hasCallback), acts, t)
    requires !t.shouldExit && t.queue != [] && w < numWorkers
    ensures Reaches(t, more, u) && |more| <= 4 && forall a <- more :: IsOf(a, w)
    ensures w < |u.workers| && u.workers[w] == Holding(t.queue[0]) && !u.shouldExit
  {
    InitInv(cap, numWorkers, maxId, hasCallback);
    RunInv(Init(cap, numWorkers, maxId, hasCallback), acts, t);
    WorkersStay(Init(cap, numWorkers, maxId, hasCallback), acts, t);
    assert t.workers[w] in t.workers;
    more, u := TakesFirst(t, w);
  }

  lemma {:induction false} TakesFirst(s: Pool, w: nat) returns (more: seq<Action>, u: Pool)
    requires w < |s.workers| && !s.workers[w].Exited? && !s.shouldExit && s.queue != []
    ensures Reaches(s, more, u) && |more| <= 1 + Distance(s.workers[w])
    ensures forall a <- more :: IsOf(a, w)
    ensures |u.workers| == |s.workers| && u.workers[w] == Holding(s.queue[0]) && !u.shouldExit
    decreases Distance(s.workers[w])
  {
    var a := Onward(s, w);
    var s' := Next(s, a);
    if s.workers[w].Ready? {
      more, u := [a], s';
      assert more[1..] == [] && Reaches(s', [], u);
    } else {
      more, u := TakesFirst(s', w);
      more := [a] + more;
      assert Reaches(s', more[1..], u);
    }
  }

  /** The most steps a worker can still take once it has to exit. */
  function Rank(wk: Worker): nat {
    match wk
    case Exited => 0
    case Idle => 1
    case Notifying(_) => 2
    case Closing(_) => 3
    case Holding(_) => 4
    case Ready => 5
  }

  function Ranks(ws: seq<Worker>): nat {
    if ws == [] then 0 else Rank(ws[0]) + Ranks(ws[1..])
  }

  lemma {:induction false} RanksUpdate(ws: seq<Worker>, w: nat, wk: Worker)
    requires w < |ws|
    ensures Ranks(ws[w := wk]) + Rank(ws[w]) == Ranks(ws) + Rank(wk)
  {
    hide Rank;
    var us, rest := ws[w := wk], ws[1..];
    if w == 0 {
      assert us[1..] == rest;
    } else {
      assert us[1..] == rest[w - 1 := wk] && us[0] == ws[0] && rest[w - 1] == ws[w];
      RanksUpdate(rest, w - 1, wk);
    }
  }

  /** Once exit is requested every run ends within a bound, and can go on until all is drained. */
  lemma {:induction false} ShutdownTerminates(s: Pool, acts: seq<Action>, t: Pool)
    requires s.shouldExit && Reaches(s, acts, t) && RequestExit !in acts
    ensures t.shouldExit && |acts| + Ranks(t.workers) + |t.queue| <= Ranks(s.workers) + |s.queue|
    ensures !(AllExited(t) && t.queue == []) ==> exists a :: a != RequestExit && Enabled(t, a)
    decreases |acts|
  {
    if acts == [] {
      if AllExited(t) {
        assert t.queue != [] ==> Enabled(t, Drain);
      } else {
        var wk :| wk in t.workers && !wk.Exited?;
        var w :| 0 <= w < |t.workers| && t.workers[w] == wk;
        var a := if wk.Ready? then Poll(w)
                 else if wk.Holding? then PutBack(w)
                 else if wk.Closing? then Decrement(w)
                 else if wk.Notifying? then Notify(w)
                 else CheckExit(w);
        assert Enabled(t, a);
      }
    } else {
      assert acts[0] in acts;
      var s' := Next(s, acts[0]);
      if !acts[0].Drain? {
        RanksUpdate(s.workers, acts[0].w, s'.workers[acts[0].w]);
        assert s'.workers == s.workers[acts[0].w := s'.workers[acts[0].w]];
      }
      ShutdownTerminates(s', acts[1..], t);
    }
  }
}

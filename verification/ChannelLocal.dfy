/**
 * The in-process mailbox of chrpc/src/channel_local.c with its two overflow policies, and what whole runs of it
 * conserve.
 */
module ChannelLocal {
  import opened Bytes
  import opened Channel
  import F = Framing
  import Q = Queue

  class ChannelLocal {
    const maxMsg: nat
    const writeOver: bool
    const queue: Q.Queue<bytes>

    ghost function Repr(): set<object> {
      {queue, queue.table}
    }

    ghost predicate Valid()
      reads Repr()
    {
      queue.Valid()
    }

    /** The abstract mailbox, without its history. */
    ghost function Box(): Mailbox
      reads Repr()
      requires Valid()
    {
      Mailbox(queue.cap, maxMsg, writeOver, queue.Contents())
    }

    constructor (queueDepth: nat, writeOver: bool, maxMsg: nat)
      requires queueDepth > 0
      ensures Valid() && Box() == Mailbox(queueDepth, maxMsg, writeOver, []) && fresh(Repr())
    {
      this.writeOver, this.maxMsg := writeOver, maxMsg;
      queue := new Q.Queue(queueDepth);
    }

    method Send(msg: bytes) returns (st: ChannelStatus)
      requires Valid()
      modifies Repr()
      ensures Valid() && (st, Box()) == old(Box()).Send(msg)
    {
      if |msg| == 0 || |msg| > maxMsg {
        return ChnInvalidMsgSize;
      }
      if queue.len == queue.cap {
        if !writeOver {
          return ChnChannelFull;
        }
        var _ := queue.Poll();
      }
      var _ := queue.Push(msg);
      st := ChnSuccess;
    }

    method Receive(len: nat) returns (st: ChannelStatus, msg: bytes)
      requires Valid()
      modifies Repr()
      ensures Valid() && (st, msg, Box()) == old(Box()).Receive(len)
    {
      var front := queue.Peek();
      if front.None? {
        return ChnNoIncomingMsg, [];
      }
      if |front.value| > len {
        return ChnBufferTooSmall, [];
      }
      var m := queue.Poll();
      return ChnSuccess, m.value;
    }
  }

  datatype Mailbox = Mailbox(cap: nat, maxMsg: nat, writeOver: bool, queue: seq<bytes>) {
    function Send(msg: bytes): (ChannelStatus, Mailbox) {
      if msg == [] || |msg| > maxMsg then (ChnInvalidMsgSize, this)
      else if |queue| < cap then (ChnSuccess, this.(queue := queue + [msg]))
      else if !writeOver || queue == [] then (ChnChannelFull, this)
      else (ChnSuccess, this.(queue := queue[1..] + [msg]))
    }

    function Receive(len: nat): (ChannelStatus, bytes, Mailbox) {
      if queue == [] then (ChnNoIncomingMsg, [], this)
      else if |queue[0]| > len then (ChnBufferTooSmall, [], this)
      else (ChnSuccess, queue[0], this.(queue := queue[1..]))
    }
  }

  // ---------------------------------------------------------------- whole runs

  datatype Op = Send(msg: bytes) | Receive(len: nat)

  /** A message that has left the mailbox, by being received or by being written over. */
  datatype Gone = Gone(msg: bytes, received: bool)

  /** A mailbox with what has happened to it: the sends it accepted and the messages that have left it. */
  datatype History = History(box: Mailbox, accepted: seq<bytes>, gone: seq<Gone>)

  function Apply(h: History, op: Op): History {
    match op
    case Send(msg) =>
      var (st, box) := h.box.Send(msg);
      if st != ChnSuccess then h
      else
        History(box, h.accepted + [msg],
                if |h.box.queue| < h.box.cap then h.gone else h.gone + [Gone(h.box.queue[0], false)])
    case Receive(len) =>
      var (st, msg, box) := h.box.Receive(len);
      if st != ChnSuccess then h else History(box, h.accepted, h.gone + [Gone(msg, true)])
  }

  function ApplyAll(h: History, ops: seq<Op>): History
    decreases |ops|
  {
    if ops == [] then h else ApplyAll(Apply(h, ops[0]), ops[1..])
  }

  function GoneMsgs(gone: seq<Gone>): seq<bytes> {
    seq(|gone|, i requires 0 <= i < |gone| => gone[i].msg)
  }

  predicate Conserved(h: History) {
    && GoneMsgs(h.gone) + h.box.queue == h.accepted
    && |h.box.queue| <= h.box.cap
    && (!h.box.writeOver ==> forall g <- h.gone :: g.received)
    && forall m <- h.accepted :: 1 <= |m| <= h.box.maxMsg
  }

  /**
   * Over every run, what left the mailbox followed by what is queued is what was accepted, in order. Without
   * overwriting everything that left was received; with it only messages that were the oldest queued are missing.
   */
  lemma {:induction false} FifoConservation(h: History, ops: seq<Op>)
    requires Conserved(h)
    ensures Conserved(ApplyAll(h, ops))
    ensures ApplyAll(h, ops).box == h.box.(queue := ApplyAll(h, ops).box.queue)
    decreases |ops|
  {
    hide Conserved;
    if ops != [] {
      OpConserves(h, ops[0]);
      FifoConservation(Apply(h, ops[0]), ops[1..]);
    }
  }

  lemma OpConserves(h: History, op: Op)
    requires Conserved(h)
    ensures Conserved(Apply(h, op)) && Apply(h, op).box == h.box.(queue := Apply(h, op).box.queue)
  {
    var h', q := Apply(h, op), h.box.queue;
    if |h'.gone| > |h.gone| {
      Leaves(h.gone, q, h'.gone[|h.gone|]);
    }
    if op.Send? && h' != h {
      var rest := if |h'.gone| > |h.gone| then q[1..] else q;
      Assoc(GoneMsgs(h'.gone), rest, [op.msg]);
      forall m | m in h'.accepted
        ensures 1 <= |m| <= h.box.maxMsg
      {
        assert m in h.accepted || m == op.msg;
      }
    }
  }

  lemma Leaves(gone: seq<Gone>, queue: seq<bytes>, g: Gone)
    requires queue != [] && g.msg == queue[0]
    ensures GoneMsgs(gone + [g]) + queue[1..] == GoneMsgs(gone) + queue
  {
    assert GoneMsgs(gone + [g]) == GoneMsgs(gone) + [g.msg];
    assert queue == [g.msg] + queue[1..];
    Assoc(GoneMsgs(gone), [g.msg], queue[1..]);
  }

  // ---------------------------------------------------------------- what is kept, and what is received

  /** The messages that a channel takes at all. */
  function Wanted(maxMsg: nat, msgs: seq<bytes>): seq<bytes> {
    if msgs == [] then []
    else (if 1 <= |msgs[0]| <= maxMsg then [msgs[0]] else []) + Wanted(maxMsg, msgs[1..])
  }

  function Sends(msgs: seq<bytes>): seq<Op> {
    seq(|msgs|, i requires 0 <= i < |msgs| => Send(msgs[i]))
  }

  /** One message more, wherever it ends up, plays no part in what is kept of all in the end. */
  lemma KeptStep(c: F.Config, q: seq<bytes>, m: bytes, rest: seq<bytes>)
    requires c.cap > 0 && |q| <= c.cap
    ensures var q' := if |q| < c.cap then q + [m] else if c.writeOver then q[1..] + [m] else q;
            F.Kept(c, q' + rest) == F.Kept(c, q + ([m] + rest))
  {
    var all := q + ([m] + rest);
    if |q| < c.cap {
      Assoc(q, [m], rest);
    } else if c.writeOver {
      assert q[1..] + [m] + rest == all[1..];
    } else {
      assert all[..c.cap] == q == (q + rest)[..c.cap];
    }
  }

  /** Of the sends wanted, those that a mailbox with so many messages in it accepts. */
  function Taken(c: F.Config, len: nat, wanted: seq<bytes>): seq<bytes>
    requires len <= c.cap
  {
    if c.writeOver then wanted else wanted[..F.Min(|wanted|, c.cap - len)]
  }

  lemma TakenStep(c: F.Config, len: nat, m: bytes, rest: seq<bytes>)
    requires len <= c.cap
    ensures Taken(c, len, [m] + rest)
         == if len < c.cap then [m] + Taken(c, len + 1, rest)
            else if c.writeOver then [m] + Taken(c, len, rest)
            else Taken(c, len, rest)
  {
  }

  /**
   * After any run of sends the mailbox holds the first messages that fit or, when it writes over, the last; and those
   * accepted are the first that fit or all of them. Messages that are empty or too long play no part.
   */
  lemma {:induction false} SendsKeep(h: History, msgs: seq<bytes>)
    requires h.box.cap > 0 && |h.box.queue| <= h.box.cap
    ensures var c := F.Config(h.box.cap, h.box.maxMsg, h.box.writeOver);
            var wanted, h' := Wanted(h.box.maxMsg, msgs), ApplyAll(h, Sends(msgs));
            && h'.box == h.box.(queue := F.Kept(c, h.box.queue + wanted))
            && h'.accepted == h.accepted + Taken(c, |h.box.queue|, wanted)
    decreases |msgs|
  {
    var c := F.Config(h.box.cap, h.box.maxMsg, h.box.writeOver);
    var q := h.box.queue;
    if msgs == [] {
      assert q + [] == q && h.accepted + [] == h.accepted;
    } else {
      var m, rest := msgs[0], Wanted(h.box.maxMsg, msgs[1..]);
      var h1 := Apply(h, Send(m));
      assert Sends(msgs)[0] == Send(m) && Sends(msgs)[1..] == Sends(msgs[1..]);
      SendsKeep(h1, msgs[1..]);
      hide F.Kept;
      hide Taken;
      if 1 <= |m| <= h.box.maxMsg {
        KeptStep(c, q, m, rest);
        TakenStep(c, |q|, m, rest);
        Assoc(h.accepted, [m], Taken(c, |h1.box.queue|, rest));
      } else {
        assert [] + rest == rest;
      }
    }
  }

  function Receives(n: nat, len: nat): seq<Op> {
    seq(n, _ => Receive(len))
  }

  /** Messages that have been received. */
  function Received(msgs: seq<bytes>): seq<Gone> {
    seq(|msgs|, i requires 0 <= i < |msgs| => Gone(msgs[i], true))
  }

  /** Receiving into a buffer that any message fits takes the oldest messages, in order, as many as there are. */
  lemma {:induction false} ReceivesTake(h: History, n: nat, len: nat)
    requires len >= h.box.maxMsg && forall m <- h.box.queue :: |m| <= h.box.maxMsg
    ensures var h', q, k := ApplyAll(h, Receives(n, len)), h.box.queue, F.Min(n, |h.box.queue|);
            h'.box.queue == q[k..] && h'.accepted == h.accepted && h'.gone == h.gone + Received(q[..k])
    decreases n
  {
    var q := h.box.queue;
    if n == 0 {
      assert Receives(n, len) == [] && h.gone + [] == h.gone;
    } else {
      assert Receives(n, len)[0] == Receive(len) && Receives(n, len)[1..] == Receives(n - 1, len);
      if q == [] {
        assert Apply(h, Receive(len)) == h;
        ReceivesTake(h, n - 1, len);
      } else {
        assert q[0] in q;
        var h1, k := Apply(h, Receive(len)), F.Min(n, |q|);
        assert h1.box.queue == q[1..] && h1.gone == h.gone + [Gone(q[0], true)];
        ReceivesTake(h1, n - 1, len);
        OldestFirst(q, k);
        Assoc(h.gone, [Gone(q[0], true)], Received(q[1..][..k - 1]));
      }
    }
  }

  lemma OldestFirst(q: seq<bytes>, k: nat)
    requires 0 < k <= |q|
    ensures Received(q[..k]) == [Gone(q[0], true)] + Received(q[1..][..k - 1]) && q[1..][k - 1..] == q[k..]
  {
  }

  /** A buffer too small for the oldest message receives nothing, and nothing is lost. */
  lemma TooSmallLosesNothing(h: History, len: nat)
    requires h.box.queue == [] || len < |h.box.queue[0]|
    ensures Apply(h, Receive(len)) == h
  {
  }
}

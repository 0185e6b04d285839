/**
 * The framing protocol of chrpc/src/channel_fd.c as an automaton that takes one byte at a time, and what it does to
 * whole streams of frames.
 */
module Framing {
  import opened Bytes

  const START_MAGIC: byte := 0x1E
  const END_MAGIC: byte := 0x2A

  /** Queue depth, largest message, and whether a full queue loses its oldest message instead of the new one. */
  datatype Config = Config(cap: nat, maxMsg: nat, writeOver: bool) {
    predicate Valid() {
      0 < cap && 0 < maxMsg < U32_RANGE
    }
  }

  /** `pending` is the frame read so far, magic byte and length included; it is empty while searching for a frame. */
  datatype State = State(pending: bytes, queue: seq<bytes>)

  /** The length in a header that has been read. */
  function FromPending(p: bytes): nat
    requires |p| >= 5
  {
    FromU32(p[1..5])
  }

  function Deliver(c: Config, queue: seq<bytes>, msg: bytes): seq<bytes>
    requires c.Valid()
  {
    if msg == [] then queue
    else if |queue| < c.cap then queue + [msg]
    else if c.writeOver then queue[1..] + [msg]
    else queue
  }

  function Search(b: byte): bytes {
    if b == START_MAGIC then [b] else []
  }

  /** What one byte does. A frame that turns out too long is dropped and its next byte starts a new search. */
  function Step(c: Config, st: State, b: byte): State
    requires c.Valid()
  {
    var p := st.pending;
    if p == [] then State(Search(b), st.queue)
    else if |p| < 5 then State(p + [b], st.queue)
    else
      var n := FromPending(p);
      if n > c.maxMsg then State(Search(b), st.queue)
      else if |p| < 5 + n then State(p + [b], st.queue)
      else if b == END_MAGIC then State([], Deliver(c, st.queue, p[5..5 + n]))
      else State([], st.queue)
  }

  function Run(c: Config, st: State, s: bytes): State
    requires c.Valid()
    decreases |s|
  {
    if s == [] then st else Run(c, Step(c, st, s[0]), s[1..])
  }

  function Concat(chunks: seq<bytes>): bytes {
    if chunks == [] then [] else chunks[0] + Concat(chunks[1..])
  }

  function RunChunks(c: Config, st: State, chunks: seq<bytes>): State
    requires c.Valid()
    decreases |chunks|
  {
    if chunks == [] then st else RunChunks(c, Run(c, st, chunks[0]), chunks[1..])
  }

  function Header(n: nat): bytes {
    [START_MAGIC] + U32(n)
  }

  /** What the sender writes for one message. */
  function Frame(msg: bytes): bytes {
    Header(|msg|) + msg + [END_MAGIC]
  }

  // ---------------------------------------------------------------- runs

  lemma {:induction false} RunConcat(c: Config, st: State, a: bytes, b: bytes)
    requires c.Valid()
    ensures Run(c, st, a + b) == Run(c, Run(c, st, a), b)
    decreases |a|
  {
    hide Step;
    if a == [] {
      assert a + b == b;
    } else {
      RunConcat(c, Step(c, st, a[0]), a[1..], b);
      assert (a + b)[0] == a[0] && (a + b)[1..] == a[1..] + b;
    }
  }

  /** However a stream is cut into chunks, the decoder and its queue end up the same. */
  lemma {:induction false} ChunkIndependence(c: Config, st: State, chunks: seq<bytes>)
    requires c.Valid()
    ensures RunChunks(c, st, chunks) == Run(c, st, Concat(chunks))
    decreases |chunks|
  {
    hide Run;
    if chunks == [] {
      NoBytes(c, st);
    } else {
      RunConcat(c, st, chunks[0], Concat(chunks[1..]));
      ChunkIndependence(c, Run(c, st, chunks[0]), chunks[1..]);
    }
  }

  /** One byte off the front, or several that belong to the frame being read. */
  lemma RunFront(c: Config, st: State, s: bytes)
    requires c.Valid() && s != []
    ensures Run(c, st, s) == Run(c, Step(c, st, s[0]), s[1..])
  {
  }

  lemma RunBulk(c: Config, st: State, s: bytes, n: nat)
    requires c.Valid() && n <= |s| && Absorbs(c, st.pending, n)
    ensures Run(c, st, s) == Run(c, State(st.pending + s[..n], st.queue), s[n..])
  {
    assert s == s[..n] + s[n..];
    RunConcat(c, st, s[..n], s[n..]);
    RunAbsorb(c, st, s[..n]);
  }

  lemma NoBytes(c: Config, st: State)
    requires c.Valid()
    ensures Run(c, st, []) == st
  {
  }

  /** The decoder has no frame it could still complete: nothing pending, or the header of one that is too long. */
  predicate Searching(c: Config, st: State) {
    st.pending == [] || (|st.pending| == 5 && FromPending(st.pending) > c.maxMsg)
  }

  /** Bytes without a start magic are skipped while searching. */
  lemma {:induction false} RunJunk(c: Config, st: State, junk: bytes)
    requires c.Valid() && Searching(c, st) && START_MAGIC !in junk
    ensures Run(c, st, junk) == if junk == [] then st else State([], st.queue)
    decreases |junk|
  {
    hide FromU32;
    if junk != [] {
      RunJunk(c, State([], st.queue), junk[1..]);
    }
  }

  /** Bytes that belong to the header or to the payload of the frame being read are appended to it. */
  predicate Absorbs(c: Config, p: bytes, n: nat) {
    p != [] && (|p| + n <= 5 || (|p| >= 5 && FromPending(p) <= c.maxMsg && |p| + n <= 5 + FromPending(p)))
  }

  lemma {:induction false} RunAbsorb(c: Config, st: State, s: bytes)
    requires c.Valid() && Absorbs(c, st.pending, |s|)
    ensures Run(c, st, s) == State(st.pending + s, st.queue)
    decreases |s|
  {
    hide FromU32;
    var p := st.pending;
    if s == [] {
      assert p + s == p;
    } else {
      var p' := p + [s[0]];
      assert |p| >= 5 ==> p'[1..5] == p[1..5];
      assert Step(c, st, s[0]) == State(p', st.queue);
      RunAbsorb(c, State(p', st.queue), s[1..]);
      assert p' + s[1..] == p + s;
    }
  }

  lemma RunHeader(c: Config, st: State, n: nat)
    requires c.Valid() && Searching(c, st) && n < U32_RANGE
    ensures Run(c, st, Header(n)) == State(Header(n), st.queue)
    ensures |Header(n)| == 5 && FromPending(Header(n)) == n
  {
    hide U32;
    hide FromU32;
    RunConcat(c, st, [START_MAGIC], U32(n));
    OneByte(c, st, START_MAGIC);
    RunAbsorb(c, State([START_MAGIC], st.queue), U32(n));
    assert Header(n)[1..5] == U32(n) == U32(n) + [];
    ReadBackU32(n, []);
  }

  /**
   * A frame read by a decoder that is searching delivers its payload, whatever bytes the payload holds, if it ends in
   * the end magic, and nothing otherwise.
   */
  lemma FrameRun(c: Config, st: State, msg: bytes, last: byte)
    requires c.Valid() && Searching(c, st) && |msg| <= c.maxMsg
    ensures Run(c, st, Header(|msg|) + msg + [last])
            == State([], if last == END_MAGIC then Deliver(c, st.queue, msg) else st.queue)
  {
    hide Header;
    hide Run;
    hide Step;
    var h := Header(|msg|);
    var p := h + msg;
    RunHeader(c, st, |msg|);
    RunConcat(c, st, p, [last]);
    RunConcat(c, st, h, msg);
    RunAbsorb(c, State(h, st.queue), msg);
    OneByte(c, State(p, st.queue), last);
    assert p[1..5] == h[1..5] && p[5..5 + |msg|] == msg;
    LastByte(c, p, st.queue, msg, last);
  }

  lemma OneByte(c: Config, st: State, b: byte)
    requires c.Valid()
    ensures Run(c, st, [b]) == Step(c, st, b)
  {
    assert [b][1..] == [];
    NoBytes(c, Step(c, st, b));
  }

  lemma LastByte(c: Config, p: bytes, queue: seq<bytes>, msg: bytes, last: byte)
    requires c.Valid() && |p| == 5 + |msg| && p[5..5 + |msg|] == msg && FromPending(p) == |msg| <= c.maxMsg
    ensures Step(c, State(p, queue), last)
            == State([], if last == END_MAGIC then Deliver(c, queue, msg) else queue)
  {
    hide FromU32;
  }

  // ---------------------------------------------------------------- whole streams

  /** What may come down the wire: junk, frames, frames with a wrong last byte, and headers of frames too long. */
  datatype Item =
    | Junk(junk: bytes)
    | Whole(msg: bytes)
    | Damaged(msg: bytes, last: byte)
    | TooLong(len: nat)
  {
    predicate Valid(c: Config) {
      match this
      case Junk(b) => START_MAGIC !in b
      case Whole(m) => |m| <= c.maxMsg
      case Damaged(m, b) => |m| <= c.maxMsg && b != END_MAGIC
      case TooLong(n) => c.maxMsg < n < U32_RANGE
    }

    function Wire(): bytes {
      match this
      case Junk(b) => b
      case Whole(m) => Frame(m)
      case Damaged(m, b) => Header(|m|) + m + [b]
      case TooLong(n) => Header(n)
    }

    /** Empty messages are never delivered. */
    function Payload(): seq<bytes> {
      if Whole? && msg != [] then [msg] else []
    }
  }

  function Stream(items: seq<Item>): bytes {
    if items == [] then [] else items[0].Wire() + Stream(items[1..])
  }

  function Payloads(items: seq<Item>): seq<bytes> {
    if items == [] then [] else items[0].Payload() + Payloads(items[1..])
  }

  function DeliverAll(c: Config, queue: seq<bytes>, msgs: seq<bytes>): seq<bytes>
    requires c.Valid()
    decreases |msgs|
  {
    if msgs == [] then queue else DeliverAll(c, Deliver(c, queue, msgs[0]), msgs[1..])
  }

  function Min(a: int, b: int): int {
    if a < b then a else b
  }

  /** What a full queue does to a run of messages: it keeps the first that fit or, when overwriting, the last. */
  function Kept(c: Config, all: seq<bytes>): seq<bytes> {
    var n := Min(|all|, c.cap);
    if c.writeOver then all[|all| - n..] else all[..n]
  }

  lemma {:induction false} OverflowPolicy(c: Config, queue: seq<bytes>, msgs: seq<bytes>)
    requires c.Valid() && |queue| <= c.cap && [] !in msgs
    ensures DeliverAll(c, queue, msgs) == Kept(c, queue + msgs)
    decreases |msgs|
  {
    var all := queue + msgs;
    if msgs == [] {
      assert all == queue;
    } else {
      var q' := Deliver(c, queue, msgs[0]);
      OverflowPolicy(c, q', msgs[1..]);
      var all' := q' + msgs[1..];
      if |queue| < c.cap {
        assert all' == all;
      } else if c.writeOver {
        assert all' == all[1..];
      } else {
        assert all'[..c.cap] == queue == all[..c.cap];
      }
    }
  }

  /**
   * The messages framed in a stream, with junk, damaged frames and frames too long between them, and the stream cut
   * into chunks anyhow: exactly the undamaged non-empty messages are delivered, in order, into a queue that keeps the
   * first or the last of them; and the decoder is searching again.
   */
  lemma StreamDelivers(c: Config, st: State, items: seq<Item>, chunks: seq<bytes>)
    requires c.Valid() && Searching(c, st) && |st.queue| <= c.cap
    requires (forall it <- items :: it.Valid(c)) && Concat(chunks) == Stream(items)
    ensures Searching(c, RunChunks(c, st, chunks))
    ensures RunChunks(c, st, chunks).queue == Kept(c, st.queue + Payloads(items))
  {
    ChunkIndependence(c, st, chunks);
    StreamRun(c, st, items);
    NoEmptyPayloads(items);
    OverflowPolicy(c, st.queue, Payloads(items));
  }

  lemma {:induction false} NoEmptyPayloads(items: seq<Item>)
    ensures [] !in Payloads(items)
  {
    if items != [] {
      NoEmptyPayloads(items[1..]);
    }
  }

  lemma {:induction false} StreamRun(c: Config, st: State, items: seq<Item>)
    requires c.Valid() && Searching(c, st) && forall it <- items :: it.Valid(c)
    ensures var r := Run(c, st, Stream(items));
            Searching(c, r) && r.queue == DeliverAll(c, st.queue, Payloads(items))
    decreases |items|
  {
    hide Run;
    hide Searching;
    if items == [] {
      NoBytes(c, st);
    } else {
      var r := Run(c, st, items[0].Wire());
      RunConcat(c, st, items[0].Wire(), Stream(items[1..]));
      ItemRun(c, st, items[0]);
      StreamRun(c, r, items[1..]);
      if items[0].Payload() == [] {
        assert Payloads(items) == Payloads(items[1..]);
      } else {
        assert Payloads(items)[1..] == Payloads(items[1..]);
      }
    }
  }

  lemma ItemRun(c: Config, st: State, it: Item)
    requires c.Valid() && Searching(c, st) && it.Valid(c)
    ensures var r := Run(c, st, it.Wire());
            Searching(c, r)
            && r.queue == if it.Payload() == [] then st.queue else Deliver(c, st.queue, it.Payload()[0])
  {
    hide Run;
    match it
    case Junk(b) => RunJunk(c, st, b);
    case Whole(m) => FrameRun(c, st, m, END_MAGIC);
    case Damaged(m, b) => FrameRun(c, st, m, b);
    case TooLong(n) => RunHeader(c, st, n);
  }
}

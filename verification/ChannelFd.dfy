/**
 * The file-descriptor channel of chrpc/src/channel_fd.c, proved to run the framing automaton whatever `read` returns.
 */
module ChannelFd {
  import opened Bytes
  import opened Memory
  import opened Channel
  import Q = Queue
  import F = Framing

  /** How a refresh stops reading: nothing more for now, or the descriptor is done. */
  datatype ReadEnd = WouldBlock | EndOfFile | ReadError

  class ChannelFd {
    const maxMsg: nat
    const writeOver: bool
    const readChunk: array<byte>
    const msgBuf: array<byte>
    const writeBuf: array<byte>
    const q: Q.Queue<bytes>
    var msgBufFill: nat
    var readOpen: bool
    var writeOpen: bool
    // Every byte that `write` has taken so far.
    ghost var written: bytes

    ghost function Config(): F.Config
    {
      F.Config(q.cap, maxMsg, writeOver)
    }

    ghost function Repr(): set<object> {
      {this, readChunk, msgBuf, writeBuf, q, q.table}
    }

    ghost predicate Valid()
      reads Repr()
    {
      && q.Valid() && Config().Valid()
      && readChunk.Length > 0 && msgBuf.Length == 6 + maxMsg && writeBuf.Length == 6 + maxMsg
      && readChunk != msgBuf && readChunk != writeBuf && msgBuf != writeBuf
      && msgBufFill <= 5 + maxMsg
      && (msgBufFill > 5 ==> F.FromPending(msgBuf[..msgBufFill]) <= maxMsg
                             && msgBufFill <= 5 + F.FromPending(msgBuf[..msgBufFill]))
    }

    /** The automaton state this channel is in. */
    ghost function State(): F.State
      reads Repr()
      requires Valid()
    {
      F.State(msgBuf[..msgBufFill], q.Contents())
    }

    constructor (queueDepth: nat, writeOver: bool, maxMsg: nat, readChunkSize: nat)
      requires queueDepth > 0 && 0 < maxMsg < U32_RANGE && readChunkSize > 0
      ensures Valid() && State() == F.State([], []) && Config() == F.Config(queueDepth, maxMsg, writeOver)
      ensures readOpen && writeOpen && written == []
    {
      this.maxMsg, this.writeOver := maxMsg, writeOver;
      readChunk := new byte[readChunkSize];
      msgBuf := new byte[6 + maxMsg];
      writeBuf := new byte[6 + maxMsg];
      q := new Q.Queue(queueDepth);
      msgBufFill, readOpen, writeOpen, written := 0, true, true, [];
    }

    /**
     * Frames and writes one message. `taken` is what `write` answers: how many bytes the operating system took, or less
     * than zero. If that is not the whole frame the descriptor is closed, but what was taken is on its way.
     */
    method Send(msg: bytes, taken: int) returns (st: ChannelStatus)
      requires Valid() && taken <= 6 + |msg|
      modifies this, writeBuf
      ensures Valid() && State() == old(State())
      ensures st == if msg == [] || |msg| > maxMsg then ChnInvalidMsgSize
                    else if !old(writeOpen) || taken != |F.Frame(msg)| then ChnCannotWrite
                    else ChnSuccess
      ensures written == old(written)
                         + if st == ChnInvalidMsgSize || !old(writeOpen) || taken < 0 then [] else F.Frame(msg)[..taken]
      ensures writeOpen == (old(writeOpen) && st != ChnCannotWrite) && readOpen == old(readOpen)
    {
      hide U32;
      hide FromU32;
      if |msg| == 0 || maxMsg < |msg| {
        return ChnInvalidMsgSize;
      }
      if !writeOpen {
        return ChnCannotWrite;
      }
      var len := |msg|;
      writeBuf[0] := F.START_MAGIC;
      CopyInto(writeBuf, 1, U32(len));
      CopyInto(writeBuf, 5, msg);
      writeBuf[5 + len] := F.END_MAGIC;
      assert writeBuf[..6 + len] == F.Frame(msg);
      if taken >= 0 {
        assert writeBuf[..taken] == F.Frame(msg)[..taken];
        written := written + writeBuf[..taken];
      }
      if taken != 6 + len {
        writeOpen := false;
        return ChnCannotWrite;
      }
      st := ChnSuccess;
    }

    /** Looks for the start of a frame. */
    method FindStart(pos: nat, readden: nat) returns (p: nat)
      requires Valid() && pos < readden <= readChunk.Length && msgBufFill == 0
      modifies this`msgBufFill, msgBuf
      ensures Valid() && pos < p <= readden && (p < readden ==> msgBufFill == 1)
      ensures F.Run(Config(), State(), readChunk[p..readden])
              == F.Run(Config(), old(State()), readChunk[pos..readden])
    {
      hide F.Run;
      p := pos;
      ghost var c, st := Config(), State();
      assert st.pending == [];
      while p < readden
        invariant pos <= p <= readden && msgBufFill == 0
        invariant F.Run(c, st, readChunk[p..readden]) == F.Run(c, st, readChunk[pos..readden])
      {
        F.RunFront(c, st, readChunk[p..readden]);
        assert readChunk[p..readden][1..] == readChunk[p + 1..readden];
        if readChunk[p] == F.START_MAGIC {
          msgBuf[0] := F.START_MAGIC;
          msgBufFill := msgBufFill + 1;
          p := p + 1;
          assert msgBuf[..1] == [F.START_MAGIC];
          return;
        }
        p := p + 1;
      }
    }

    /** Copies bytes into the frame being read until it holds `target` of them or the chunk is used up. */
    method Fill(pos: nat, readden: nat, target: nat) returns (p: nat)
      requires Valid() && pos < readden <= readChunk.Length && msgBufFill < target <= 5 + maxMsg
      requires F.Absorbs(Config(), msgBuf[..msgBufFill], target - msgBufFill)
      modifies this`msgBufFill, msgBuf
      ensures Valid() && pos < p <= readden && (p < readden ==> msgBufFill == target)
      ensures old(msgBufFill) < msgBufFill
      ensures old(msgBufFill) >= 5 ==> F.FromPending(msgBuf[..msgBufFill]) == old(F.FromPending(msgBuf[..msgBufFill]))
      ensures F.Run(Config(), State(), readChunk[p..readden])
              == F.Run(Config(), old(State()), readChunk[pos..readden])
    {
      hide F.Run;
      hide F.FromPending;
      var toRead := F.Min(readden - pos, target - msgBufFill);
      var chunk := readChunk[pos..readden];
      ghost var before := msgBuf[..msgBufFill];
      F.RunBulk(Config(), State(), chunk, toRead);
      KeepsLength(before, chunk[..toRead]);
      CopyInto(msgBuf, msgBufFill, chunk[..toRead]);
      msgBufFill := msgBufFill + toRead;
      p := pos + toRead;
      assert msgBuf[..msgBufFill] == before + chunk[..toRead];
      assert readChunk[p..readden] == chunk[toRead..];
    }

    static lemma KeepsLength(p: bytes, more: bytes)
      ensures |p| >= 5 ==> F.FromPending(p + more) == F.FromPending(p)
    {
      assert |p| >= 5 ==> (p + more)[1..5] == p[1..5];
    }

    /** Queues a complete message, or drops it or the oldest one when there is no room. */
    method Enqueue(msg: bytes)
      requires Valid() && msg != []
      modifies q, q.table
      ensures Valid() && q.Contents() == F.Deliver(Config(), old(q.Contents()), msg)
    {
      if q.len == q.cap {
        if !writeOver {
          return;
        }
        var _ := q.Poll();
      }
      var _ := q.Push(msg);
    }

    /**
     * Processes the chunk from `pos` on, up to the end of one message or of the chunk. What is left of the chunk, run
     * from the new state, gives what the whole would have given.
     */
    method ProcessSingleMsg(pos: nat, readden: nat) returns (p: nat)
      requires Valid() && pos < readden <= readChunk.Length
      modifies this`msgBufFill, msgBuf, q, q.table
      ensures Valid() && pos <= p <= readden
      ensures p == pos ==> msgBufFill == 0 < old(msgBufFill)
      ensures F.Run(Config(), State(), readChunk[p..readden])
              == F.Run(Config(), old(State()), readChunk[pos..readden])
    {
      hide F.Run;
      p := pos;
      if msgBufFill == 0 {
        p := FindStart(p, readden);
      }
      if p >= readden {
        return;
      }
      if msgBufFill < 5 {
        p := Fill(p, readden, 5);
      }
      if p >= readden {
        return;
      }
      var msgLength := F.FromPending(msgBuf[..msgBufFill]);
      if msgLength > maxMsg {
        DropsFrame(p, readden);
        msgBufFill := 0;
        assert msgBuf[..msgBufFill] == [];
        return;
      }
      if msgBufFill < 5 + msgLength {
        p := Fill(p, readden, 5 + msgLength);
      }
      if p >= readden {
        return;
      }
      p := LastByte(p, readden, msgLength);
    }

    lemma DropsFrame(p: nat, readden: nat)
      requires Valid() && p < readden <= readChunk.Length
      requires msgBufFill == 5 && F.FromPending(msgBuf[..msgBufFill]) > maxMsg
      ensures F.Run(Config(), State(), readChunk[p..readden])
              == F.Run(Config(), F.State([], q.Contents()), readChunk[p..readden])
    {
      F.RunFront(Config(), State(), readChunk[p..readden]);
      F.RunFront(Config(), F.State([], q.Contents()), readChunk[p..readden]);
    }

    /** The frame lacks only its last byte. */
    method LastByte(pos: nat, readden: nat, msgLength: nat) returns (p: nat)
      requires Valid() && pos < readden <= readChunk.Length
      requires msgLength <= maxMsg && msgBufFill == 5 + msgLength && F.FromPending(msgBuf[..msgBufFill]) == msgLength
      modifies this`msgBufFill, msgBuf, q, q.table
      ensures Valid() && p == pos + 1 && msgBufFill == 0
      ensures F.Run(Config(), State(), readChunk[p..readden])
              == F.Run(Config(), old(State()), readChunk[pos..readden])
    {
      hide F.Run;
      hide F.FromPending;
      F.RunFront(Config(), State(), readChunk[pos..readden]);
      p := pos + 1;
      assert readChunk[p..readden] == readChunk[pos..readden][1..];
      if readChunk[pos] != F.END_MAGIC {
        msgBufFill := 0;
        assert msgBuf[..msgBufFill] == [];
        return;
      }
      msgBuf[msgBufFill] := F.END_MAGIC;
      msgBufFill := 0;
      assert msgBuf[5..5 + msgLength] == old(msgBuf[..msgBufFill])[5..5 + msgLength];
      assert msgBuf[..msgBufFill] == [];
      if msgLength == 0 {
        return;
      }
      Enqueue(msgBuf[5..5 + msgLength]);
    }

    /** Works through the bytes that one `read` put into the chunk. */
    method ProcessChunk(readden: nat)
      requires Valid() && readden <= readChunk.Length
      modifies this`msgBufFill, msgBuf, q, q.table
      ensures Valid() && State() == F.Run(Config(), old(State()), readChunk[..readden])
    {
      hide F.Run;
      var pos := 0;
      assert readChunk[0..readden] == readChunk[..readden];
      while pos < readden
        invariant Valid() && pos <= readden
        invariant F.Run(Config(), State(), readChunk[pos..readden])
                  == F.Run(Config(), old(State()), readChunk[..readden])
        decreases readden - pos, msgBufFill
      {
        pos := ProcessSingleMsg(pos, readden);
      }
      assert readChunk[pos..readden] == [];
      F.NoBytes(Config(), State());
    }

    /**
     * Reads until the descriptor has nothing more. `chunks` is what successive calls of `read` put into the chunk. The
     * decoder ends where running all of it byte by byte ends, however it was cut.
     */
    method Refresh(chunks: seq<bytes>, end: ReadEnd)
      requires Valid() && forall r <- chunks :: 1 <= |r| <= readChunk.Length
      modifies this`msgBufFill, this`readOpen, msgBuf, readChunk, q, q.table
      ensures Valid()
      ensures State() == F.Run(Config(), old(State()), if old(readOpen) then F.Concat(chunks) else [])
      ensures readOpen == (old(readOpen) && end.WouldBlock?)
    {
      hide F.Run;
      F.NoBytes(Config(), State());
      if !readOpen {
        return;
      }
      F.ChunkIndependence(Config(), State(), chunks);
      assert chunks[0..] == chunks;
      for i := 0 to |chunks|
        invariant Valid()
        invariant F.RunChunks(Config(), State(), chunks[i..]) == F.RunChunks(Config(), old(State()), chunks)
        invariant readOpen
      {
        assert chunks[i] in chunks;
        ghost var before := State();
        CopyInto(readChunk, 0, chunks[i]);
        assert readChunk[..|chunks[i]|] == chunks[i];
        assert State() == before;
        ProcessChunk(|chunks[i]|);
        assert chunks[i..][1..] == chunks[i + 1..];
      }
      if end.EndOfFile? || end.ReadError? {
        readOpen := false;
      }
    }

    /** Takes the oldest message if `len` bytes can hold it; otherwise nothing is lost. */
    method Receive(len: nat) returns (st: ChannelStatus, msg: bytes)
      requires Valid()
      modifies q
      ensures Valid() && msgBuf[..msgBufFill] == old(msgBuf[..msgBufFill])
      ensures var was := old(q.Contents());
              if was == [] then st == (if readOpen then ChnNoIncomingMsg else ChnCannotRead) && q.Contents() == []
              else if |was[0]| > len then st == ChnBufferTooSmall && q.Contents() == was
              else st == ChnSuccess && msg == was[0] && q.Contents() == was[1..]
    {
      var front := q.Peek();
      if front.None? {
        return if readOpen then ChnNoIncomingMsg else ChnCannotRead, [];
      }
      if |front.value| > len {
        return ChnBufferTooSmall, [];
      }
      var m := q.Poll();
      return ChnSuccess, m.value;
    }
  }
}

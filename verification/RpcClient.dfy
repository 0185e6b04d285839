/**
 * The client's side of a call (chrpc/src/rpc_client.c): building the request on the fly, waiting, decoding the reply.
 */
module RpcClient {
  import opened Bytes
  import opened Memory
  import opened SerialType
  import opened SerialValue
  import opened SerialTheorems
  import opened SerialStrays
  import opened SerialBuffer
  import opened SerialReader
  import opened RpcMessages
  import opened RpcTheorems

  /** What refreshing and reading the channel once comes to. */
  datatype Poll = Nothing | Message(msg: bytes) | Broken

  /** How a call ends: not sent, the channel given up, or a reply decoded. */
  datatype Result = NotSent(status: Status) | Lost(status: Status) | Answered(outcome: Outcome)

  /** The first poll that is not empty, as long as less than `timeout` has been waited. */
  function Wait(polls: nat -> Poll, i: nat, waited: nat, timeout: nat, cadence: nat): Poll
    requires cadence > 0
    decreases timeout - waited
  {
    if waited >= timeout then Nothing
    else if polls(i).Nothing? then Wait(polls, i + 1, waited + cadence, timeout, cadence)
    else polls(i)
  }

  /** The wait finds the first answer that comes before the timeout, and gives up only after all of it. */
  lemma {:induction false} WaitFindsFirst(polls: nat -> Poll, i: nat, waited: nat, timeout: nat, cadence: nat)
    returns (k: nat)
    requires cadence > 0 && waited < timeout + cadence
    ensures i <= k && forall j | i <= j < k :: polls(j).Nothing?
    ensures var p := Wait(polls, i, waited, timeout, cadence);
            var total := waited + (k - i) * cadence;
            if p.Nothing? then timeout <= total < timeout + cadence else p == polls(k) && total < timeout
    decreases timeout - waited
  {
    k := i;
    if waited < timeout && polls(i).Nothing? {
      k := WaitFindsFirst(polls, i + 1, waited + cadence, timeout, cadence);
      assert (k - i) * cadence == (k - (i + 1)) * cadence + cadence;
    }
  }

  class RpcClient {
    const buf: array<byte>
    const timeout: nat
    const cadence: nat
    // Whether the client still has its channel.
    var connected: bool

    constructor (maxMsg: nat, timeout: nat, cadence: nat)
      ensures buf.Length == maxMsg && this.timeout == timeout && this.cadence == cadence && connected
      ensures fresh(buf)
    {
      buf := new byte[maxMsg];
      this.timeout, this.cadence, connected := timeout, cadence, true;
    }

    static function RequestHead(name: bytes, numArgs: nat): bytes {
      EncType(REQ_TYPE) + Prefixed(name + [0]) + U32(numArgs)
    }

    /** Writes everything up to the arguments. */
    method BuildHead(name: bytes, numArgs: nat) returns (st: Status, total: nat)
      modifies buf
      ensures st == if |RequestHead(name, numArgs)| <= buf.Length then SUCCESS else BUFFER_TOO_SMALL
      ensures st == SUCCESS ==> total == |RequestHead(name, numArgs)| && At(buf, 0, RequestHead(name, numArgs))
    {
      hide U32;
      hide EncType;
      var bufLen := buf.Length;
      st, total := TypeToBuffer(REQ_TYPE, buf, 0, bufLen);
      if st != SUCCESS {
        return st, 0;
      }
      var nameLen := |name| + 1;
      if bufLen - total < 4 + nameLen {
        return BUFFER_TOO_SMALL, 0;
      }
      CopyInto(buf, total, U32(nameLen));
      CopyInto(buf, total + 4, name + [0]);
      AtConcat(buf, total, U32(nameLen), name + [0]);
      AtConcat(buf, 0, EncType(REQ_TYPE), Prefixed(name + [0]));
      total := total + 4 + nameLen;
      if bufLen - total < 4 {
        return BUFFER_TOO_SMALL, 0;
      }
      CopyInto(buf, total, U32(numArgs));
      AtConcat(buf, 0, EncType(REQ_TYPE) + Prefixed(name + [0]), U32(numArgs));
      total := total + 4;
    }

    /** Writes the request for `c` to the front of the buffer, or finds that it does not fit. */
    method BuildRequest(c: Call) returns (st: Status, total: nat)
      requires ValidCall(c)
      modifies buf
      ensures st == if |Request(c)| <= buf.Length then SUCCESS else BUFFER_TOO_SMALL
      ensures st == SUCCESS ==> total == |Request(c)| && total <= buf.Length && buf[..total] == Request(c)
    {
      hide Request;
      RequestForm(c);
      st, total := BuildHead(c.name, |c.args|);
      if st == SUCCESS {
        st, total := AppendArgs(c.args, RequestHead(c.name, |c.args|), total);
      }
    }

    /** The loop over the arguments. */
    method AppendArgs(args: seq<Option<Value>>, ghost head: bytes, start: nat) returns (st: Status, total: nat)
      requires start == |head| <= buf.Length && At(buf, 0, head)
      requires forall a <- args :: a.Some? ==> Valid(a.value)
      modifies buf
      ensures st == if |head + FlatAll(ArgArrays(args))| <= buf.Length then SUCCESS else BUFFER_TOO_SMALL
      ensures st == SUCCESS ==>
                total == |head + FlatAll(ArgArrays(args))| && At(buf, 0, head + FlatAll(ArgArrays(args)))
    {
      hide U32;
      hide ArgArrays;
      hide Prefixed;
      st, total := SUCCESS, start;
      NoArgs();
      for i := 0 to |args|
        invariant st == SUCCESS && total <= buf.Length
        invariant total == |head + FlatAll(ArgArrays(args[..i]))|
        invariant At(buf, 0, head + FlatAll(ArgArrays(args[..i])))
      {
        ArgArraysSplit(args, i);
        var w;
        assert args[i] in args;
        st, w := ValueToBufferWithLength(args[i], buf, total, buf.Length - total);
        if st != SUCCESS {
          return st, 0;
        }
        Assoc(head, FlatAll(ArgArrays(args[..i])), Prefixed(OptionalBytes(args[i])));
        total := total + w;
      }
      assert args[..|args|] == args;
    }

    /**
     * One whole call. `sendOk` says whether the channel takes the request, `polls(i)` what the i-th look at the channel
     * finds, `wantRet` whether the caller has a place for the returned value, which is deleted otherwise. `sent` is the
     * message that went out. A reply is decoded with whatever the buffer holds behind it, and looked through for a NUL
     * only as `ReplyScanned` says.
     */
    method SendRequest(mem: Mem, c: Call, wantRet: bool, sendOk: bool, polls: nat -> Poll)
      returns (r: Result, ghost sent: Option<bytes>)
      requires ValidCall(c) && cadence > 0
      requires forall i :: polls(i).Message? ==> |polls(i).msg| <= buf.Length
      modifies this, buf, mem
      ensures sent == if old(connected) && |Request(c)| <= buf.Length && sendOk then Some(Request(c)) else None
      ensures connected == (old(connected) && !r.Lost?)
      ensures
        if !old(connected) then r == Lost(CLIENT_CHANNEL_ERROR)
        else if |Request(c)| > buf.Length then r == NotSent(BUFFER_TOO_SMALL)
        else if !sendOk then r == Lost(CLIENT_CHANNEL_ERROR)
        else
          match Wait(polls, 0, 0, timeout, cadence)
          case Nothing => r == Lost(if timeout == 0 then CLIENT_CHANNEL_ERROR else DISCONNECT)
          case Broken => r == Lost(CLIENT_CHANNEL_ERROR)
          case Message(m) =>
            && r.Answered?
            && exists junk ::
              && r.outcome == ClientDecode(m + junk)
              && (mem.strays == old(mem.strays) <==> Inside(ReplyScanned(m + junk, wantRet)))
      ensures !r.Answered? ==> mem.strays == old(mem.strays)
      ensures mem.strays == old(mem.strays) ==>
                mem.live == old(mem.live)
                          + (if wantRet && r.Answered? && r.outcome.Returned? && r.outcome.ret.Some?
                             then ValueBlocks(r.outcome.ret.value) else 0)
    {
      hide Request;
      hide ClientDecode;
      hide ReplyScanned;
      sent := None;
      if !connected {
        return Lost(CLIENT_CHANNEL_ERROR), None;
      }
      var st, total := BuildRequest(c);
      if st != SUCCESS {
        return NotSent(st), None;
      }
      if !sendOk {
        connected := false;
        return Lost(CLIENT_CHANNEL_ERROR), None;
      }
      sent := Some(buf[..total]);
      var i: nat, timeWaited: nat, last := 0, 0, CHN_SUCCESS;
      while timeWaited < timeout
        invariant Wait(polls, 0, 0, timeout, cadence) == Wait(polls, i, timeWaited, timeout, cadence)
        invariant timeWaited > 0 ==> timeout > 0
        invariant mem.live == old(mem.live) && mem.strays == old(mem.strays) && connected
        invariant last == if timeWaited == 0 then CHN_SUCCESS else CHN_NO_INCOMING_MSG
        decreases timeout - timeWaited
      {
        match polls(i) {
          case Message(m) =>
            CopyInto(buf, 0, m);
            assert buf[..] == m + buf[|m|..];
            var outcome := DecodeResponse(mem, wantRet);
            return Answered(outcome), sent;
          case Broken =>
            connected := false;
            return Lost(CLIENT_CHANNEL_ERROR), sent;
          case Nothing =>
            last := CHN_NO_INCOMING_MSG;
            timeWaited := timeWaited + cadence;
            i := i + 1;
        }
      }
      connected := false;
      return Lost(if last == CHN_NO_INCOMING_MSG then DISCONNECT else CLIENT_CHANNEL_ERROR), sent;
    }

    /** Decodes the whole buffer as a response and keeps only the value it carries, if that is wanted. */
    method DecodeResponse(mem: Mem, wantRet: bool) returns (outcome: Outcome)
      modifies mem
      ensures outcome == ClientDecode(buf[..])
      ensures mem.strays == old(mem.strays) <==> Inside(ReplyScanned(buf[..], wantRet))
      ensures mem.strays == old(mem.strays) ==>
                mem.live == old(mem.live)
                            + if wantRet && outcome.Returned? && outcome.ret.Some? then ValueBlocks(outcome.ret.value) else 0
    {
      hide DecValue;
      hide Scanned;
      hide ValueUndone;
      hide ValueBlocks;
      NoStrays(ReplyScanned(buf[..], wantRet));
      var resp := ValueFromBuffer(mem, buf[..]);
      if resp.Failed? {
        return Refused(BAD_RESPONSE);
      }
      var same := TypeEquals(RESP_TYPE, resp.value.ty);
      if !same {
        DeleteValue(mem, resp.value);
        return Refused(BAD_RESPONSE);
      }
      ResponseShape(buf[..]);
      var fields := resp.value.val.entries;
      var st := fields[0].raw[0];
      if st != SUCCESS {
        DeleteValue(mem, resp.value);
        return Refused(st);
      }
      outcome := Returned(None);
      if fields[1].len > 0 {
        outcome := DecodeReturned(mem, fields[1].block, wantRet);
      }
      DeleteValue(mem, resp.value);
    }

    /** Decodes the returned value, and deletes it if nobody wants it. */
    method DecodeReturned(mem: Mem, block: bytes, wantRet: bool) returns (outcome: Outcome)
      modifies mem
      ensures outcome == match DecValue(block) case Failed(st) => Refused(st) case Parsed(v, _) => Returned(Some(v))
      ensures mem.strays == old(mem.strays)
                            + Strays(match DecValue(block)
                                     case Failed(_) => ValueUndone(block)
                                     case Parsed(v, _) => if wantRet then [] else Scanned(v.val))
      ensures mem.strays == old(mem.strays) ==>
                mem.live == old(mem.live)
                            + if wantRet && outcome.Returned? then ValueBlocks(outcome.ret.value) else 0
    {
      hide DecValue;
      hide Scanned;
      hide ValueBlocks;
      NoStrays(ValueUndone(block));
      var ret := ValueFromBuffer(mem, block);
      if ret.Failed? {
        return Refused(ret.status);
      }
      if !wantRet {
        NoStrays(Scanned(ret.value.val));
        DeleteValue(mem, ret.value);
      }
      return Returned(Some(ret.value));
    }
  }

  const CHN_SUCCESS := 0
  const CHN_NO_INCOMING_MSG := 4
}

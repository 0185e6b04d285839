/**
 * What a worker does with a channel it holds (chrpc/src/rpc_server.c), in the worker's own buffer. The sends are to a
 * channel that takes messages up to `maxMsg`; `sendOk` says whether it is otherwise able to send.
 */
module RpcServer {
  import opened Bytes
  import opened Memory
  import opened SerialType
  import opened SerialValue
  import opened SerialTheorems
  import opened SerialStrays
  import opened SerialBuffer
  import opened SerialReader
  import opened RpcMessages
  import opened RpcTheorems

  function Reported(h: Handled, sendOk: bool): Status {
    if h.reply.None? then SERVER_INTERNAL_ERROR
    else if !sendOk then CLIENT_CHANNEL_ERROR
    else if h.close then DISCONNECT
    else SUCCESS
  }

  function Sent(h: Handled, sendOk: bool): Option<bytes> {
    if sendOk then h.reply else None
  }

  method SendErrorResponse(s: Server, buf: array<byte>, err: Status, sendOk: bool)
    returns (st: Status, sent: Option<bytes>)
    requires ValidServer(s) && buf.Length == s.bufLen
    modifies buf
    ensures st == (if sendOk then SUCCESS else CLIENT_CHANNEL_ERROR)
    ensures sent == if sendOk then Some(Response(err, [])) else None
  {
    hide EncValue;
    ResponseDecodes(err, [], []);
    var written;
    st, written := ValueToBuffer(ResponseValue(err, []), buf, 0, s.bufLen);
    if st != SUCCESS {
      return st, None;
    }
    if !sendOk {
      return CLIENT_CHANNEL_ERROR, None;
    }
    assert buf[..written] == Response(err, []);
    sent := Some(buf[..written]);
  }

  /** Runs the endpoint function; the value it returns is new. */
  method CallEndpoint(mem: Mem, ep: Endpoint, n: nat, id: nat, args: seq<Value>)
    returns (ret: Option<Value>, disconnect: bool)
    modifies mem`live
    ensures (ret, disconnect) == ep.func(n, id, args)
    ensures mem.live == old(mem.live) + if ret.Some? then ValueBlocks(ret.value) else 0
  {
    var r := ep.func(n, id, args);
    ret, disconnect := r.0, r.1;
    if ret.Some? {
      mem.live := mem.live + ValueBlocks(ret.value);
    }
  }

  method DeleteOptional(mem: Mem, v: Option<Value>)
    requires v.Some? ==> Readable(v.value.val)
    modifies mem
    ensures mem.strays == old(mem.strays)
    ensures mem.live == old(mem.live) - if v.Some? then ValueBlocks(v.value) else 0
  {
    if v.Some? {
      ReadableScanned(v.value.val);
      NoStrays(Scanned(v.value.val));
      DeleteValue(mem, v.value);
    }
  }

  /** Calls the endpoint and writes the response on the fly, without building it as a value first. */
  method SendResponse(mem: Mem, s: Server, name: bytes, n: nat, id: nat, args: seq<Value>, buf: array<byte>, sendOk: bool)
    returns (st: Status, sent: Option<bytes>)
    requires ValidServer(s) && buf.Length == s.bufLen && name in s.endpoints
    modifies mem, buf
    ensures mem.live == old(mem.live) && mem.strays == old(mem.strays)
    ensures var h := Respond(s, s.endpoints[name], n, id, args);
            st == Reported(h, sendOk) && sent == Sent(h, sendOk)
  {
    hide Response;
    hide U32;
    hide EncType;
    hide EncValue;
    hide ValueBlocks;
    hide Readable;
    var ep := s.endpoints[name];
    var ret, disconnect := CallEndpoint(mem, ep, n, id, args);
    var matches := ep.ret.None? && ret.None?;
    if ep.ret.Some? && ret.Some? {
      matches := TypeEquals(ep.ret.value, ret.value.ty);
    }
    if !matches {
      DeleteOptional(mem, ret);
      return SERVER_INTERNAL_ERROR, None;
    }
    var mms, total, w := s.bufLen, 0, 0;
    ghost var payload := OptionalBytes(ret);
    ResponseForm(SUCCESS, payload);
    st, w := TypeToBuffer(RESP_TYPE, buf, 0, mms);
    total := w;
    buf[total] := SUCCESS;
    total := total + 1;
    st, w := ValueToBufferWithLength(ret, buf, total, mms - total);
    total := total + w;
    DeleteOptional(mem, ret);
    if st != SUCCESS {
      st, sent := SendErrorResponse(s, buf, st, sendOk);
      return;
    }
    assert buf[..total] == Response(SUCCESS, payload);
    if total > s.maxMsg {
      st, sent := SendErrorResponse(s, buf, BUFFER_TOO_SMALL, sendOk);
      return;
    }
    if !sendOk {
      return CLIENT_CHANNEL_ERROR, None;
    }
    return if disconnect then DISCONNECT else SUCCESS, Some(buf[..total]);
  }

  function ValuesBlocks(vs: seq<Value>): nat {
    if vs == [] then 0 else ValueBlocks(vs[0]) + ValuesBlocks(vs[1..])
  }

  lemma {:induction false} ValuesBlocksAppend(a: seq<Value>, b: seq<Value>)
    ensures ValuesBlocks(a + b) == ValuesBlocks(a) + ValuesBlocks(b)
  {
    hide ValueBlocks;
    if a == [] {
      assert a + b == b;
    } else {
      assert (a + b)[0] == a[0] && (a + b)[1..] == a[1..] + b;
      ValuesBlocksAppend(a[1..], b);
    }
  }

  lemma {:induction false} ValuesScannedAppend(a: seq<Value>, b: seq<Value>)
    ensures ValuesScanned(a + b) == ValuesScanned(a) + ValuesScanned(b)
  {
    hide Scanned;
    if a == [] {
      assert a + b == b;
    } else {
      assert (a + b)[0] == a[0] && (a + b)[1..] == a[1..] + b;
      ValuesScannedAppend(a[1..], b);
      Assoc(Scanned(a[0].val), ValuesScanned(a[1..]), ValuesScanned(b));
    }
  }

  /** One more round of the loop below, seen from the specification. */
  lemma ParseArgsStep(types: seq<Type>, arrays: seq<Val>, i: nat, done: seq<Value>)
    requires |types| == |arrays| && ByteArrays(arrays) && i < |types|
    ensures ByteArrays(arrays[i..]) && ByteArrays(arrays[i + 1..])
    ensures var r := DecValue(arrays[i].block);
            Prepend(done, 0, ParseArgs(types[i..], arrays[i..]))
            == if r.Failed? then Failed(r.status)
               else if r.value.ty != types[i] then Failed(ARGUMENT_MISMATCH)
               else Prepend(done + [r.value], 0, ParseArgs(types[i + 1..], arrays[i + 1..]))
  {
    hide DecValue;
    assert types[i..][1..] == types[i + 1..] && arrays[i..][1..] == arrays[i + 1..];
    assert arrays[i..][0] == arrays[i];
    var r := DecValue(arrays[i].block);
    if r.Parsed? && r.value.ty == types[i] {
      PrependMore(done, 0, r.value, 0, ParseArgs(types[i + 1..], arrays[i + 1..]));
    }
  }

  /** What is built and undone, in the same round. */
  lemma ArgsBuiltStep(types: seq<Type>, arrays: seq<Val>, i: nat, done: seq<Value>)
    requires |types| == |arrays| && ByteArrays(arrays) && i < |types|
    ensures ByteArrays(arrays[i..]) && ByteArrays(arrays[i + 1..])
    ensures var r := DecValue(arrays[i].block);
            var built := done + ArgsBuilt(types[i..], arrays[i..]);
            if r.Failed? then built == done
            else if r.value.ty != types[i] then built == done + [r.value]
            else built == done + [r.value] + ArgsBuilt(types[i + 1..], arrays[i + 1..])
    ensures var r := DecValue(arrays[i].block);
            ArgsUndone(types[i..], arrays[i..])
            == if r.Failed? then ValueUndone(arrays[i].block)
               else if r.value.ty != types[i] then []
               else ArgsUndone(types[i + 1..], arrays[i + 1..])
  {
    hide DecValue;
    hide ValueUndone;
    assert types[i..][1..] == types[i + 1..] && arrays[i..][1..] == arrays[i + 1..];
    assert arrays[i..][0] == arrays[i];
    var r := DecValue(arrays[i].block);
    if r.Parsed? && r.value.ty == types[i] {
      Assoc(done, [r.value], ArgsBuilt(types[i + 1..], arrays[i + 1..]));
    }
  }

  /**
   * Decodes the arguments until one fails. `given` is every value decoded on the way, a last one of the wrong type
   * included: the caller has to delete them all.
   */
  method ParseArguments(mem: Mem, types: seq<Type>, arrays: seq<Val>) returns (st: Status, given: seq<Value>)
    requires |types| == |arrays| && ByteArrays(arrays)
    modifies mem
    ensures var r := ParseArgs(types, arrays);
            (st == if r.Failed? then r.status else SUCCESS) && (st == SUCCESS ==> r == Parsed(given, 0))
            && (r.Failed? ==> st != SUCCESS)
    ensures given == ArgsBuilt(types, arrays)
    ensures mem.strays == old(mem.strays) + Strays(ArgsUndone(types, arrays))
    ensures Inside(ArgsUndone(types, arrays)) ==> mem.live == old(mem.live) + ValuesBlocks(given)
  {
    hide DecValue;
    hide ValueUndone;
    hide ArgsUndone;
    hide ArgsBuilt;
    given := [];
    PrependEnds([], 0, ParseArgs(types, arrays));
    assert types[0..] == types && arrays[0..] == arrays && given + ArgsBuilt(types, arrays) == ArgsBuilt(types, arrays);
    for i := 0 to |types|
      invariant |given| == i && ByteArrays(arrays[i..])
      invariant ParseArgs(types, arrays) == Prepend(given, 0, ParseArgs(types[i..], arrays[i..]))
      invariant ArgsBuilt(types, arrays) == given + ArgsBuilt(types[i..], arrays[i..])
      invariant ArgsUndone(types, arrays) == ArgsUndone(types[i..], arrays[i..])
      invariant mem.strays == old(mem.strays)
      invariant mem.live == old(mem.live) + ValuesBlocks(given)
    {
      ParseArgsStep(types, arrays, i, given);
      ArgsBuiltStep(types, arrays, i, given);
      var field := ValueFromBuffer(mem, arrays[i].block);
      if field.Failed? {
        DecoderTotal(arrays[i].block);
        return field.status, given;
      }
      ValuesBlocksAppend(given, [field.value]);
      given := given + [field.value];
      var same := TypeEquals(types[i], field.value.ty);
      if !same {
        return ARGUMENT_MISMATCH, given;
      }
    }
    PrependEnds(given, 0, ParseArgs([], arrays[|types|..]));
    NoMoreArgs(given, types[|types|..], arrays[|types|..]);
    st := SUCCESS;
  }

  lemma NoMoreArgs(done: seq<Value>, types: seq<Type>, arrays: seq<Val>)
    requires |types| == |arrays| == 0
    ensures done + ArgsBuilt(types, arrays) == done && ArgsUndone(types, arrays) == []
  {
  }

  lemma ValuesStep(vs: seq<Value>, i: nat)
    requires i < |vs|
    ensures ValuesBlocks(vs[..i + 1]) == ValuesBlocks(vs[..i]) + ValueBlocks(vs[i])
    ensures ValuesScanned(vs[..i + 1]) == ValuesScanned(vs[..i]) + Scanned(vs[i].val)
  {
    hide ValueBlocks;
    hide Scanned;
    assert vs[..i + 1] == vs[..i] + [vs[i]];
    ValuesBlocksAppend(vs[..i], [vs[i]]);
    ValuesScannedAppend(vs[..i], [vs[i]]);
    assert [vs[i]][1..] == [] && ValuesScanned([vs[i]]) == Scanned(vs[i].val) + [];
  }

  method DeleteValues(mem: Mem, vs: seq<Value>)
    modifies mem
    ensures mem.strays == old(mem.strays) + Strays(ValuesScanned(vs))
    ensures Inside(ValuesScanned(vs)) ==> mem.live == old(mem.live) - ValuesBlocks(vs)
  {
    hide ValueBlocks;
    hide Scanned;
    for i := 0 to |vs|
      invariant mem.strays == old(mem.strays) + Strays(ValuesScanned(vs[..i]))
      invariant Inside(ValuesScanned(vs[..i])) ==> mem.live == old(mem.live) - ValuesBlocks(vs[..i])
    {
      ValuesStep(vs, i);
      InsideParts(ValuesScanned(vs[..i]), Scanned(vs[i].val));
      DeleteValue(mem, vs[i]);
    }
    assert vs[..|vs|] == vs;
  }

  /** `block` holds the endpoint's name. */
  method HandleDecoded(mem: Mem, s: Server, n: nat, id: nat, block: bytes, arrays: seq<Val>, buf: array<byte>, sendOk: bool)
    returns (st: Status, sent: Option<bytes>)
    requires ValidServer(s) && buf.Length == s.bufLen && ByteArrays(arrays)
    modifies mem, buf
    ensures mem.strays == old(mem.strays) + Strays(RequestScanned(s, block, arrays)) + Strays(ArgsScanned(s, block, arrays))
    ensures Inside(RequestScanned(s, block, arrays)) && Inside(ArgsScanned(s, block, arrays)) ==> mem.live == old(mem.live)
    ensures Inside(RequestScanned(s, block, arrays)) ==>
              var h := HandleRequest(s, n, id, NameOf(block), arrays);
              st == Reported(h, sendOk) && sent == Sent(h, sendOk)
  {
    hide Respond;
    hide Response;
    hide ParseArgs;
    hide ArgsUndone;
    hide ArgsBuilt;
    hide NameOf;
    var name := NameOf(block);
    if block != [] {
      assert [block][1..] == [] && block in [block];
      mem.StrLen(block);
    }
    if name !in s.endpoints {
      st, sent := SendErrorResponse(s, buf, UNKNOWN_ENDPOINT, sendOk);
      return;
    }
    var types := s.endpoints[name].args;
    if |types| != |arrays| {
      st, sent := SendErrorResponse(s, buf, ARGUMENT_MISMATCH, sendOk);
      return;
    }
    InsideParts(NameScanned(block), ArgsUndone(types, arrays));
    mem.Malloc(ADDRESS_SIZE * |types|);
    var given;
    st, given := ParseArguments(mem, types, arrays);
    if st != SUCCESS {
      st, sent := SendErrorResponse(s, buf, st, sendOk);
    } else {
      st, sent := SendResponse(mem, s, name, n, id, given, buf, sendOk);
    }
    DeleteValues(mem, given);
    mem.Free(ADDRESS_SIZE * |types|);
  }

  /**
   * A request of this library is answered with the status that drops the channel exactly when its endpoint asked for
   * that.
   */
  lemma DisconnectExactly(s: Server, n: nat, id: nat, c: Call, sendOk: bool)
    requires ValidServer(s) && ValidCall(c) && |Request(c)| <= s.maxMsg
    ensures var h := Handle(s, n, id, Request(c));
            && (Reported(h, sendOk) == DISCONNECT <==> sendOk && AsksToDisconnect(s, n, id, c))
            && (Drops(h, sendOk) <==> !sendOk || AsksToDisconnect(s, n, id, c) || Expected(s, n, id, c).None?)
  {
    hide Handle;
    hide AsksToDisconnect;
    hide Expected;
    CallRoundTrip(s, n, id, c, []);
  }

  /**
   * Handles one received message and overwrites the buffer with the reply. Every read stays inside its block exactly
   * when each string looked through, before the reply and after it, has a NUL. As far as the reply they do, the reply
   * is what `Handle` says; if all do, nothing is left allocated.
   */
  method HandleMessage(mem: Mem, s: Server, n: nat, id: nat, buf: array<byte>, msgSize: nat, sendOk: bool)
    returns (st: Status, sent: Option<bytes>)
    requires ValidServer(s) && msgSize <= buf.Length == s.bufLen
    modifies mem, buf
    ensures var msg := old(buf[..msgSize]);
            && (mem.strays == old(mem.strays) <==> Inside(ScannedFirst(s, msg)) && Inside(ScannedLast(s, msg)))
            && (mem.strays == old(mem.strays) ==> mem.live == old(mem.live))
    ensures var msg := old(buf[..msgSize]);
            Inside(ScannedFirst(s, msg)) ==>
              var h := Handle(s, n, id, msg);
              st == Reported(h, sendOk) && sent == Sent(h, sendOk)
    ensures forall c :: ValidCall(c) && old(buf[..msgSize]) == Request(c) && msgSize <= s.maxMsg ==>
              (st == DISCONNECT <==> sendOk && AsksToDisconnect(s, n, id, c))
  {
    hide DecValue;
    hide ValueUndone;
    hide HandleRequest;
    hide RequestScanned;
    hide ArgsScanned;
    hide Scanned;
    hide Response;
    hide AsksToDisconnect;
    hide Request;
    var msg := buf[..msgSize];
    NoStrays(ScannedFirst(s, msg));
    NoStrays(ScannedLast(s, msg));
    forall c | ValidCall(c) && msg == Request(c) && msgSize <= s.maxMsg
      ensures Inside(ScannedFirst(s, msg)) && (Reported(Handle(s, n, id, msg), sendOk) == DISCONNECT
                                               <==> sendOk && AsksToDisconnect(s, n, id, c))
    {
      RequestReadInside(s, c);
      DisconnectExactly(s, n, id, c, sendOk);
    }
    var req := ValueFromBuffer(mem, msg);
    if req.Failed? {
      st, sent := SendErrorResponse(s, buf, req.status, sendOk);
      return;
    }
    var same := TypeEquals(REQ_TYPE, req.value.ty);
    if !same {
      st, sent := SendErrorResponse(s, buf, BAD_REQUEST, sendOk);
    } else {
      RequestShape(msg);
      var fields := req.value.val.entries;
      InsideParts(ArgsScanned(s, fields[0].block, fields[1].entries), Scanned(req.value.val));
      st, sent := HandleDecoded(mem, s, n, id, fields[0].block, fields[1].entries, buf, sendOk);
    }
    DeleteValue(mem, req.value);
  }

  /** What refreshing and reading the channel comes to. */
  datatype Incoming = Nothing | Message(msg: bytes) | Broken

  /** Looks for a message once and handles it. */
  method PollChannel(mem: Mem, s: Server, n: nat, id: nat, buf: array<byte>, incoming: Incoming, sendOk: bool)
    returns (st: Status, sent: Option<bytes>)
    requires ValidServer(s) && buf.Length == s.bufLen
    requires incoming.Message? ==> |incoming.msg| <= s.bufLen
    modifies mem, buf
    ensures incoming.Broken? ==> st == CLIENT_CHANNEL_ERROR && sent == None
    ensures incoming.Nothing? ==> st == CLIENT_CHANNEL_EMPTY && sent == None
    ensures incoming.Message? && Inside(ScannedFirst(s, incoming.msg)) ==>
              var h := Handle(s, n, id, incoming.msg);
              st == Reported(h, sendOk) && sent == Sent(h, sendOk)
  {
    hide ScannedFirst;
    hide ScannedLast;
    hide Handle;
    hide AsksToDisconnect;
    hide Request;
    match incoming
    case Broken =>
      return CLIENT_CHANNEL_ERROR, None;
    case Nothing =>
      return CLIENT_CHANNEL_EMPTY, None;
    case Message(msg) =>
      CopyInto(buf, 0, msg);
      assert buf[..|msg|] == msg;
      st, sent := HandleMessage(mem, s, n, id, buf, |msg|, sendOk);
  }

  /** One look at a channel that the worker holds, and whether the channel is dropped after it. */
  method WorkOn(mem: Mem, s: Server, n: nat, id: nat, buf: array<byte>, incoming: Incoming, sendOk: bool, timedOut: bool)
    returns (disconnect: bool, sent: Option<bytes>)
    requires ValidServer(s) && buf.Length == s.bufLen
    requires incoming.Message? ==> |incoming.msg| <= s.bufLen
    modifies mem, buf
    ensures incoming.Broken? ==> disconnect && sent == None
    ensures incoming.Nothing? ==> disconnect == timedOut && sent == None
    ensures incoming.Message? && Inside(ScannedFirst(s, incoming.msg)) ==>
              var h := Handle(s, n, id, incoming.msg);
              disconnect == Drops(h, sendOk) && sent == Sent(h, sendOk)
  {
    hide ScannedFirst;
    hide Handle;
    var st;
    st, sent := PollChannel(mem, s, n, id, buf, incoming, sendOk);
    if st == CLIENT_CHANNEL_EMPTY {
      disconnect := timedOut;
    } else {
      disconnect := st != SUCCESS;
    }
  }
}

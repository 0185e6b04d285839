/**
 * What both sides make of messages that the other side of this library would not send: bytes that are no value, values
 * of another type, requests put together by hand, and replies that are none.
 */
module RpcStrangers {
  import opened Bytes
  import opened SerialType
  import opened SerialValue
  import opened SerialTheorems
  import opened SerialBuffer
  import opened RpcMessages
  import opened RpcTheorems

  // ---------------------------------------------------------------- the server

  /** The type of a request, as bytes. */
  const REQUEST_HEAD: bytes := [10, 2, 9, 11, 11, 0]

  lemma HeadOfRequests()
    ensures EncType(REQ_TYPE) == REQUEST_HEAD
  {
    assert [TStr, TArr(TArr(TNum(BYTE_TID)))][1..] == [TArr(TArr(TNum(BYTE_TID)))];
    assert EncTypes([TArr(TArr(TNum(BYTE_TID)))]) == [11, 11, 0];
    assert EncTypes([TStr, TArr(TArr(TNum(BYTE_TID)))]) == [9] + [11, 11, 0];
  }

  /** A refusal of ten bytes, with a status and nothing else. */
  lemma Refusal(st: Status)
    ensures Response(st, []) == [10, 2, 0, 11, 0, st, 0, 0, 0, 0]
  {
    ResponseForm(st, []);
    assert U32(0) == [0, 0, 0, 0];
  }

  /**
   * Only a value of the request type can run an endpoint, get its channel dropped, or be answered with anything but a
   * refusal; every other message is refused, and leaves the channel as it is.
   */
  lemma OnlyRequests(s: Server, n: nat, id: nat, msg: bytes)
    ensures var h := Handle(s, n, id, msg);
            || (REQUEST_HEAD <= msg && DecValue(msg).Parsed?)
            || (!h.called && !h.close && exists st: Status ::
                  && h.reply == Some(Response(st, [])) && st != SUCCESS
                  && st == match DecValue(msg) case Failed(st') => st' case Parsed(_, _) => BAD_REQUEST)
  {
    hide DecValue;
    hide HandleRequest;
    hide EncType;
    if DecValue(msg).Parsed? {
      HeadOfRequests();
      DecodedIsWhatWasThere(msg);
    } else {
      DecoderTotal(msg);
    }
  }

  /** Any value of another type, with anything behind it, is a bad request. */
  lemma OtherType(s: Server, n: nat, id: nat, v: Value, junk: bytes)
    requires WellFormed(v.ty) && Shaped(v.ty, v.val) && v.ty != REQ_TYPE
    ensures Handle(s, n, id, EncType(v.ty) + Flat(v.val) + junk) == Handled(Some(Response(BAD_REQUEST, [])), false, false)
  {
    hide DecValue;
    hide EncType;
    WholeRoundTrip(v, junk);
  }

  /** A request that is cut short anywhere is an unexpected end. */
  lemma CutRequest(s: Server, n: nat, id: nat, c: Call, k: nat)
    requires ValidCall(c) && |Request(c)| < U32_RANGE && k < |Request(c)|
    ensures Handle(s, n, id, Request(c)[..k]) == Handled(Some(Response(UNEXPECTED_END, [])), false, false)
  {
    hide DecValue;
    RequestDecodes(c);
    EncodingTruncated(RequestValue(c), k);
  }

  /** Does this argument decode as the type declared? */
  predicate ArgFits(t: Type, arg: Val) {
    arg.VNumArr? && DecValue(arg.block).Parsed? && DecValue(arg.block).value.ty == t
  }

  /** All arguments are decoded if all fit; otherwise the first that does not says why. */
  lemma {:induction false} ArgsOrFirstMisfit(types: seq<Type>, arrays: seq<Val>)
    requires |types| == |arrays| && ByteArrays(arrays)
    ensures match ParseArgs(types, arrays)
            case Parsed(args, _) =>
              |args| == |types| && forall i | 0 <= i < |types| ::
                ArgFits(types[i], arrays[i]) && args[i] == DecValue(arrays[i].block).value
            case Failed(st) =>
              exists k | 0 <= k < |types| ::
                && (forall i | 0 <= i < k :: ArgFits(types[i], arrays[i])) && !ArgFits(types[k], arrays[k])
                && st == match DecValue(arrays[k].block) case Failed(st') => st' case Parsed(_, _) => ARGUMENT_MISMATCH
  {
    hide DecValue;
    if types != [] && ArgFits(types[0], arrays[0]) {
      ArgsOrFirstMisfit(types[1..], arrays[1..]);
      var r := ParseArgs(types[1..], arrays[1..]);
      if r.Failed? {
        var k :| 0 <= k < |types| - 1
                 && (forall i | 0 <= i < k :: ArgFits(types[1..][i], arrays[1..][i])) && !ArgFits(types[1..][k], arrays[1..][k])
                 && r.status == match DecValue(arrays[1..][k].block)
                                case Failed(st') => st'
                                case Parsed(_, _) => ARGUMENT_MISMATCH;
        assert forall i | 0 < i < k + 1 :: types[i] == types[1..][i - 1] && arrays[i] == arrays[1..][i - 1];
        assert types[k + 1] == types[1..][k] && arrays[k + 1] == arrays[1..][k];
      } else {
        assert forall i | 0 < i < |types| :: types[i] == types[1..][i - 1] && arrays[i] == arrays[1..][i - 1];
      }
    }
  }

  /**
   * A request put together by hand, with any bytes for arguments: the endpoint of that name runs exactly if it takes as
   * many arguments and each decodes as its type, and then it gets what they decode to.
   */
  lemma AnyRequest(s: Server, n: nat, id: nat, name: bytes, arrays: seq<Val>)
    requires ByteArrays(arrays)
    ensures var h := HandleRequest(s, n, id, name, arrays);
            && (h.called <==>
                  && name in s.endpoints && |s.endpoints[name].args| == |arrays|
                  && forall i | 0 <= i < |arrays| :: ArgFits(s.endpoints[name].args[i], arrays[i]))
            && (h.called ==>
                  exists args: seq<Value> ::
                    && h == Respond(s, s.endpoints[name], n, id, args) && |args| == |arrays|
                    && forall i | 0 <= i < |arrays| :: args[i] == DecValue(arrays[i].block).value)
            && (!h.called ==> !h.close && exists st :: h.reply == Some(Response(st, [])))
  {
    hide DecValue;
    hide ParseArgs;
    hide Response;
    if name in s.endpoints && |s.endpoints[name].args| == |arrays| {
      ArgsOrFirstMisfit(s.endpoints[name].args, arrays);
    }
  }

  // ---------------------------------------------------------------- the client

  /** The buffer begins with a response. */
  predicate BeginsWith(buf: bytes, st: Status, payload: bytes) {
    |payload| < U32_RANGE && Response(st, payload) <= buf
  }

  /** What a response says is the outcome, whatever is behind it. */
  lemma ReplyUnderstood(buf: bytes, st: Status, payload: bytes)
    requires BeginsWith(buf, st, payload)
    ensures ClientDecode(buf)
         == if st != SUCCESS then Refused(st)
            else if payload == [] then Returned(None)
            else match DecValue(payload) case Failed(st') => Refused(st') case Parsed(v, _) => Returned(Some(v))
  {
    hide DecValue;
    hide Response;
    ResponseDecodes(st, payload, buf[|Response(st, payload)|..]);
    assert Response(st, payload) + buf[|Response(st, payload)|..] == buf;
  }

  lemma ResponseBegins(buf: bytes) returns (st: Status, payload: bytes)
    requires DecValue(buf).Parsed? && DecValue(buf).value.ty == RESP_TYPE
    ensures BeginsWith(buf, st, payload)
  {
    hide DecValue;
    ResponseShape(buf);
    DecodedIsWhatWasThere(buf);
    var es := DecValue(buf).value.val.entries;
    st, payload := es[0].raw[0], es[1].block;
    EntryAt(RESP_TYPE.fields, es, 1);
    ResponseForm(st, payload);
    Pair(TNum(BYTE_TID), TArr(TNum(BYTE_TID)), es[0], es[1]);
    hide EncType;
    assert es == [es[0], es[1]] && es[0].raw == [st];
    Assoc(EncType(RESP_TYPE), [st], Prefixed(payload));
    assert Response(st, payload) == buf[..DecValue(buf).used];
  }

  /** A buffer that does not begin with one is a bad response. */
  lemma NotAReply(buf: bytes)
    requires forall st: Status, payload :: !BeginsWith(buf, st, payload)
    ensures ClientDecode(buf) == Refused(BAD_RESPONSE)
  {
    hide DecValue;
    hide BeginsWith;
    if DecValue(buf).Parsed? && DecValue(buf).value.ty == RESP_TYPE {
      var _, _ := ResponseBegins(buf);
    }
  }

  /** A call returns only from a buffer that begins with a success, whose payload is nothing or a value. */
  lemma ReturnedExactly(buf: bytes)
    ensures ClientDecode(buf).Returned?
            <==> exists payload :: BeginsWith(buf, SUCCESS, payload) && (payload == [] || DecValue(payload).Parsed?)
  {
    hide DecValue;
    hide ClientDecode;
    hide BeginsWith;
    if payload :| BeginsWith(buf, SUCCESS, payload) && (payload == [] || DecValue(payload).Parsed?) {
      ReplyUnderstood(buf, SUCCESS, payload);
    }
    if ClientDecode(buf).Returned? {
      if st: Status, payload :| BeginsWith(buf, st, payload) {
        ReplyUnderstood(buf, st, payload);
      } else {
        NotAReply(buf);
      }
    }
  }
}

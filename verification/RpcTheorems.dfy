/** What one call comes to when its request is handled and the reply decoded: exactly what the caller is owed. */
module RpcTheorems {
  import opened Bytes
  import opened Memory
  import opened SerialType
  import opened SerialValue
  import opened SerialTheorems
  import opened SerialStrays
  import opened SerialBuffer
  import opened RpcMessages

  /** The codec on the two-field structs that both messages are. */
  lemma Pair(t: Type, u: Type, a: Val, b: Val)
    ensures CutAll([a, b]) == [Cut(a), Cut(b)] && FlatAll([a, b]) == Flat(a) + Flat(b)
    ensures Shaped(t, a) && Shaped(u, b) ==> ShapedAll([t, u], [a, b])
    ensures Readable(a) && Readable(b) ==> ReadableAll([a, b])
    ensures EncTypes([t, u]) == EncType(t) + EncType(u)
  {
    hide Cut;
    hide Flat;
    hide Shaped;
    hide Readable;
    hide EncType;
    assert [a, b][1..] == [b] && [b][1..] == [] && [t, u][1..] == [u] && [u][1..] == [];
    assert CutAll([b]) == [Cut(b)] && FlatAll([b]) == Flat(b) + [] && EncTypes([u]) == EncType(u) + [];
    assert Shaped(u, b) ==> ShapedAll([u], [b]);
    assert Readable(b) ==> ReadableAll([b]);
  }

  // ---------------------------------------------------------------- requests

  lemma {:induction false} NameCut(name: bytes)
    requires 0 !in name
    ensures UpToNul(name + [0]) == name + [0] && NameOf(name + [0]) == name
  {
    if name != [] {
      NameCut(name[1..]);
      assert (name + [0])[1..] == name[1..] + [0];
      assert [name[0]] + (name[1..] + [0]) == name + [0];
    }
    assert (name + [0])[..|name|] == name;
  }

  lemma {:induction false} ArgArraysShaped(args: seq<Option<Value>>)
    requires |FlatAll(ArgArrays(args))| < U32_RANGE
    ensures |ArgArrays(args)| == |args| && ShapedAll(Repeat(TArr(TNum(BYTE_TID)), |args|), ArgArrays(args))
    ensures CutAll(ArgArrays(args)) == ArgArrays(args) && ReadableAll(ArgArrays(args))
    ensures ByteArrays(ArgArrays(args))
  {
    hide U32;
    if args != [] {
      var es, b := ArgArrays(args), OptionalBytes(args[0]);
      assert es[0] == ByteArray(b) && es[1..] == ArgArrays(args[1..]);
      ArgArraysShaped(args[1..]);
      var ts := Repeat(TArr(TNum(BYTE_TID)), |args|);
      assert ts[1..] == Repeat(TArr(TNum(BYTE_TID)), |args| - 1);
    }
  }

  /** A request is the encoding of a valid value that decoding gives back unchanged. */
  lemma RequestDecodes(c: Call)
    requires ValidCall(c) && |Request(c)| < U32_RANGE
    ensures DecValue(Request(c)) == Parsed(RequestValue(c), |Request(c)|)
    ensures ByteArrays(ArgArrays(c.args))
    ensures Valid(RequestValue(c))
  {
    hide U32;
    hide CutAll;
    hide FlatAll;
    hide ShapedAll;
    hide ReadableAll;
    hide DecValue;
    hide ArgArrays;
    hide UpToNul;
    hide EncTypes;
    var name, args := VStr(c.name + [0]), VArr(ArgArrays(c.args));
    NameCut(c.name);
    ArgArraysCut(c.args);
    Pair(TStr, TArr(TArr(TNum(BYTE_TID))), name, args);
    assert |Flat(args)| == 4 + |FlatAll(ArgArrays(c.args))|;
    ArgArraysShaped(c.args);
    assert (c.name + [0])[|c.name|] == 0;
    ValueRoundTrip(RequestValue(c), []);
    assert Request(c) + [] == Request(c);
  }

  lemma {:induction false} ArgArraysCut(args: seq<Option<Value>>)
    ensures CutAll(ArgArrays(args)) == ArgArrays(args) && |ArgArrays(args)| == |args|
  {
    if args != [] {
      ArgArraysCut(args[1..]);
      assert ArgArrays(args)[1..] == ArgArrays(args[1..]);
    }
  }

  /** Decoding the arguments of a request finds the first one that does not fit, or all of them. */
  lemma {:induction false} ParseArgsResult(types: seq<Type>, args: seq<Option<Value>>)
    requires |types| == |args| && ByteArrays(ArgArrays(args)) && |ArgArrays(args)| == |args|
    requires forall a <- args :: a.Some? ==> Valid(a.value)
    ensures ParseArgs(types, ArgArrays(args))
            == if ArgsError(types, args).Some? then Failed(ArgsError(types, args).value)
               else Parsed(CutArgs(args), 0)
  {
    hide DecValue;
    hide EncValue;
    if types != [] {
      var es := ArgArrays(args);
      assert es[1..] == ArgArrays(args[1..]);
      assert es[0].block == OptionalBytes(args[0]);
      if args[0].None? {
        NothingDecodes();
      } else {
        var v := args[0].value;
        assert args[0] in args;
        ValueRoundTrip(v, []);
        assert EncValue(v) + [] == EncValue(v);
        assert forall i | 0 <= i < |es| - 1 :: es[1..][i] == es[i + 1];
        ParseArgsResult(types[1..], args[1..]);
      }
    }
  }

  lemma NothingDecodes()
    ensures DecValue([]) == Failed(UNEXPECTED_END)
  {
  }

  // ---------------------------------------------------------------- responses

  /** A response decodes to itself whatever stale bytes lie behind it, and is ten bytes longer than its payload. */
  lemma ResponseDecodes(st: Status, payload: bytes, junk: bytes)
    requires |payload| < U32_RANGE
    ensures DecValue(Response(st, payload) + junk) == Parsed(ResponseValue(st, payload), |Response(st, payload)|)
    ensures |Response(st, payload)| == 10 + |payload|
    ensures Valid(ResponseValue(st, payload))
  {
    hide U32;
    ResponseLength(st, payload);
    Pair(TNum(BYTE_TID), TArr(TNum(BYTE_TID)), VNum([st]), ByteArray(payload));
    ValueRoundTrip(ResponseValue(st, payload), junk);
  }

  lemma ErrorReplyDecodes(s: Server, st: Status, called: bool, junk: bytes)
    requires ValidServer(s) && st != SUCCESS
    ensures var b := ErrorReply(st, called).reply.value;
            ClientDecode(b + junk) == Refused(st) && |b| == 10 <= s.maxMsg
  {
    hide DecValue;
    hide Response;
    ResponseDecodes(st, [], junk);
  }

  // ---------------------------------------------------------------- one call, end to end

  /**
   * If a request gets to the server and its reply gets back into the client's buffer, then the client's outcome is the
   * one the caller is owed, whatever stale bytes the buffer holds behind the reply; and the reply fits the channel. If
   * there is no reply, none was owed, and the channel is dropped. After a reply it is dropped exactly when the endpoint
   * asked for that. An endpoint runs exactly when name, arity and types fit.
   */
  lemma CallRoundTrip(s: Server, n: nat, id: nat, c: Call, junk: bytes)
    requires ValidServer(s) && ValidCall(c) && |Request(c)| <= s.maxMsg
    ensures var h := Handle(s, n, id, Request(c));
            h.called == Invokes(s, c)
            && (match h.reply
                case None => h.close && Expected(s, n, id, c) == None
                case Some(b) => 1 <= |b| <= s.maxMsg && Expected(s, n, id, c) == Some(ClientDecode(b + junk)))
            && (AsksToDisconnect(s, n, id, c) <==> h.reply.Some? && h.close)
  {
    hide DecValue;
    hide Response;
    hide ClientDecode;
    hide ParseArgs;
    RequestDecodes(c);
    RequestShape(Request(c));
    NameCut(c.name);
    ArgArraysCut(c.args);
    var h := Handle(s, n, id, Request(c));
    assert h == HandleRequest(s, n, id, c.name, ArgArrays(c.args));
    if c.name !in s.endpoints {
      ErrorReplyDecodes(s, UNKNOWN_ENDPOINT, false, junk);
    } else {
      var ep := s.endpoints[c.name];
      if |ep.args| != |c.args| {
        ErrorReplyDecodes(s, ARGUMENT_MISMATCH, false, junk);
      } else {
        ParseArgsResult(ep.args, c.args);
        if ArgsError(ep.args, c.args).Some? {
          ArgsErrorNotSuccess(ep.args, c.args);
          ErrorReplyDecodes(s, ArgsError(ep.args, c.args).value, false, junk);
        } else {
          RespondRoundTrip(s, c.name, n, id, CutArgs(c.args), junk);
        }
      }
    }
  }

  lemma {:induction false} ArgsErrorNotSuccess(types: seq<Type>, args: seq<Option<Value>>)
    requires |types| == |args| && ArgsError(types, args).Some?
    ensures ArgsError(types, args).value != SUCCESS
  {
    if args[0].Some? && args[0].value.ty == types[0] {
      ArgsErrorNotSuccess(types[1..], args[1..]);
    }
  }

  lemma RespondRoundTrip(s: Server, name: bytes, n: nat, id: nat, args: seq<Value>, junk: bytes)
    requires ValidServer(s) && name in s.endpoints
    ensures var ep := s.endpoints[name];
            var h := Respond(s, ep, n, id, args);
            var ret := ep.func(n, id, args).0;
            h.called
            && (match h.reply
                case None => h.close && ep.ret != TypeOf(ret)
                case Some(b) =>
                  1 <= |b| <= s.maxMsg && ep.ret == TypeOf(ret)
                  && (h.close <==> ep.func(n, id, args).1 && 10 + |OptionalBytes(ret)| <= s.maxMsg)
                  && ClientDecode(b + junk)
                     == if 10 + |OptionalBytes(ret)| > s.maxMsg then Refused(BUFFER_TOO_SMALL)
                        else Returned(if ret.None? then None else Some(CutValue(ret.value))))
  {
    hide DecValue;
    hide EncValue;
    var ep := s.endpoints[name];
    var ret := ep.func(n, id, args).0;
    TypeMatchesExactly(ep.ret, ret);
    if TypeMatches(ep.ret, ret) {
      var payload := OptionalBytes(ret);
      ResponseLength(SUCCESS, payload);
      if 10 + |payload| > s.maxMsg {
        ErrorReplyDecodes(s, BUFFER_TOO_SMALL, true, junk);
      } else {
        ResponseDecodes(SUCCESS, payload, junk);
        if ret.Some? {
          ValueRoundTrip(ret.value, []);
          assert payload + [] == payload;
          EncodingNotEmpty(ret.value);
        }
      }
    }
  }

  lemma EncodingNotEmpty(v: Value)
    ensures EncValue(v) != []
  {
    EncTypeNonEmpty(v.ty);
  }

  /** The bytes the server writes on the fly are the codec's own encoding of a response. */
  lemma ResponseForm(st: Status, payload: bytes)
    ensures Response(st, payload) == EncType(RESP_TYPE) + [st] + Prefixed(payload)
    ensures EncType(RESP_TYPE) == [STRUCT_TID, 2, BYTE_TID, ARRAY_TID, BYTE_TID]
  {
    hide U32;
    hide EncTypes;
    hide CutAll;
    hide FlatAll;
    Pair(TNum(BYTE_TID), TArr(TNum(BYTE_TID)), VNum([st]), ByteArray(payload));
    Assoc(EncType(RESP_TYPE), [st], Prefixed(payload));
  }

  lemma ResponseLength(st: Status, payload: bytes)
    ensures |Response(st, payload)| == 10 + |payload|
  {
    ResponseForm(st, payload);
  }

  /** The bytes the client writes on the fly are the codec's own encoding of a request. */
  lemma RequestForm(c: Call)
    requires 0 !in c.name
    ensures Request(c)
            == EncType(REQ_TYPE) + Prefixed(c.name + [0]) + U32(|c.args|) + FlatAll(ArgArrays(c.args))
  {
    hide U32;
    hide EncTypes;
    hide CutAll;
    hide FlatAll;
    var name, args := VStr(c.name + [0]), VArr(ArgArrays(c.args));
    Pair(TStr, TArr(TArr(TNum(BYTE_TID))), name, args);
    NameCut(c.name);
    ArgArraysCut(c.args);
    var head, body := EncType(REQ_TYPE), FlatAll(ArgArrays(c.args));
    Assoc(head, Prefixed(c.name + [0]), U32(|c.args|) + body);
    Assoc(head + Prefixed(c.name + [0]), U32(|c.args|), body);
  }

  lemma RequestNotEmpty(c: Call)
    ensures |Request(c)| >= 1
  {
    EncodingNotEmpty(RequestValue(c));
  }

  lemma {:induction false} ArgArraysAppend(a: seq<Option<Value>>, b: seq<Option<Value>>)
    ensures FlatAll(ArgArrays(a + b)) == FlatAll(ArgArrays(a)) + FlatAll(ArgArrays(b))
  {
    hide Flat;
    hide ArgArrays;
    if a == [] {
      assert a + b == b;
      NoArgs();
    } else {
      ArgArraysAppend(a[1..], b);
      assert (a + b)[0] == a[0] && (a + b)[1..] == a[1..] + b;
      ArgArraysStep(a);
      ArgArraysStep(a + b);
      Assoc(Flat(ByteArray(OptionalBytes(a[0]))), FlatAll(ArgArrays(a[1..])), FlatAll(ArgArrays(b)));
    }
  }

  lemma NoArgs()
    ensures FlatAll(ArgArrays([])) == []
  {
  }

  lemma ArgArraysStep(a: seq<Option<Value>>)
    requires a != []
    ensures FlatAll(ArgArrays(a)) == Flat(ByteArray(OptionalBytes(a[0]))) + FlatAll(ArgArrays(a[1..]))
  {
    hide Flat;
    assert ArgArrays(a)[1..] == ArgArrays(a[1..]);
  }

  lemma FlatByteArray(b: bytes)
    ensures Flat(ByteArray(b)) == Prefixed(b)
  {
    hide U32;
  }

  lemma ArgArraysSplit(args: seq<Option<Value>>, i: nat)
    requires i < |args|
    ensures FlatAll(ArgArrays(args[..i + 1]))
            == FlatAll(ArgArrays(args[..i])) + Prefixed(OptionalBytes(args[i]))
    ensures |FlatAll(ArgArrays(args))|
            >= |FlatAll(ArgArrays(args[..i]))| + |Prefixed(OptionalBytes(args[i]))|
  {
    hide Prefixed;
    hide OptionalBytes;
    ArgArraysAppend(args[..i], [args[i]]);
    ArgArraysAppend(args[..i + 1], args[i + 1..]);
    assert args[..i] + [args[i]] == args[..i + 1];
    assert args[..i + 1] + args[i + 1..] == args;
    ArgArraysStep([args[i]]);
    assert [args[i]][1..] == [];
    FlatByteArray(OptionalBytes(args[i]));
  }

  // ---------------------------------------------------------------- reads that stay inside their blocks

  lemma {:induction false} ArgArraysScanned(args: seq<Option<Value>>)
    ensures ScannedAll(ArgArrays(args)) == []
  {
    if args != [] {
      ArgArraysScanned(args[1..]);
      assert ArgArrays(args)[1..] == ArgArrays(args[1..]);
    }
  }

  lemma {:induction false} ArgsInside(types: seq<Type>, args: seq<Option<Value>>)
    requires |types| == |args| && ByteArrays(ArgArrays(args)) && |ArgArrays(args)| == |args|
    requires forall a <- args :: a.Some? ==> Valid(a.value)
    ensures Inside(ValuesScanned(ArgsBuilt(types, ArgArrays(args)))) && ArgsUndone(types, ArgArrays(args)) == []
  {
    hide DecValue;
    hide EncValue;
    hide Scanned;
    hide ValueUndone;
    if types != [] {
      var es := ArgArrays(args);
      assert es[1..] == ArgArrays(args[1..]) && es[0].block == OptionalBytes(args[0]);
      if args[0].None? {
        NothingDecodes();
        NothingUndoneInNothing();
      } else {
        var v := args[0].value;
        assert args[0] in args;
        ValueRoundTrip(v, []);
        assert EncValue(v) + [] == EncValue(v);
        CutReadable(v.val);
        ReadableScanned(Cut(v.val));
        assert forall i | 0 <= i < |es| - 1 :: es[1..][i] == es[i + 1];
        ArgsInside(types[1..], args[1..]);
        OneValueScanned(CutValue(v));
        if v.ty == types[0] {
          MoreValuesScanned(CutValue(v), ArgsBuilt(types[1..], es[1..]));
        }
      }
    }
  }

  lemma NothingUndoneInNothing()
    ensures ValueUndone([]) == []
  {
  }

  lemma OneValueScanned(v: Value)
    ensures ValuesScanned([v]) == Scanned(v.val)
  {
    assert [v][1..] == [] && Scanned(v.val) + [] == Scanned(v.val);
  }

  lemma MoreValuesScanned(v: Value, vs: seq<Value>)
    ensures ValuesScanned([v] + vs) == Scanned(v.val) + ValuesScanned(vs)
  {
    assert ([v] + vs)[1..] == vs;
  }

  /** A request that a client of this library sends never makes the server read outside a block. */
  lemma RequestReadInside(s: Server, c: Call)
    requires ValidCall(c) && |Request(c)| < U32_RANGE
    ensures Inside(ScannedFirst(s, Request(c))) && Inside(ScannedLast(s, Request(c)))
  {
    hide DecValue;
    hide NameOf;
    RequestDecodes(c);
    RequestShape(Request(c));
    ArgArraysCut(c.args);
    ArgArraysScanned(c.args);
    var name, es := c.name + [0], ArgArrays(c.args);
    assert name[|c.name|] == 0;
    NameFirst(name, es);
    if ParsesArgs(s, name, es) {
      ArgsInside(s.endpoints[NameOf(name)].args, c.args);
    }
  }

  lemma NameFirst(name: bytes, es: seq<Val>)
    requires ScannedAll(es) == []
    ensures Scanned(VStruct([VStr(name), VArr(es)])) == [name]
  {
    var fields := [VStr(name), VArr(es)];
    assert fields[1..] == [VArr(es)] && fields[1..][1..] == [];
    assert Scanned(VArr(es)) == [] && ScannedAll(fields[1..]) == [];
    assert Scanned(VStr(name)) + [] == [name];
  }

  /** Nor does the reply that the server sends to it make the client. */
  lemma ReplyReadInside(s: Server, n: nat, id: nat, c: Call, junk: bytes, wantRet: bool)
    requires ValidServer(s) && ValidCall(c) && |Request(c)| <= s.maxMsg
    ensures var h := Handle(s, n, id, Request(c));
            h.reply.Some? ==> Inside(ReplyScanned(h.reply.value + junk, wantRet))
  {
    hide DecValue;
    hide Response;
    hide ParseArgs;
    hide ReplyScanned;
    RequestDecodes(c);
    RequestShape(Request(c));
    NameCut(c.name);
    ArgArraysCut(c.args);
    assert Handle(s, n, id, Request(c)) == HandleRequest(s, n, id, c.name, ArgArrays(c.args));
    forall st: Status | st != SUCCESS
      ensures Inside(ReplyScanned(Response(st, []) + junk, wantRet))
    {
      PlainReplyInside(st, junk, wantRet);
    }
    if c.name in s.endpoints && |s.endpoints[c.name].args| == |c.args| {
      var ep := s.endpoints[c.name];
      ParseArgsResult(ep.args, c.args);
      if ArgsError(ep.args, c.args).Some? {
        ArgsErrorNotSuccess(ep.args, c.args);
      } else {
        ReturnReadInside(s, c.name, n, id, CutArgs(c.args), junk, wantRet);
      }
    }
  }

  lemma PlainReplyInside(st: Status, junk: bytes, wantRet: bool)
    ensures Inside(ReplyScanned(Response(st, []) + junk, wantRet))
  {
    hide DecValue;
    hide Response;
    ResponseDecodes(st, [], junk);
  }

  lemma ReturnReadInside(s: Server, name: bytes, n: nat, id: nat, args: seq<Value>, junk: bytes, wantRet: bool)
    requires ValidServer(s) && name in s.endpoints
    ensures var h := Respond(s, s.endpoints[name], n, id, args);
            h.reply.Some? ==> Inside(ReplyScanned(h.reply.value + junk, wantRet))
  {
    hide DecValue;
    hide EncValue;
    hide Scanned;
    var ret := s.endpoints[name].func(n, id, args).0;
    var payload := OptionalBytes(ret);
    ResponseLength(SUCCESS, payload);
    PlainReplyInside(BUFFER_TOO_SMALL, junk, wantRet);
    if 10 + |payload| <= s.maxMsg {
      ResponseDecodes(SUCCESS, payload, junk);
      if ret.Some? {
        ValueRoundTrip(ret.value, []);
        assert payload + [] == payload;
        CutReadable(ret.value.val);
        ReadableScanned(Cut(ret.value.val));
      }
    }
  }

  /**
   * A request of fourteen bytes with a name of no bytes at all: it is answered as it should be, and then deleting it
   * reads outside a block.
   */
  lemma RequestCanStray(s: Server, n: nat, id: nat)
    requires [] !in s.endpoints
    ensures var msg := [STRUCT_TID, 2, STRING_TID, ARRAY_TID, ARRAY_TID, BYTE_TID, 0, 0, 0, 0, 0, 0, 0, 0];
            && Inside(ScannedFirst(s, msg)) && Handle(s, n, id, msg) == ErrorReply(UNKNOWN_ENDPOINT, false)
            && !Inside(ScannedLast(s, msg))
  {
    var msg := [STRUCT_TID, 2, STRING_TID, ARRAY_TID, ARRAY_TID, BYTE_TID, 0, 0, 0, 0, 0, 0, 0, 0];
    var empty: bytes := [];
    var v := Value(REQ_TYPE, VStruct([VStr(empty), VArr([])]));
    EmptyRequest();
    WholeRoundTrip(v, []);
    hide DecValue;
    hide EncType;
    assert EncType(v.ty) + Flat(v.val) + [] == msg;
    hide Flat;
    RequestShape(msg);
    NameFirst(empty, []);
    hide Scanned;
    var last := ArgsScanned(s, empty, []) + [empty];
    assert ScannedLast(s, msg) == last && empty in last;
  }

  lemma EmptyRequest()
    ensures var v := VStruct([VStr([]), VArr([])]);
            && EncType(REQ_TYPE) == [STRUCT_TID, 2, STRING_TID, ARRAY_TID, ARRAY_TID, BYTE_TID]
            && WellFormed(REQ_TYPE) && Shaped(REQ_TYPE, v) && Flat(v) == [0, 0, 0, 0, 0, 0, 0, 0]
  {
    hide U32;
    Pair(TStr, TArr(TArr(TNum(BYTE_TID))), VStr([]), VArr([]));
    assert U32(0) == [0, 0, 0, 0] by {
      ZeroLength();
    }
  }

  lemma ZeroLength()
    ensures U32(0) == [0, 0, 0, 0]
  {
  }
}

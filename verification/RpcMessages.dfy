/**
 * The two messages of the RPC protocol, what the server makes of a request and what the client makes of a response
 * (chrpc/src/rpc_server.c, chrpc/src/rpc_client.c).
 */
module RpcMessages {
  import opened Bytes
  import opened SerialType
  import opened SerialValue
  import opened SerialTheorems
  import opened SerialStrays
  import opened SerialBuffer

  /** An argument may be NULL, which is sent as no bytes at all. */
  datatype Call = Call(name: bytes, args: seq<Option<Value>>)

  const REQ_TYPE: Type := TStruct([TStr, TArr(TArr(TNum(BYTE_TID)))])
  const RESP_TYPE: Type := TStruct([TNum(BYTE_TID), TArr(TNum(BYTE_TID))])
  const MIN_MSG_SIZE := 0x80

  function ByteArray(b: bytes): Val {
    VNumArr(b, |b|)
  }

  function ArgArrays(args: seq<Option<Value>>): seq<Val> {
    if args == [] then [] else [ByteArray(OptionalBytes(args[0]))] + ArgArrays(args[1..])
  }

  /** A request: the endpoint's name, and each argument's own encoding as an array of bytes. */
  function RequestValue(c: Call): Value {
    Value(REQ_TYPE, VStruct([VStr(c.name + [0]), VArr(ArgArrays(c.args))]))
  }

  function Request(c: Call): bytes {
    EncValue(RequestValue(c))
  }

  /** A response: a status, and the encoding of the returned value, if there is one. */
  function ResponseValue(st: Status, payload: bytes): Value {
    Value(RESP_TYPE, VStruct([VNum([st]), ByteArray(payload)]))
  }

  function Response(st: Status, payload: bytes): bytes {
    EncValue(ResponseValue(st, payload))
  }

  /** What a caller may ask: a C string for a name, and arguments the encoder accepts. */
  ghost predicate ValidCall(c: Call) {
    0 !in c.name && |c.args| < 256 && forall a <- c.args :: a.Some? ==> Valid(a.value)
  }

  // ---------------------------------------------------------------- the server's side

  /**
   * `func(n, id, args)` is what the n-th endpoint call of a run returns for channel `id`, so any state the endpoints
   * share is covered; the flag asks to disconnect.
   */
  datatype Endpoint = Endpoint(args: seq<Type>, ret: Option<Type>, func: (nat, nat, seq<Value>) -> (Option<Value>, bool))

  /** The server's endpoints and buffer size, and the largest message the channel takes. */
  datatype Server = Server(endpoints: map<bytes, Endpoint>, bufLen: nat, maxMsg: nat)

  ghost predicate ValidServer(s: Server) {
    && MIN_MSG_SIZE <= s.maxMsg <= s.bufLen && s.maxMsg < U32_RANGE
    && forall name, n: nat, id: nat, args {:trigger s.endpoints[name].func(n, id, args)} :: name in s.endpoints ==>
         var ret := s.endpoints[name].func(n, id, args).0;
         ret.Some? ==> Valid(ret.value)
  }

  /** What handling a message comes to: a reply or none, whether the channel is dropped, whether an endpoint ran. */
  datatype Handled = Handled(reply: Option<bytes>, close: bool, called: bool)

  /** Does the worker drop the channel after this, its reply having been sent or not? */
  predicate Drops(h: Handled, sent: bool) {
    h.reply.None? || !sent || h.close
  }

  function ErrorReply(st: Status, called: bool): Handled {
    Handled(Some(Response(st, [])), false, called)
  }

  /** The type an endpoint declares against what it returned; both may be nothing. */
  predicate TypeMatches(declared: Option<Type>, returned: Option<Value>) {
    if declared.None? || returned.None? then declared.None? && returned.None?
    else declared.value == returned.value.ty
  }

  /** The endpoint name inside a decoded request: up to the NUL, or nothing when there is no block at all. */
  function NameOf(block: bytes): bytes {
    var c := UpToNul(block);
    if c != [] && c[|c| - 1] == 0 then c[..|c| - 1] else c
  }

  /** Decodes the arguments in order; the first that fails or has the wrong type decides the status. */
  function ParseArgs(types: seq<Type>, arrays: seq<Val>): Parsed<seq<Value>>
    requires |types| == |arrays| && ByteArrays(arrays)
  {
    if types == [] then Parsed([], 0)
    else
      match DecValue(arrays[0].block)
      case Failed(st) => Failed(st)
      case Parsed(v, _) =>
        if v.ty != types[0] then Failed(ARGUMENT_MISMATCH)
        else
          match ParseArgs(types[1..], arrays[1..])
          case Failed(st) => Failed(st)
          case Parsed(vs, _) => Parsed([v] + vs, 0)
  }

  function Respond(s: Server, ep: Endpoint, n: nat, id: nat, args: seq<Value>): Handled {
    var (ret, disconnect) := ep.func(n, id, args);
    if !TypeMatches(ep.ret, ret) then Handled(None, true, true)
    else
      var b := Response(SUCCESS, OptionalBytes(ret));
      if |b| > s.bufLen || |b| > s.maxMsg then ErrorReply(BUFFER_TOO_SMALL, true)
      else Handled(Some(b), disconnect, true)
  }

  function HandleRequest(s: Server, n: nat, id: nat, name: bytes, arrays: seq<Val>): Handled
    requires ByteArrays(arrays)
  {
    if name !in s.endpoints then ErrorReply(UNKNOWN_ENDPOINT, false)
    else
      var ep := s.endpoints[name];
      if |ep.args| != |arrays| then ErrorReply(ARGUMENT_MISMATCH, false)
      else
        match ParseArgs(ep.args, arrays)
        case Failed(st) => ErrorReply(st, false)
        case Parsed(args, _) => Respond(s, ep, n, id, args)
  }

  /** A decoded value of the request type has a string and an array of byte arrays in it. */
  lemma RequestShape(msg: bytes)
    requires DecValue(msg).Parsed? && DecValue(msg).value.ty == REQ_TYPE
    ensures var v := DecValue(msg).value.val;
            v.VStruct? && |v.entries| == 2 && v.entries[0].VStr? && v.entries[1].VArr?
            && ByteArrays(v.entries[1].entries)
  {
    DecodedIsWhatWasThere(msg);
    var es := DecValue(msg).value.val.entries;
    EntryAt(REQ_TYPE.fields, es, 0);
    EntryAt(REQ_TYPE.fields, es, 1);
    AllByteArrays(es[1].entries);
  }

  predicate ByteArrays(es: seq<Val>) {
    forall i | 0 <= i < |es| :: es[i].VNumArr? && |es[i].block| == es[i].len
  }

  lemma AllByteArrays(es: seq<Val>)
    requires ShapedAll(Repeat(TArr(TNum(BYTE_TID)), |es|), es)
    ensures ByteArrays(es)
  {
    forall i | 0 <= i < |es|
      ensures es[i].VNumArr? && |es[i].block| == es[i].len
    {
      EntryAt(Repeat(TArr(TNum(BYTE_TID)), |es|), es, i);
    }
  }

  lemma ResponseShape(buf: bytes)
    requires DecValue(buf).Parsed? && DecValue(buf).value.ty == RESP_TYPE
    ensures var v := DecValue(buf).value.val;
            v.VStruct? && |v.entries| == 2 && v.entries[0].VNum? && |v.entries[0].raw| == 1
            && v.entries[1].VNumArr? && |v.entries[1].block| == v.entries[1].len
            && Scanned(v) == []
  {
    DecodedIsWhatWasThere(buf);
    var es := DecValue(buf).value.val.entries;
    EntryAt(RESP_TYPE.fields, es, 0);
    EntryAt(RESP_TYPE.fields, es, 1);
    assert es == [es[0], es[1]] && es[1..] == [es[1]] && [es[1]][1..] == [];
    assert ScannedAll(es[1..]) == [] && ScannedAll(es) == [];
  }

  /** Everything a worker does with one received message. */
  function Handle(s: Server, n: nat, id: nat, msg: bytes): Handled {
    match DecValue(msg)
    case Failed(st) => ErrorReply(st, false)
    case Parsed(req, _) =>
      if req.ty != REQ_TYPE then ErrorReply(BAD_REQUEST, false)
      else
        RequestShape(msg);
        var fields := req.val.entries;
        HandleRequest(s, n, id, NameOf(fields[0].block), fields[1].entries)
  }

  // ---------------------------------------------------------------- what the server looks through for a NUL

  /** Looking an endpoint up takes NULL, which an empty block is, for the empty name. */
  function NameScanned(block: bytes): seq<bytes> {
    if block == [] then [] else [block]
  }

  /**
   * The arguments that are decoded, up to the first that fails or has the wrong type, that one included if it decodes.
   */
  function ArgsBuilt(types: seq<Type>, arrays: seq<Val>): seq<Value>
    requires |types| == |arrays| && ByteArrays(arrays)
  {
    if types == [] then []
    else
      match DecValue(arrays[0].block)
      case Failed(_) => []
      case Parsed(v, _) => if v.ty != types[0] then [v] else [v] + ArgsBuilt(types[1..], arrays[1..])
  }

  /** What an argument that fails to decode undoes. */
  function ArgsUndone(types: seq<Type>, arrays: seq<Val>): seq<bytes>
    requires |types| == |arrays| && ByteArrays(arrays)
  {
    if types == [] then []
    else
      match DecValue(arrays[0].block)
      case Failed(_) => ValueUndone(arrays[0].block)
      case Parsed(v, _) => if v.ty != types[0] then [] else ArgsUndone(types[1..], arrays[1..])
  }

  function ValuesScanned(vs: seq<Value>): seq<bytes> {
    if vs == [] then [] else Scanned(vs[0].val) + ValuesScanned(vs[1..])
  }

  /** Are the arguments of this request decoded? */
  predicate ParsesArgs(s: Server, block: bytes, arrays: seq<Val>) {
    NameOf(block) in s.endpoints && |s.endpoints[NameOf(block)].args| == |arrays|
  }

  /** The blocks looked through before the reply goes out: the name, and what a failing argument undoes. */
  function RequestScanned(s: Server, block: bytes, arrays: seq<Val>): seq<bytes>
    requires ByteArrays(arrays)
  {
    NameScanned(block)
    + if ParsesArgs(s, block, arrays) then ArgsUndone(s.endpoints[NameOf(block)].args, arrays) else []
  }

  /** The blocks looked through when the decoded arguments are deleted. */
  function ArgsScanned(s: Server, block: bytes, arrays: seq<Val>): seq<bytes>
    requires ByteArrays(arrays)
  {
    if ParsesArgs(s, block, arrays) then ValuesScanned(ArgsBuilt(s.endpoints[NameOf(block)].args, arrays)) else []
  }

  /** The blocks looked through before a message is answered. */
  function ScannedFirst(s: Server, msg: bytes): seq<bytes> {
    match DecValue(msg)
    case Failed(_) => ValueUndone(msg)
    case Parsed(req, _) =>
      if req.ty != REQ_TYPE then []
      else
        RequestShape(msg);
        RequestScanned(s, req.val.entries[0].block, req.val.entries[1].entries)
  }

  /** The blocks looked through afterwards, when what came of the message is deleted. */
  function ScannedLast(s: Server, msg: bytes): seq<bytes> {
    match DecValue(msg)
    case Failed(_) => []
    case Parsed(req, _) =>
      if req.ty != REQ_TYPE then Scanned(req.val)
      else
        RequestShape(msg);
        ArgsScanned(s, req.val.entries[0].block, req.val.entries[1].entries) + Scanned(req.val)
  }

  // ---------------------------------------------------------------- the client's side

  datatype Outcome = Returned(ret: Option<Value>) | Refused(status: Status)

  /** What the client makes of its buffer once a response has been copied into it. */
  function ClientDecode(buf: bytes): Outcome {
    match DecValue(buf)
    case Failed(_) => Refused(BAD_RESPONSE)
    case Parsed(resp, _) =>
      if resp.ty != RESP_TYPE then Refused(BAD_RESPONSE)
      else
        ResponseShape(buf);
        var fields := resp.val.entries;
        if fields[0].raw[0] != SUCCESS then Refused(fields[0].raw[0])
        else if fields[1].len == 0 then Returned(None)
        else
          match DecValue(fields[1].block)
          case Failed(st) => Refused(st)
          case Parsed(v, _) => Returned(Some(v))
  }

  /** The blocks a client looks through for a NUL in its buffer, and in the value it gets if it throws that away. */
  function ReplyScanned(buf: bytes, wantRet: bool): seq<bytes> {
    match DecValue(buf)
    case Failed(_) => ValueUndone(buf)
    case Parsed(resp, _) =>
      if resp.ty != RESP_TYPE then Scanned(resp.val)
      else
        ResponseShape(buf);
        var fields := resp.val.entries;
        if fields[0].raw[0] != SUCCESS || fields[1].len == 0 then []
        else
          match DecValue(fields[1].block)
          case Failed(_) => ValueUndone(fields[1].block)
          case Parsed(v, _) => if wantRet then [] else Scanned(v.val)
  }

  // ---------------------------------------------------------------- what a call should come to

  function CutValue(v: Value): Value {
    Value(v.ty, Cut(v.val))
  }

  function CutArgs(args: seq<Option<Value>>): seq<Value>
    requires forall a <- args :: a.Some?
  {
    if args == [] then [] else [CutValue(args[0].value)] + CutArgs(args[1..])
  }

  /** The first argument that is missing or of the wrong type decides; none means the call goes through. */
  function ArgsError(types: seq<Type>, args: seq<Option<Value>>): Option<Status>
    requires |types| == |args|
    ensures ArgsError(types, args).None? ==> forall a <- args :: a.Some?
  {
    if types == [] then None
    else if args[0].None? then Some(UNEXPECTED_END)
    else if args[0].value.ty != types[0] then Some(ARGUMENT_MISMATCH)
    else ArgsError(types[1..], args[1..])
  }

  /** The type of what an endpoint returned, which may be nothing. */
  function TypeOf(returned: Option<Value>): Option<Type> {
    if returned.None? then None else Some(returned.value.ty)
  }

  lemma TypeMatchesExactly(declared: Option<Type>, returned: Option<Value>)
    ensures TypeMatches(declared, returned) <==> declared == TypeOf(returned)
  {
  }

  /** Does this call reach an endpoint function? */
  predicate Invokes(s: Server, c: Call) {
    c.name in s.endpoints && |s.endpoints[c.name].args| == |c.args| && ArgsError(s.endpoints[c.name].args, c.args).None?
  }

  /**
   * The result the caller is owed, said without messages: the endpoint's own result on the arguments passed, or the
   * status for the first thing that does not match. No answer at all comes only from an endpoint that returned a
   * value of a type it did not declare.
   */
  function Expected(s: Server, n: nat, id: nat, c: Call): Option<Outcome> {
    if c.name !in s.endpoints then Some(Refused(UNKNOWN_ENDPOINT))
    else
      var ep := s.endpoints[c.name];
      if |ep.args| != |c.args| then Some(Refused(ARGUMENT_MISMATCH))
      else if ArgsError(ep.args, c.args).Some? then Some(Refused(ArgsError(ep.args, c.args).value))
      else
        var ret := ep.func(n, id, CutArgs(c.args)).0;
        if ep.ret != TypeOf(ret) then None
        else if 10 + |OptionalBytes(ret)| > s.maxMsg then Some(Refused(BUFFER_TOO_SMALL))
        else Some(Returned(if ret.None? then None else Some(CutValue(ret.value))))
  }

  /** Does the endpoint that this call reaches ask to disconnect, with a result that the channel takes? */
  predicate AsksToDisconnect(s: Server, n: nat, id: nat, c: Call) {
    Invokes(s, c)
    && var (ret, disconnect) := s.endpoints[c.name].func(n, id, CutArgs(c.args));
       disconnect && s.endpoints[c.name].ret == TypeOf(ret) && 10 + |OptionalBytes(ret)| <= s.maxMsg
  }
}

/**
 * Values and their wire form (chrpc/src/serial_value.c, chrpc/include/chrpc/serial_value.h): the specification that the
 * buffer routines in `SerialBuffer` are proved against, and the laws of the codec.
 */
module SerialValue {
  import opened Bytes
  import opened SerialType

  /**
   * What an inner value holds in memory, one constructor for each member of the C union. Strings are the blocks they
   * are stored in: the decoder copies whatever bytes arrive, so a block need not end at its first NUL, nor have one.
   */
  datatype Val =
    | VNum(raw: bytes)
    | VStr(block: bytes)
    | VNumArr(block: bytes, len: nat)
    | VStrArr(strs: seq<bytes>)
    | VArr(entries: seq<Val>)
    | VStruct(entries: seq<Val>)

  datatype Value = Value(ty: Type, val: Val)

  function NumSize(tid: NumId): (n: nat)
    ensures 1 <= n <= 8
  {
    match tid
    case 0 => 1
    case 1 => 2
    case 2 => 4
    case 3 => 8
    case 4 => 2
    case 5 => 4
    case 6 => 8
    case 7 => 4
    case 8 => 8
  }

  /** `v` is laid out as type `t` says. */
  ghost predicate Shaped(t: Type, v: Val)
    decreases v
  {
    match v
    case VNum(raw) => t.TNum? && |raw| == NumSize(t.tid)
    case VStr(b) => t.TStr? && |b| < U32_RANGE
    case VNumArr(b, n) => t.TArr? && t.cell.TNum? && n < U32_RANGE && |b| == NumSize(t.cell.tid) * n
    case VStrArr(ss) => t.TArr? && t.cell.TStr? && |ss| < U32_RANGE && forall s <- ss :: |s| < U32_RANGE
    case VArr(es) =>
      t.TArr? && (t.cell.TArr? || t.cell.TStruct?) && |es| < U32_RANGE && ShapedAll(Repeat(t.cell, |es|), es)
    case VStruct(es) => t.TStruct? && ShapedAll(t.fields, es)
  }

  ghost predicate ShapedAll(ts: seq<Type>, es: seq<Val>)
    decreases es
  {
    |ts| == |es| && (es != [] ==> Shaped(ts[0], es[0]) && ShapedAll(ts[1..], es[1..]))
  }

  /** Every string in `v` has a NUL, so that `strlen` stays inside its block. */
  ghost predicate Readable(v: Val) {
    match v
    case VStr(b) => 0 in b
    case VStrArr(ss) => forall s <- ss :: 0 in s
    case VArr(es) => ReadableAll(es)
    case VStruct(es) => ReadableAll(es)
    case _ => true
  }

  ghost predicate ReadableAll(es: seq<Val>) {
    es != [] ==> Readable(es[0]) && ReadableAll(es[1..])
  }

  /** The C string in a block: everything up to and including the first NUL. */
  function UpToNul(b: bytes): (c: bytes) {
    if b == [] then []
    else if b[0] == 0 then [0]
    else [b[0]] + UpToNul(b[1..])
  }

  function AllUpToNul(ss: seq<bytes>): seq<bytes> {
    if ss == [] then [] else [UpToNul(ss[0])] + AllUpToNul(ss[1..])
  }

  /** `v` with every string block cut after its first NUL. */
  function Cut(v: Val): Val {
    match v
    case VStr(b) => VStr(UpToNul(b))
    case VStrArr(ss) => VStrArr(AllUpToNul(ss))
    case VArr(es) => VArr(CutAll(es))
    case VStruct(es) => VStruct(CutAll(es))
    case _ => v
  }

  function CutAll(es: seq<Val>): seq<Val> {
    if es == [] then [] else [Cut(es[0])] + CutAll(es[1..])
  }

  // ---------------------------------------------------------------- wire form

  /** A length followed by that many bytes. */
  function Prefixed(b: bytes): bytes {
    U32(|b|) + b
  }

  function PrefixedAll(ss: seq<bytes>): bytes {
    if ss == [] then [] else Prefixed(ss[0]) + PrefixedAll(ss[1..])
  }

  /** The blocks of `v` written out whole. */
  function Flat(v: Val): bytes {
    match v
    case VNum(raw) => raw
    case VStr(b) => Prefixed(b)
    case VNumArr(b, n) => U32(n) + b
    case VStrArr(ss) => U32(|ss|) + PrefixedAll(ss)
    case VArr(es) => U32(|es|) + FlatAll(es)
    case VStruct(es) => FlatAll(es)
  }

  function FlatAll(es: seq<Val>): bytes {
    if es == [] then [] else Flat(es[0]) + FlatAll(es[1..])
  }

  /** The encoder writes each string only as far as its first NUL. */
  function Enc(v: Val): bytes {
    Flat(Cut(v))
  }

  function EncAll(es: seq<Val>): bytes {
    FlatAll(CutAll(es))
  }

  function EncValue(v: Value): bytes {
    EncType(v.ty) + Enc(v.val)
  }

  function Repeat(t: Type, n: nat): (ts: seq<Type>)
    ensures |ts| == n && forall i | 0 <= i < n :: ts[i] == t
  {
    seq(n, _ => t)
  }

  function DecBlock(s: bytes, cellSize: nat): (r: Parsed<bytes>)
    ensures r.Parsed? ==> 4 <= r.used <= |s|
    ensures r.Failed? ==> r.status == UNEXPECTED_END
  {
    if |s| < 4 then Failed(UNEXPECTED_END)
    else if |s| - 4 < cellSize * FromU32(s) then Failed(UNEXPECTED_END)
    else Parsed(s[4..4 + cellSize * FromU32(s)], 4 + cellSize * FromU32(s))
  }

  function DecBlocks(count: nat, s: bytes): (r: Parsed<seq<bytes>>)
    ensures r.Parsed? ==> r.used <= |s|
    ensures r.Failed? ==> r.status == UNEXPECTED_END
    decreases count
  {
    if count == 0 then Parsed([], 0)
    else
      match DecBlock(s, 1)
      case Failed(st) => Failed(st)
      case Parsed(b, n) =>
        match DecBlocks(count - 1, s[n..])
        case Failed(st) => Failed(st)
        case Parsed(bs, m) => Parsed([b] + bs, n + m)
  }

  function Dec(t: Type, s: bytes): (r: Parsed<Val>)
    ensures r.Parsed? ==> r.used <= |s|
    ensures r.Failed? ==> r.status == UNEXPECTED_END
    decreases |s|, t
  {
    match t
    case TNum(tid) =>
      if |s| < NumSize(tid) then Failed(UNEXPECTED_END) else Parsed(VNum(s[..NumSize(tid)]), NumSize(tid))
    case TStr => (match DecBlock(s, 1) case Failed(st) => Failed(st) case Parsed(b, n) => Parsed(VStr(b), n))
    case TStruct(fs) => (match DecAll(fs, s) case Failed(st) => Failed(st) case Parsed(es, n) => Parsed(VStruct(es), n))
    case TArr(c) =>
      if |s| < 4 then Failed(UNEXPECTED_END)
      else if c.TNum? then
        match DecBlock(s, NumSize(c.tid))
        case Failed(st) => Failed(st)
        case Parsed(b, n) => Parsed(VNumArr(b, FromU32(s)), n)
      else if c.TStr? then
        match DecBlocks(FromU32(s), s[4..])
        case Failed(st) => Failed(st)
        case Parsed(ss, n) => Parsed(VStrArr(ss), 4 + n)
      else
        match DecAll(Repeat(c, FromU32(s)), s[4..])
        case Failed(st) => Failed(st)
        case Parsed(es, n) => Parsed(VArr(es), 4 + n)
  }

  /** One value of each type in `ts`, one after another. */
  function DecAll(ts: seq<Type>, s: bytes): (r: Parsed<seq<Val>>)
    ensures r.Parsed? ==> r.used <= |s|
    ensures r.Failed? ==> r.status == UNEXPECTED_END
    decreases |s|, ts
  {
    if ts == [] then Parsed([], 0)
    else
      match Dec(ts[0], s)
      case Failed(st) => Failed(st)
      case Parsed(v, n) =>
        match DecAll(ts[1..], s[n..])
        case Failed(st) => Failed(st)
        case Parsed(vs, m) => Parsed([v] + vs, n + m)
  }

  function DecValue(s: bytes): (r: Parsed<Value>)
    ensures r.Parsed? ==> r.used <= |s|
  {
    match DecType(s)
    case Failed(st) => Failed(st)
    case Parsed(t, n) =>
      match Dec(t, s[n..])
      case Failed(st) => Failed(st)
      case Parsed(v, m) => Parsed(Value(t, v), n + m)
  }
}

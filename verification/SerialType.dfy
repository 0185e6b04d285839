/** Self-describing types: their wire form, its decoder, and equality (chrpc/src/serial_type.c). */
module SerialType {
  import opened Bytes
  import opened Memory

  /** Identifiers of the nine numeric types: BYTE, INT16, INT32, INT64, UINT16, UINT32, UINT64, FLOAT32, FLOAT64. */
  type NumId = n: int | 0 <= n <= 8

  datatype Type = TNum(tid: NumId) | TStr | TStruct(fields: seq<Type>) | TArr(cell: Type)

  const BYTE_TID: NumId := 0
  const FLOAT64_TID: NumId := 8
  const STRING_TID: byte := 9
  const STRUCT_TID: byte := 10
  const ARRAY_TID: byte := 11
  const MAX_STRUCT_FIELDS := 64
  const NODE_SIZE: nat := 16

  /** Every struct in `t` has between 1 and 64 fields. */
  predicate WellFormed(t: Type) {
    match t
    case TNum(_) => true
    case TStr => true
    case TArr(c) => WellFormed(c)
    case TStruct(fs) => 1 <= |fs| <= MAX_STRUCT_FIELDS && forall f <- fs :: WellFormed(f)
  }

  // ---------------------------------------------------------------- wire form

  function EncType(t: Type): bytes {
    match t
    case TNum(tid) => [tid]
    case TStr => [STRING_TID]
    case TArr(c) => [ARRAY_TID] + EncType(c)
    case TStruct(fs) => [STRUCT_TID, |fs| % 256] + EncTypes(fs)
  }

  function EncTypes(ts: seq<Type>): bytes {
    if ts == [] then [] else EncType(ts[0]) + EncTypes(ts[1..])
  }

  function DecType(s: bytes): (r: Parsed<Type>)
    ensures r.Parsed? ==> 1 <= r.used <= |s|
    decreases |s|, 0
  {
    if |s| < 1 then Failed(UNEXPECTED_END)
    else if s[0] <= FLOAT64_TID then Parsed(TNum(s[0]), 1)
    else if s[0] == STRING_TID then Parsed(TStr, 1)
    else if s[0] == ARRAY_TID then
      match DecType(s[1..])
      case Failed(st) => Failed(st)
      case Parsed(c, n) => Parsed(TArr(c), 1 + n)
    else if s[0] == STRUCT_TID then
      if |s| < 2 then Failed(UNEXPECTED_END)
      else if s[1] < 1 then Failed(EMPTY_STRUCT_TYPE)
      else if s[1] > MAX_STRUCT_FIELDS then Failed(STRUCT_TYPE_TOO_LARGE)
      else
        match DecTypes(s[1], s[2..])
        case Failed(st) => Failed(st)
        case Parsed(fs, n) => Parsed(TStruct(fs), 2 + n)
    else Failed(SYNTAX_ERROR)
  }

  /** `count` types one after another. */
  function DecTypes(count: nat, s: bytes): (r: Parsed<seq<Type>>)
    ensures r.Parsed? ==> r.used <= |s|
    decreases |s|, count + 1
  {
    if count == 0 then Parsed([], 0)
    else
      match DecType(s)
      case Failed(st) => Failed(st)
      case Parsed(t, n) =>
        match DecTypes(count - 1, s[n..])
        case Failed(st) => Failed(st)
        case Parsed(ts, m) => Parsed([t] + ts, n + m)
  }

  // ---------------------------------------------------------------- the codec laws

  /** Decoding undoes encoding, whatever bytes follow, and uses exactly the encoding. */
  lemma {:induction false} TypeRoundTrip(t: Type, rest: bytes)
    requires WellFormed(t)
    ensures DecType(EncType(t) + rest) == Parsed(t, |EncType(t)|)
    decreases t
  {
    var s := EncType(t) + rest;
    match t
    case TNum(_) =>
    case TStr =>
    case TArr(c) =>
      TypeRoundTrip(c, rest);
      assert s[0] == ARRAY_TID && s[1..] == EncType(c) + rest;
    case TStruct(fs) =>
      TypesRoundTrip(fs, rest);
      assert s[0] == STRUCT_TID && s[1] == |fs| && s[2..] == EncTypes(fs) + rest;
  }

  lemma {:induction false} TypesRoundTrip(ts: seq<Type>, rest: bytes)
    requires forall t <- ts :: WellFormed(t)
    ensures DecTypes(|ts|, EncTypes(ts) + rest) == Parsed(ts, |EncTypes(ts)|)
    decreases ts
  {
    if ts != [] {
      var s := EncTypes(ts) + rest;
      var tail := EncTypes(ts[1..]) + rest;
      assert s == EncType(ts[0]) + tail;
      TypeRoundTrip(ts[0], tail);
      TypesRoundTrip(ts[1..], rest);
      assert s[|EncType(ts[0])|..] == tail;
      assert [ts[0]] + ts[1..] == ts;
    }
  }

  /** Whatever decodes is well formed, and its encoding is exactly the bytes used. */
  lemma {:induction false} DecTypeSound(s: bytes)
    requires DecType(s).Parsed?
    ensures WellFormed(DecType(s).value)
    ensures EncType(DecType(s).value) == s[..DecType(s).used]
    decreases |s|, 0
  {
    if s[0] <= STRING_TID {
    } else if s[0] == ARRAY_TID {
      DecTypeSound(s[1..]);
    } else {
      DecTypesSound(s[1], s[2..]);
      assert s[..2] + s[2..][..DecType(s).used - 2] == s[..DecType(s).used];
    }
  }

  lemma {:induction false} DecTypesSound(count: nat, s: bytes)
    requires DecTypes(count, s).Parsed?
    ensures |DecTypes(count, s).value| == count
    ensures forall t <- DecTypes(count, s).value :: WellFormed(t)
    ensures EncTypes(DecTypes(count, s).value) == s[..DecTypes(count, s).used]
    decreases |s|, count + 1
  {
    if count > 0 {
      var n := DecType(s).used;
      var tail := DecTypes(count - 1, s[n..]);
      DecTypeSound(s);
      DecTypesSound(count - 1, s[n..]);
      assert s[..n] + s[n..][..tail.used] == s[..n + tail.used];
      assert ([DecType(s).value] + tail.value)[1..] == tail.value;
    }
  }

  /** A type cut short anywhere is reported as an unexpected end, never as anything else. */
  lemma {:induction false} TypeTruncated(t: Type, k: nat)
    requires WellFormed(t) && k < |EncType(t)|
    ensures DecType(EncType(t)[..k]) == Failed(UNEXPECTED_END)
    decreases t
  {
    var s := EncType(t)[..k];
    match t
    case TNum(_) =>
    case TStr =>
    case TArr(c) =>
      if k >= 1 {
        TypeTruncated(c, k - 1);
        assert s[1..] == EncType(c)[..k - 1];
      }
    case TStruct(fs) =>
      if k >= 2 {
        TypesTruncated(fs, k - 2);
        assert s[2..] == EncTypes(fs)[..k - 2];
      }
  }

  lemma {:induction false} TypesTruncated(ts: seq<Type>, k: nat)
    requires (forall t <- ts :: WellFormed(t)) && k < |EncTypes(ts)|
    ensures DecTypes(|ts|, EncTypes(ts)[..k]) == Failed(UNEXPECTED_END)
    decreases ts
  {
    var s, head := EncTypes(ts)[..k], EncType(ts[0]);
    if k < |head| {
      TypeTruncated(ts[0], k);
      assert s == head[..k];
    } else {
      var tail := EncTypes(ts[1..])[..k - |head|];
      assert s == head + tail;
      TypeRoundTrip(ts[0], tail);
      TypesTruncated(ts[1..], k - |head|);
    }
  }

  lemma {:induction false} EncTypesAppend(a: seq<Type>, b: seq<Type>)
    ensures EncTypes(a + b) == EncTypes(a) + EncTypes(b)
  {
    if a == [] {
      assert a + b == b;
    } else {
      EncTypesAppend(a[1..], b);
      assert (a + b)[0] == a[0] && (a + b)[1..] == a[1..] + b;
      Assoc(EncType(a[0]), EncTypes(a[1..]), EncTypes(b));
    }
  }

  // ---------------------------------------------------------------- the C routines

  method TypeEquals(ct1: Type, ct2: Type) returns (same: bool)
    ensures same <==> ct1 == ct2
    decreases ct1
  {
    match (ct1, ct2)
    case (TNum(k1), TNum(k2)) => same := k1 == k2;
    case (TStr, TStr) => same := true;
    case (TArr(c1), TArr(c2)) => same := TypeEquals(c1, c2);
    case (TStruct(fs1), TStruct(fs2)) =>
      if |fs1| != |fs2| {
        return false;
      }
      for i := 0 to |fs1|
        invariant fs1[..i] == fs2[..i]
      {
        var eq := TypeEquals(fs1[i], fs2[i]);
        if !eq {
          return false;
        }
      }
      assert fs1 == fs1[..|fs1|] && fs2 == fs2[..|fs2|];
      same := true;
    case _ => same := false;
  }

  /** Writes into the `bufLen` bytes of `buf` that start at `pos`. */
  method TypeToBuffer(ct: Type, buf: array<byte>, pos: nat, bufLen: nat) returns (st: Status, written: nat)
    requires pos + bufLen <= buf.Length && WellFormed(ct)
    modifies buf
    ensures st == if |EncType(ct)| <= bufLen then SUCCESS else BUFFER_TOO_SMALL
    ensures st == SUCCESS ==> written == |EncType(ct)| && At(buf, pos, EncType(ct))
    ensures forall i :: 0 <= i < pos || pos + (if st == SUCCESS then written else bufLen) <= i < buf.Length
              ==> buf[i] == old(buf[i])
    decreases ct
  {
    if bufLen < 1 {
      EncTypeNonEmpty(ct);
      return BUFFER_TOO_SMALL, 0;
    }
    if ct.TNum? || ct.TStr? {
      buf[pos] := if ct.TStr? then STRING_TID else ct.tid;
      st, written := SUCCESS, 1;
    } else if ct.TArr? {
      buf[pos] := ARRAY_TID;
      st, written := TypeToBuffer(ct.cell, buf, pos + 1, bufLen - 1);
      written := written + 1;
    } else {
      if bufLen < 2 {
        return BUFFER_TOO_SMALL, 0;
      }
      buf[pos], buf[pos + 1] := STRUCT_TID, |ct.fields|;
      st, written := FieldTypesToBuffer(ct.fields, buf, pos + 2, bufLen - 2);
      written := written + 2;
    }
  }

  /** The loop of the struct case: every field type, one after another. */
  method FieldTypesToBuffer(fields: seq<Type>, buf: array<byte>, pos: nat, bufLen: nat)
    returns (st: Status, written: nat)
    requires pos + bufLen <= buf.Length && forall f <- fields :: WellFormed(f)
    modifies buf
    ensures st == if |EncTypes(fields)| <= bufLen then SUCCESS else BUFFER_TOO_SMALL
    ensures st == SUCCESS ==> written == |EncTypes(fields)| && At(buf, pos, EncTypes(fields))
    ensures forall i :: 0 <= i < pos || pos + (if st == SUCCESS then written else bufLen) <= i < buf.Length
              ==> buf[i] == old(buf[i])
    decreases fields
  {
    st, written := SUCCESS, 0;
    for i := 0 to |fields|
      invariant st == SUCCESS && written <= bufLen
      invariant written == |EncTypes(fields[..i])| && At(buf, pos, EncTypes(fields[..i]))
      invariant forall j :: 0 <= j < pos || pos + written <= j < buf.Length ==> buf[j] == old(buf[j])
    {
      var w;
      EncTypesSplit(fields, i);
      st, w := TypeToBuffer(fields[i], buf, pos + written, bufLen - written);
      if st != SUCCESS {
        return;
      }
      written := written + w;
    }
    assert fields[..|fields|] == fields;
  }

  lemma EncTypeNonEmpty(t: Type)
    ensures |EncType(t)| >= 1
  {
  }

  lemma EncTypesSplit(ts: seq<Type>, i: nat)
    requires i < |ts|
    ensures EncTypes(ts[..i + 1]) == EncTypes(ts[..i]) + EncType(ts[i])
    ensures |EncTypes(ts)| >= |EncTypes(ts[..i])| + |EncType(ts[i])|
  {
    EncTypesAppend(ts[..i], [ts[i]]);
    EncTypesAppend(ts[..i + 1], ts[i + 1..]);
    assert ts[..i] + [ts[i]] == ts[..i + 1];
    assert ts[..i + 1] + ts[i + 1..] == ts;
    assert EncTypes([ts[i]]) == EncType(ts[i]);
  }

  /** Heap blocks owned by a type; the primitive types are static singletons. */
  function TypeBlocks(t: Type): nat {
    match t
    case TNum(_) => 0
    case TStr => 0
    case TArr(c) => 1 + TypeBlocks(c)
    case TStruct(fs) => 3 + TypesBlocks(fs)
  }

  function TypesBlocks(ts: seq<Type>): nat {
    if ts == [] then 0 else TypeBlocks(ts[0]) + TypesBlocks(ts[1..])
  }

  lemma {:induction false} TypesBlocksAppend(a: seq<Type>, b: seq<Type>)
    ensures TypesBlocks(a + b) == TypesBlocks(a) + TypesBlocks(b)
  {
    if a == [] {
      assert a + b == b;
    } else {
      assert (a + b)[0] == a[0] && (a + b)[1..] == a[1..] + b;
      TypesBlocksAppend(a[1..], b);
    }
  }

  lemma TypesBlocksStep(ts: seq<Type>, i: nat)
    requires i < |ts|
    ensures TypesBlocks(ts[..i + 1]) == TypesBlocks(ts[..i]) + TypeBlocks(ts[i])
  {
    assert ts[..i + 1] == ts[..i] + [ts[i]];
    TypesBlocksAppend(ts[..i], [ts[i]]);
  }

  method DeleteType(mem: Mem, ct: Type)
    modifies mem`live
    ensures mem.live == old(mem.live) - TypeBlocks(ct)
    decreases ct
  {
    if ct.TNum? || ct.TStr? {
      return;
    }
    if ct.TArr? {
      DeleteType(mem, ct.cell);
    } else {
      DeleteTypes(mem, ct.fields);
      mem.Free(NODE_SIZE); // the array of fields
      mem.Free(NODE_SIZE); // its header
    }
    mem.Free(NODE_SIZE);
  }

  method DeleteTypes(mem: Mem, ts: seq<Type>)
    modifies mem`live
    ensures mem.live == old(mem.live) - TypesBlocks(ts)
    decreases ts
  {
    for i := 0 to |ts|
      invariant mem.live == old(mem.live) - TypesBlocks(ts[..i])
    {
      TypesBlocksStep(ts, i);
      DeleteType(mem, ts[i]);
    }
    assert ts[..|ts|] == ts;
  }

  /**
   * Reads a type from the front of `buf`. A failed read leaves nothing allocated: the fields read before the
   * failing one are deleted again.
   */
  method TypeFromBuffer(mem: Mem, buf: bytes) returns (r: Parsed<Type>)
    modifies mem`live
    ensures r == DecType(buf)
    ensures mem.live == old(mem.live) + (if r.Parsed? then TypeBlocks(r.value) else 0)
    decreases |buf|, 0
  {
    if |buf| < 1 {
      return Failed(UNEXPECTED_END);
    }
    var tid := buf[0];
    if tid <= STRING_TID {
      return Parsed(if tid == STRING_TID then TStr else TNum(tid), 1);
    }
    if tid == ARRAY_TID {
      var c := TypeFromBuffer(mem, buf[1..]);
      if c.Failed? {
        return Failed(c.status);
      }
      mem.Malloc(NODE_SIZE);
      return Parsed(TArr(c.value), 1 + c.used);
    }
    if tid == STRUCT_TID {
      if |buf| < 2 {
        return Failed(UNEXPECTED_END);
      }
      var numFields := buf[1];
      if numFields < 1 {
        return Failed(EMPTY_STRUCT_TYPE);
      }
      if numFields > MAX_STRUCT_FIELDS {
        return Failed(STRUCT_TYPE_TOO_LARGE);
      }
      var fs := FieldTypesFromBuffer(mem, numFields, buf[2..]);
      if fs.Failed? {
        return Failed(fs.status);
      }
      mem.Malloc(NODE_SIZE);
      mem.Malloc(NODE_SIZE);
      return Parsed(TStruct(fs.value), 2 + fs.used);
    }
    return Failed(SYNTAX_ERROR);
  }

  /** One more round of the loop below, seen from the specification. */
  lemma DecTypesStep(left: nat, s: bytes, done: seq<Type>, used: nat)
    requires left > 0 && used <= |s|
    ensures var f := DecType(s[used..]);
            Prepend(done, used, DecTypes(left, s[used..]))
            == if f.Failed? then Failed(f.status)
               else Prepend(done + [f.value], used + f.used, DecTypes(left - 1, s[used + f.used..]))
  {
    var f := DecType(s[used..]);
    if f.Parsed? {
      assert s[used..][f.used..] == s[used + f.used..];
      PrependMore(done, used, f.value, f.used, DecTypes(left - 1, s[used + f.used..]));
    }
  }

  /** The loop of the struct case. The array it fills is released again on failure. */
  method FieldTypesFromBuffer(mem: Mem, numFields: nat, buf: bytes) returns (r: Parsed<seq<Type>>)
    requires numFields > 0
    modifies mem`live
    ensures r == DecTypes(numFields, buf)
    ensures mem.live == old(mem.live) + (if r.Parsed? then 1 + TypesBlocks(r.value) else 0)
    decreases |buf|, 1
  {
    hide DecType;
    var fields: seq<Type>, used: nat := [], 0;
    mem.Malloc(NODE_SIZE * numFields);
    PrependEnds([], 0, DecTypes(numFields, buf));
    assert buf[0..] == buf;
    for i := 0 to numFields
      invariant |fields| == i && used <= |buf|
      invariant DecTypes(numFields, buf) == Prepend(fields, used, DecTypes(numFields - i, buf[used..]))
      invariant mem.live == old(mem.live) + 1 + TypesBlocks(fields)
    {
      var f := TypeFromBuffer(mem, buf[used..]);
      DecTypesStep(numFields - i, buf, fields, used);
      if f.Failed? {
        DeleteTypes(mem, fields);
        mem.Free(NODE_SIZE * numFields);
        return Failed(f.status);
      }
      TypesBlocksAppend(fields, [f.value]);
      fields, used := fields + [f.value], used + f.used;
    }
    PrependEnds(fields, used, DecTypes(0, buf[used..]));
    return Parsed(fields, used);
  }
}

/** The buffer routines of chrpc/src/serial_value.c, each proved against the codec of `SerialValue`. */
module SerialBuffer {
  import opened Bytes
  import opened Memory
  import opened SerialType
  import opened SerialValue
  import opened SerialTheorems

  // ---------------------------------------------------------------- writing

  /** `strlen` plus one. */
  method StrSize(block: bytes) returns (n: nat)
    requires 0 in block
    ensures 1 <= n <= |block| && block[..n] == UpToNul(block)
  {
    n := 0;
    while block[n] != 0
      invariant n < |block| && 0 in block[n..]
      invariant UpToNul(block) == block[..n] + UpToNul(block[n..])
      decreases |block| - n
    {
      assert block[n..][1..] == block[n + 1..];
      assert block[..n] + [block[n]] == block[..n + 1];
      Assoc(block[..n], [block[n]], UpToNul(block[n + 1..]));
      n := n + 1;
    }
    assert UpToNul(block[n..]) == [0];
    n := n + 1;
  }

  method BlockToBuffer(block: bytes, numCells: nat, cellSize: nat, lenPrefix: bool, buf: array<byte>, pos: nat,
                       bufLen: nat)
    returns (st: Status, written: nat)
    requires pos + bufLen <= buf.Length && numCells * cellSize <= |block|
    modifies buf
    ensures var s := (if lenPrefix then U32(numCells) else []) + block[..numCells * cellSize];
            (st == if |s| <= bufLen then SUCCESS else BUFFER_TOO_SMALL)
            && (st == SUCCESS ==> written == |s| && At(buf, pos, s))
    ensures forall i :: 0 <= i < pos || pos + (if st == SUCCESS then written else bufLen) <= i < buf.Length
              ==> buf[i] == old(buf[i])
  {
    hide U32;
    written := 0;
    if lenPrefix {
      if bufLen < 4 {
        return BUFFER_TOO_SMALL, 0;
      }
      CopyInto(buf, pos, U32(numCells));
      written := 4;
    }
    var arrSize := numCells * cellSize;
    if bufLen < written + arrSize {
      return BUFFER_TOO_SMALL, 0;
    }
    CopyInto(buf, pos + written, block[..arrSize]);
    written := written + arrSize;
    st := SUCCESS;
  }

  lemma {:induction false} FlatAllAppend(a: seq<Val>, b: seq<Val>)
    ensures FlatAll(a + b) == FlatAll(a) + FlatAll(b)
  {
    hide Flat;
    if a == [] {
      assert a + b == b;
    } else {
      FlatAllAppend(a[1..], b);
      assert (a + b)[0] == a[0] && (a + b)[1..] == a[1..] + b;
      Assoc(Flat(a[0]), FlatAll(a[1..]), FlatAll(b));
    }
  }

  lemma {:induction false} CutAllAppend(a: seq<Val>, b: seq<Val>)
    ensures CutAll(a + b) == CutAll(a) + CutAll(b)
  {
    hide Cut;
    if a == [] {
      assert a + b == b;
    } else {
      CutAllAppend(a[1..], b);
      assert (a + b)[0] == a[0] && (a + b)[1..] == a[1..] + b;
      Assoc([Cut(a[0])], CutAll(a[1..]), CutAll(b));
    }
  }

  lemma EncAllAppend(a: seq<Val>, b: seq<Val>)
    ensures EncAll(a + b) == EncAll(a) + EncAll(b)
  {
    CutAllAppend(a, b);
    FlatAllAppend(CutAll(a), CutAll(b));
  }

  lemma EncAllSplit(es: seq<Val>, i: nat)
    requires i < |es|
    ensures EncAll(es[..i + 1]) == EncAll(es[..i]) + Enc(es[i])
    ensures |EncAll(es)| >= |EncAll(es[..i])| + |Enc(es[i])|
  {
    EncAllAppend(es[..i], [es[i]]);
    EncAllAppend(es[..i + 1], es[i + 1..]);
    assert es[..i] + [es[i]] == es[..i + 1];
    assert es[..i + 1] + es[i + 1..] == es;
    var e := Cut(es[i]);
    assert [es[i]][1..] == [] && CutAll([es[i]]) == [e] + CutAll([]);
    assert [e][1..] == [] && FlatAll([e]) == Flat(e) + FlatAll([]);
  }

  lemma {:induction false} PrefixedAllAppend(a: seq<bytes>, b: seq<bytes>)
    ensures PrefixedAll(AllUpToNul(a + b)) == PrefixedAll(AllUpToNul(a)) + PrefixedAll(AllUpToNul(b))
  {
    hide Prefixed;
    if a == [] {
      assert a + b == b;
    } else {
      PrefixedAllAppend(a[1..], b);
      assert (a + b)[0] == a[0] && (a + b)[1..] == a[1..] + b;
      assert AllUpToNul(a)[1..] == AllUpToNul(a[1..]) && AllUpToNul(a + b)[1..] == AllUpToNul(a[1..] + b);
      Assoc(Prefixed(UpToNul(a[0])), PrefixedAll(AllUpToNul(a[1..])), PrefixedAll(AllUpToNul(b)));
    }
  }

  lemma StrsSplit(ss: seq<bytes>, i: nat)
    requires i < |ss|
    ensures PrefixedAll(AllUpToNul(ss[..i + 1])) == PrefixedAll(AllUpToNul(ss[..i])) + Prefixed(UpToNul(ss[i]))
    ensures |PrefixedAll(AllUpToNul(ss))| >= |PrefixedAll(AllUpToNul(ss[..i]))| + |Prefixed(UpToNul(ss[i]))|
  {
    hide Prefixed;
    PrefixedAllAppend(ss[..i], [ss[i]]);
    PrefixedAllAppend(ss[..i + 1], ss[i + 1..]);
    assert ss[..i] + [ss[i]] == ss[..i + 1];
    assert ss[..i + 1] + ss[i + 1..] == ss;
    assert PrefixedAll(AllUpToNul([ss[i]])) == Prefixed(UpToNul(ss[i]));
  }

  /**
   * Writes `v` into the `bufLen` bytes of `buf` that start at `pos`: an exact fit or nothing reported, and not a byte
   * behind what was written is touched.
   */
  method InnerToBuffer(ct: Type, v: Val, buf: array<byte>, pos: nat, bufLen: nat) returns (st: Status, written: nat)
    requires pos + bufLen <= buf.Length && Shaped(ct, v) && Readable(v)
    modifies buf
    ensures st == if |Enc(v)| <= bufLen then SUCCESS else BUFFER_TOO_SMALL
    ensures st == SUCCESS ==> written == |Enc(v)| && At(buf, pos, Enc(v))
    ensures forall i :: 0 <= i < pos || pos + (if st == SUCCESS then written else bufLen) <= i < buf.Length
              ==> buf[i] == old(buf[i])
    decreases v
  {
    hide U32;
    hide Enc;
    EncForm(ct, v);
    match v
    case VNum(raw) =>
      st, written := BlockToBuffer(raw, 1, |raw|, false, buf, pos, bufLen);
    case VStr(block) =>
      var n := StrSize(block);
      assert block[..n * 1] == UpToNul(block);
      st, written := BlockToBuffer(block, n, 1, true, buf, pos, bufLen);
    case VNumArr(block, len) =>
      st, written := BlockToBuffer(block, len, NumSize(ct.cell.tid), true, buf, pos, bufLen);
    case VStruct(entries) =>
      st, written := EntriesToBuffer(ct.fields, entries, buf, pos, bufLen);
    case VStrArr(strs) =>
      if bufLen < 4 {
        return BUFFER_TOO_SMALL, 0;
      }
      CopyInto(buf, pos, U32(|strs|));
      st, written := StrsToBuffer(strs, buf, pos + 4, bufLen - 4);
      written := written + 4;
    case VArr(entries) =>
      if bufLen < 4 {
        return BUFFER_TOO_SMALL, 0;
      }
      CopyInto(buf, pos, U32(|entries|));
      st, written := EntriesToBuffer(Repeat(ct.cell, |entries|), entries, buf, pos + 4, bufLen - 4);
      written := written + 4;
  }

  /** The encoding, case by case, as the encoder assembles it. */
  lemma EncForm(ct: Type, v: Val)
    requires Shaped(ct, v)
    ensures match v
            case VNum(raw) => [] + raw[..1 * |raw|] == Enc(v)
            case VStr(b) => U32(|UpToNul(b)|) + UpToNul(b) == Enc(v)
            case VNumArr(b, n) => |b| == n * NumSize(ct.cell.tid) && U32(n) + b[..|b|] == Enc(v)
            case VStrArr(ss) => U32(|ss|) + PrefixedAll(AllUpToNul(ss)) == Enc(v)
            case VArr(es) => U32(|es|) + EncAll(es) == Enc(v)
            case VStruct(es) => EncAll(es) == Enc(v)
  {
    hide U32;
    match v
    case VStrArr(ss) => AllUpToNulLaws(ss);
    case VArr(es) => CutAllShaped(Repeat(ct.cell, |es|), es);
    case VNum(raw) => assert raw[..1 * |raw|] == raw;
    case VNumArr(b, n) => assert b[..|b|] == b;
    case _ =>
  }

  /** The loop over struct fields, and over the cells of an array of composites. */
  method EntriesToBuffer(cts: seq<Type>, es: seq<Val>, buf: array<byte>, pos: nat, bufLen: nat)
    returns (st: Status, written: nat)
    requires pos + bufLen <= buf.Length && ShapedAll(cts, es) && ReadableAll(es)
    modifies buf
    ensures st == if |EncAll(es)| <= bufLen then SUCCESS else BUFFER_TOO_SMALL
    ensures st == SUCCESS ==> written == |EncAll(es)| && At(buf, pos, EncAll(es))
    ensures forall i :: 0 <= i < pos || pos + (if st == SUCCESS then written else bufLen) <= i < buf.Length
              ==> buf[i] == old(buf[i])
    decreases es
  {
    hide Enc;
    st, written := SUCCESS, 0;
    for i := 0 to |es|
      invariant st == SUCCESS && written <= bufLen
      invariant written == |EncAll(es[..i])| && At(buf, pos, EncAll(es[..i]))
      invariant forall j :: 0 <= j < pos || pos + written <= j < buf.Length ==> buf[j] == old(buf[j])
    {
      var w;
      EncAllSplit(es, i);
      EntryAt(cts, es, i);
      st, w := InnerToBuffer(cts[i], es[i], buf, pos + written, bufLen - written);
      if st != SUCCESS {
        return;
      }
      written := written + w;
    }
    assert es[..|es|] == es;
  }

  lemma {:induction false} EntryAt(ts: seq<Type>, es: seq<Val>, i: nat)
    requires ShapedAll(ts, es) && i < |es|
    ensures Shaped(ts[i], es[i])
    ensures ReadableAll(es) ==> Readable(es[i])
  {
    if i > 0 {
      EntryAt(ts[1..], es[1..], i - 1);
    }
  }

  method StrsToBuffer(strs: seq<bytes>, buf: array<byte>, pos: nat, bufLen: nat) returns (st: Status, written: nat)
    requires pos + bufLen <= buf.Length && forall s <- strs :: 0 in s
    modifies buf
    ensures st == if |PrefixedAll(AllUpToNul(strs))| <= bufLen then SUCCESS else BUFFER_TOO_SMALL
    ensures st == SUCCESS ==> written == |PrefixedAll(AllUpToNul(strs))| && At(buf, pos, PrefixedAll(AllUpToNul(strs)))
    ensures forall i :: 0 <= i < pos || pos + (if st == SUCCESS then written else bufLen) <= i < buf.Length
              ==> buf[i] == old(buf[i])
  {
    hide U32;
    hide UpToNul;
    st, written := SUCCESS, 0;
    for i := 0 to |strs|
      invariant st == SUCCESS && written <= bufLen
      invariant written == |PrefixedAll(AllUpToNul(strs[..i]))| && At(buf, pos, PrefixedAll(AllUpToNul(strs[..i])))
      invariant forall j :: 0 <= j < pos || pos + written <= j < buf.Length ==> buf[j] == old(buf[j])
    {
      var w;
      StrsSplit(strs, i);
      var n := StrSize(strs[i]);
      assert strs[i][..n * 1] == UpToNul(strs[i]);
      st, w := BlockToBuffer(strs[i], n, 1, true, buf, pos + written, bufLen - written);
      if st != SUCCESS {
        return;
      }
      written := written + w;
    }
    assert strs[..|strs|] == strs;
  }

  method ValueToBuffer(v: Value, buf: array<byte>, pos: nat, bufLen: nat) returns (st: Status, written: nat)
    requires pos + bufLen <= buf.Length && Valid(v)
    modifies buf
    ensures st == if |EncValue(v)| <= bufLen then SUCCESS else BUFFER_TOO_SMALL
    ensures st == SUCCESS ==> written == |EncValue(v)| && At(buf, pos, EncValue(v))
    ensures forall i :: 0 <= i < pos || pos + (if st == SUCCESS then written else bufLen) <= i < buf.Length
              ==> buf[i] == old(buf[i])
  {
    var typeWritten, valWritten;
    st, typeWritten := TypeToBuffer(v.ty, buf, pos, bufLen);
    if st != SUCCESS {
      return st, 0;
    }
    st, valWritten := InnerToBuffer(v.ty, v.val, buf, pos + typeWritten, bufLen - typeWritten);
    written := typeWritten + valWritten;
  }

  /** The bytes of an optional value; NULL has none. */
  function OptionalBytes(v: Option<Value>): bytes {
    if v.None? then [] else EncValue(v.value)
  }

  method ValueToBufferWithLength(v: Option<Value>, buf: array<byte>, pos: nat, bufLen: nat)
    returns (st: Status, written: nat)
    requires pos + bufLen <= buf.Length && (v.Some? ==> Valid(v.value))
    modifies buf
    ensures st == if |Prefixed(OptionalBytes(v))| <= bufLen then SUCCESS else BUFFER_TOO_SMALL
    ensures st == SUCCESS ==>
              written == |Prefixed(OptionalBytes(v))| && At(buf, pos, Prefixed(OptionalBytes(v)))
    ensures forall i :: 0 <= i < pos || pos + (if st == SUCCESS then written else bufLen) <= i < buf.Length
              ==> buf[i] == old(buf[i])
  {
    hide U32;
    if bufLen < 4 {
      return BUFFER_TOO_SMALL, 0;
    }
    var w := 0;
    if v.Some? {
      st, w := ValueToBuffer(v.value, buf, pos + 4, bufLen - 4);
      if st != SUCCESS {
        return st, 0;
      }
    }
    CopyInto(buf, pos, U32(w));
    return SUCCESS, 4 + w;
  }
}

/** What the codec promises its callers, for every value and every byte string. */
module SerialTheorems {
  import opened Bytes
  import opened SerialType
  import opened SerialValue
  import opened SerialLaws

  /** A value the encoder may be given: well-formed type, matching layout, NUL-terminated strings. */
  ghost predicate Valid(v: Value) {
    WellFormed(v.ty) && Shaped(v.ty, v.val) && Readable(v.val)
  }

  /** Every string block ends at its first NUL. */
  predicate Canonical(v: Val) {
    Cut(v) == v
  }

  predicate StringFree(t: Type) {
    match t
    case TNum(_) => true
    case TStr => false
    case TArr(c) => StringFree(c)
    case TStruct(fs) => forall f <- fs :: StringFree(f)
  }

  // ---------------------------------------------------------------- cutting strings at their NUL

  lemma {:induction false} UpToNulLaws(b: bytes)
    ensures |UpToNul(b)| <= |b| && UpToNul(b) == b[..|UpToNul(b)|]
    ensures |UpToNul(b)| == |b| ==> UpToNul(b) == b
    ensures UpToNul(UpToNul(b)) == UpToNul(b)
    ensures 0 in b ==> UpToNul(b) != [] && UpToNul(b)[|UpToNul(b)| - 1] == 0 && 0 !in UpToNul(b)[..|UpToNul(b)| - 1]
  {
    if b != [] && b[0] != 0 {
      UpToNulLaws(b[1..]);
      var c := UpToNul(b[1..]);
      assert UpToNul(b)[1..] == c;
      if 0 in b {
        assert 0 in b[1..];
        assert UpToNul(b)[..|c|] == [b[0]] + c[..|c| - 1];
      }
    }
  }

  lemma {:induction false} AllUpToNulLaws(ss: seq<bytes>)
    ensures |AllUpToNul(ss)| == |ss| && AllUpToNul(AllUpToNul(ss)) == AllUpToNul(ss)
    ensures forall i | 0 <= i < |ss| :: AllUpToNul(ss)[i] == UpToNul(ss[i])
    ensures |PrefixedAll(AllUpToNul(ss))| <= |PrefixedAll(ss)|
    ensures |PrefixedAll(AllUpToNul(ss))| == |PrefixedAll(ss)| ==> AllUpToNul(ss) == ss
  {
    hide U32;
    if ss != [] {
      UpToNulLaws(ss[0]);
      AllUpToNulLaws(ss[1..]);
      assert AllUpToNul(ss)[1..] == AllUpToNul(ss[1..]);
      assert [ss[0]] + ss[1..] == ss;
    }
  }

  lemma {:induction false} CutShaped(t: Type, v: Val)
    requires Shaped(t, v)
    ensures Shaped(t, Cut(v))
    decreases v
  {
    match v
    case VStr(b) => UpToNulLaws(b);
    case VStrArr(ss) =>
      AllUpToNulLaws(ss);
      forall c | c in AllUpToNul(ss)
        ensures |c| < U32_RANGE
      {
        var i :| 0 <= i < |ss| && AllUpToNul(ss)[i] == c;
        UpToNulLaws(ss[i]);
      }
    case VArr(es) => CutAllShaped(Repeat(t.cell, |es|), es);
    case VStruct(es) => CutAllShaped(t.fields, es);
    case _ =>
  }

  lemma {:induction false} CutAllShaped(ts: seq<Type>, es: seq<Val>)
    requires ShapedAll(ts, es)
    ensures ShapedAll(ts, CutAll(es)) && |CutAll(es)| == |es|
    decreases es
  {
    if es != [] {
      CutShaped(ts[0], es[0]);
      CutAllShaped(ts[1..], es[1..]);
      assert CutAll(es)[1..] == CutAll(es[1..]);
    }
  }

  /** Cutting twice is cutting once; it never lengthens the encoding, and keeps its length only if it cut nothing. */
  lemma {:induction false} CutLaws(v: Val)
    ensures Cut(Cut(v)) == Cut(v)
    ensures |Enc(v)| <= |Flat(v)|
    ensures |Enc(v)| == |Flat(v)| ==> Cut(v) == v
    decreases v
  {
    hide U32;
    match v
    case VStr(b) => UpToNulLaws(b);
    case VStrArr(ss) => AllUpToNulLaws(ss);
    case VArr(es) => CutAllLaws(es);
    case VStruct(es) => CutAllLaws(es);
    case _ =>
  }

  lemma {:induction false} CutAllLaws(es: seq<Val>)
    ensures CutAll(CutAll(es)) == CutAll(es)
    ensures |EncAll(es)| <= |FlatAll(es)|
    ensures |EncAll(es)| == |FlatAll(es)| ==> CutAll(es) == es
    decreases es
  {
    hide Flat;
    if es != [] {
      CutLaws(es[0]);
      CutAllLaws(es[1..]);
      assert CutAll(es)[1..] == CutAll(es[1..]);
      assert [es[0]] + es[1..] == es;
    }
  }

  // ---------------------------------------------------------------- the theorems

  /**
   * Decoding what the encoder wrote succeeds whatever follows it, uses exactly the encoding, and gives back the value
   * with each string block ending at its NUL.
   */
  lemma ValueRoundTrip(v: Value, rest: bytes)
    requires Valid(v)
    ensures DecValue(EncValue(v) + rest) == Parsed(Value(v.ty, Cut(v.val)), |EncValue(v)|)
    ensures Canonical(v.val) ==> DecValue(EncValue(v) + rest) == Parsed(v, |EncValue(v)|)
  {
    CutShaped(v.ty, v.val);
    Assoc(EncType(v.ty), Enc(v.val), rest);
    TypeRoundTrip(v.ty, Enc(v.val) + rest);
    FlatRoundTrip(v.ty, Cut(v.val), rest);
    assert (EncType(v.ty) + (Enc(v.val) + rest))[|EncType(v.ty)|..] == Enc(v.val) + rest;
  }

  /** The same for a value written with its blocks whole, such as one that was decoded. */
  lemma WholeRoundTrip(v: Value, rest: bytes)
    requires WellFormed(v.ty) && Shaped(v.ty, v.val)
    ensures DecValue(EncType(v.ty) + Flat(v.val) + rest) == Parsed(v, |EncType(v.ty)| + |Flat(v.val)|)
  {
    Assoc(EncType(v.ty), Flat(v.val), rest);
    TypeRoundTrip(v.ty, Flat(v.val) + rest);
    FlatRoundTrip(v.ty, v.val, rest);
    assert (EncType(v.ty) + (Flat(v.val) + rest))[|EncType(v.ty)|..] == Flat(v.val) + rest;
  }

  /** A successful decode gives a well-formed value whose whole-block form is exactly the bytes used. */
  lemma DecodedIsWhatWasThere(s: bytes)
    requires DecValue(s).Parsed?
    ensures var r := DecValue(s);
            WellFormed(r.value.ty) && Shaped(r.value.ty, r.value.val) && r.used >= 1
            && EncType(r.value.ty) + Flat(r.value.val) == s[..r.used]
  {
    var t := DecType(s);
    var v := Dec(t.value, s[t.used..]);
    DecTypeSound(s);
    DecSound(t.value, s[t.used..]);
    assert s[..t.used] + s[t.used..][..v.used] == s[..t.used + v.used];
  }

  /** Only the bytes used matter: the client may decode with stale bytes behind the message. */
  lemma SuffixIrrelevant(s: bytes, s': bytes)
    requires DecValue(s).Parsed? && |s'| >= DecValue(s).used && s'[..DecValue(s).used] == s[..DecValue(s).used]
    ensures DecValue(s') == DecValue(s)
  {
    var r := DecValue(s);
    DecodedIsWhatWasThere(s);
    WholeRoundTrip(r.value, s'[r.used..]);
    assert s' == s'[..r.used] + s'[r.used..];
  }

  /** Any message that decodes, cut short anywhere, is an unexpected end: never a success, never another status. */
  lemma TruncationDetected(s: bytes, k: nat)
    requires DecValue(s).Parsed? && k < DecValue(s).used
    ensures DecValue(s[..k]) == Failed(UNEXPECTED_END)
  {
    hide DecType;
    hide Dec;
    var t := DecType(s);
    var v := Dec(t.value, s[t.used..]);
    DecTypeSound(s);
    DecSound(t.value, s[t.used..]);
    if k < t.used {
      TypeTruncated(t.value, k);
      assert s[..t.used][..k] == s[..k];
    } else {
      var rest := s[t.used..k];
      assert s[..k] == EncType(t.value) + rest;
      TypeRoundTrip(t.value, rest);
      FlatTruncated(t.value, v.value, k - t.used);
      assert s[t.used..][..v.used][..k - t.used] == rest;
      assert s[..k][t.used..] == rest;
    }
  }

  /** Truncating the encoding of a valid value is always detected. */
  lemma EncodingTruncated(v: Value, k: nat)
    requires Valid(v) && k < |EncValue(v)|
    ensures DecValue(EncValue(v)[..k]) == Failed(UNEXPECTED_END)
  {
    ValueRoundTrip(v, []);
    assert EncValue(v) + [] == EncValue(v);
    TruncationDetected(EncValue(v), k);
  }

  /**
   * Writing a decoded value out again gives the very bytes it was read from exactly when every string in it ended at
   * its first NUL, which the decoder does not check.
   */
  lemma ReencodeExact(s: bytes)
    requires DecValue(s).Parsed? && Readable(DecValue(s).value.val)
    ensures EncValue(DecValue(s).value) == s[..DecValue(s).used] <==> Canonical(DecValue(s).value.val)
  {
    var r := DecValue(s);
    DecodedIsWhatWasThere(s);
    CutLaws(r.value.val);
    if EncValue(r.value) == s[..r.used] {
      assert |EncType(r.value.ty)| + |Enc(r.value.val)| == |EncType(r.value.ty)| + |Flat(r.value.val)|;
    }
  }

  /** The other case happens: eight bytes of a string with a byte behind its NUL come back as seven. */
  lemma ReencodeCanDiffer()
    ensures var s := [STRING_TID, 3, 0, 0, 0, 65, 0, 66];
            DecValue(s).Parsed? && Readable(DecValue(s).value.val) && DecValue(s).used == 8
            && EncValue(DecValue(s).value) == [STRING_TID, 2, 0, 0, 0, 65, 0]
  {
    var s := [STRING_TID, 3, 0, 0, 0, 65, 0, 66];
    var b := s[1..];
    assert FromU32(b) == 3;
    assert b[4..7] == [65, 0, 66];
    assert DecValue(s) == Parsed(Value(TStr, VStr([65, 0, 66])), 8);
    assert UpToNul([65, 0, 66]) == [65] + UpToNul([0, 66]) == [65, 0];
    assert U32(2) == [2, 0, 0, 0];
  }

  lemma {:induction false} StringFreeCanonical(t: Type, v: Val)
    requires StringFree(t) && Shaped(t, v)
    ensures Canonical(v) && Readable(v)
    decreases v
  {
    match v
    case VArr(es) => StringFreeAllCanonical(Repeat(t.cell, |es|), es);
    case VStruct(es) => StringFreeAllCanonical(t.fields, es);
    case _ =>
  }

  lemma {:induction false} StringFreeAllCanonical(ts: seq<Type>, es: seq<Val>)
    requires ShapedAll(ts, es) && forall t <- ts :: StringFree(t)
    ensures CutAll(es) == es && ReadableAll(es)
    decreases es
  {
    if es != [] {
      StringFreeCanonical(ts[0], es[0]);
      StringFreeAllCanonical(ts[1..], es[1..]);
      assert [es[0]] + es[1..] == es;
    }
  }

  /** Without strings the encoding is canonical: re-encoding reproduces exactly the bytes consumed. */
  lemma ReencodeStringFree(s: bytes)
    requires DecValue(s).Parsed? && StringFree(DecValue(s).value.ty)
    ensures EncValue(DecValue(s).value) == s[..DecValue(s).used]
  {
    DecodedIsWhatWasThere(s);
    StringFreeCanonical(DecValue(s).value.ty, DecValue(s).value.val);
    ReencodeExact(s);
  }

  /** What `chrpc_value_equals` decides: same type, and same contents with strings compared up to their NUL. */
  predicate SameValue(a: Value, b: Value) {
    a.ty == b.ty && Cut(a.val) == Cut(b.val)
  }

  /** No encoding is the beginning of the encoding of a different value; so equal bytes mean equal values. */
  lemma EncodingPrefixFree(a: Value, b: Value)
    requires Valid(a) && Valid(b)
    ensures EncValue(a) <= EncValue(b) <==> SameValue(a, b)
    ensures EncValue(a) == EncValue(b) <==> SameValue(a, b)
  {
    ValueRoundTrip(a, []);
    ValueRoundTrip(b, []);
    assert EncValue(a) + [] == EncValue(a) && EncValue(b) + [] == EncValue(b);
    if EncValue(a) <= EncValue(b) {
      SuffixIrrelevant(EncValue(a), EncValue(b));
    }
  }

  // ---------------------------------------------------------------- sizes

  function Max(a: nat, b: nat): nat {
    if a < b then b else a
  }

  /** The longest array or string block anywhere inside `v`. */
  function LongestArray(v: Val): nat {
    match v
    case VNum(_) => 0
    case VStr(b) => |b|
    case VNumArr(_, n) => n
    case VStrArr(ss) => |ss|
    case VArr(es) => Max(|es|, LongestInAll(es))
    case VStruct(es) => LongestInAll(es)
  }

  function LongestInAll(es: seq<Val>): nat {
    if es == [] then 0 else Max(LongestArray(es[0]), LongestInAll(es[1..]))
  }

  lemma {:induction false} PrefixedAllLength(ss: seq<bytes>)
    ensures |PrefixedAll(ss)| >= |ss|
  {
    hide U32;
    if ss != [] {
      PrefixedAllLength(ss[1..]);
    }
  }

  /** Every value takes at least one byte, and no array is longer than the bytes it takes. */
  lemma {:induction false} SizeBounds(t: Type, v: Val)
    requires WellFormed(t) && Shaped(t, v)
    ensures 1 <= |Flat(v)| && LongestArray(v) <= |Flat(v)|
    decreases v
  {
    hide U32;
    match v
    case VStrArr(ss) => PrefixedAllLength(ss);
    case VArr(es) => SizeBoundsAll(Repeat(t.cell, |es|), es);
    case VStruct(es) => SizeBoundsAll(t.fields, es);
    case _ =>
  }

  lemma {:induction false} SizeBoundsAll(ts: seq<Type>, es: seq<Val>)
    requires ShapedAll(ts, es) && forall t <- ts :: WellFormed(t)
    ensures |es| <= |FlatAll(es)| && LongestInAll(es) <= |FlatAll(es)|
    decreases es
  {
    if es != [] {
      SizeBounds(ts[0], es[0]);
      SizeBoundsAll(ts[1..], es[1..]);
    }
  }

  /** Decoding is total; what it accepts is bounded by what it read, what it rejects has one of four statuses. */
  lemma DecoderTotal(s: bytes)
    ensures match DecValue(s)
            case Parsed(v, n) => 1 <= n <= |s| && WellFormed(v.ty) && Shaped(v.ty, v.val) && LongestArray(v.val) < n
            case Failed(st) => st in {SYNTAX_ERROR, UNEXPECTED_END, EMPTY_STRUCT_TYPE, STRUCT_TYPE_TOO_LARGE}
  {
    if DecValue(s).Parsed? {
      var v := DecValue(s).value;
      DecodedIsWhatWasThere(s);
      SizeBounds(v.ty, v.val);
    } else if DecType(s).Failed? {
      TypeFailures(s);
    }
  }

  lemma {:induction false} TypeFailures(s: bytes)
    requires DecType(s).Failed?
    ensures DecType(s).status in {SYNTAX_ERROR, UNEXPECTED_END, EMPTY_STRUCT_TYPE, STRUCT_TYPE_TOO_LARGE}
    decreases |s|, 0
  {
    if |s| >= 1 && s[0] == ARRAY_TID {
      TypeFailures(s[1..]);
    } else if |s| >= 2 && s[0] == STRUCT_TID && 1 <= s[1] <= MAX_STRUCT_FIELDS {
      TypesFailures(s[1], s[2..]);
    }
  }

  lemma {:induction false} TypesFailures(count: nat, s: bytes)
    requires DecTypes(count, s).Failed?
    ensures DecTypes(count, s).status in {SYNTAX_ERROR, UNEXPECTED_END, EMPTY_STRUCT_TYPE, STRUCT_TYPE_TOO_LARGE}
    decreases |s|, count + 1
  {
    if DecType(s).Failed? {
      TypeFailures(s);
    } else {
      TypesFailures(count - 1, s[DecType(s).used..]);
    }
  }
}

/**
 * The serialisation grammar of chrpc/include/chrpc/serial_value.h, over values that know nothing of memory blocks, and
 * the proof that the "blockable" fast path of the encoder writes what the recursive grammar says.
 */
module SerialGrammar {
  import opened Bytes
  import opened SerialType
  import opened SerialValue
  import opened SerialTheorems

  datatype Meaning =
    | Number(raw: bytes)
    | Text(chars: bytes)
    | List(cells: seq<Meaning>)
    | Record(fields: seq<Meaning>)

  /** Strings count their terminating NUL, as the code does; the header's comment says `strlen`. */
  function Serial(m: Meaning): bytes {
    match m
    case Number(raw) => raw
    case Text(cs) => U32(|cs| + 1) + (cs + [0])
    case List(ms) => U32(|ms|) + SerialAll(ms)
    case Record(ms) => SerialAll(ms)
  }

  function SerialAll(ms: seq<Meaning>): bytes {
    if ms == [] then [] else Serial(ms[0]) + SerialAll(ms[1..])
  }

  function TextOf(b: bytes): Meaning {
    var c := UpToNul(b);
    Text(if c == [] then [] else c[..|c| - 1])
  }

  function TextsOf(ss: seq<bytes>): seq<Meaning> {
    if ss == [] then [] else [TextOf(ss[0])] + TextsOf(ss[1..])
  }

  /** The cells of a dense block. */
  function Chop(b: bytes, size: nat): seq<Meaning>
    requires size > 0
  {
    if |b| < size then [] else [Number(b[..size])] + Chop(b[size..], size)
  }

  ghost function MeaningOf(t: Type, v: Val): Meaning
    requires Shaped(t, v)
    decreases v
  {
    match v
    case VNum(raw) => Number(raw)
    case VStr(b) => TextOf(b)
    case VNumArr(b, _) => List(Chop(b, NumSize(t.cell.tid)))
    case VStrArr(ss) => List(TextsOf(ss))
    case VArr(es) => List(MeaningOfAll(Repeat(t.cell, |es|), es))
    case VStruct(es) => Record(MeaningOfAll(t.fields, es))
  }

  ghost function MeaningOfAll(ts: seq<Type>, es: seq<Val>): seq<Meaning>
    requires ShapedAll(ts, es)
    decreases es
  {
    if es == [] then [] else [MeaningOf(ts[0], es[0])] + MeaningOfAll(ts[1..], es[1..])
  }

  // ---------------------------------------------------------------- the fast path agrees with the grammar

  lemma {:induction false} ChopSerial(b: bytes, size: nat, n: nat)
    requires size > 0 && |b| == size * n
    ensures |Chop(b, size)| == n && SerialAll(Chop(b, size)) == b
  {
    if n > 0 {
      assert size * n == size + size * (n - 1);
      ChopSerial(b[size..], size, n - 1);
      assert Chop(b, size)[1..] == Chop(b[size..], size);
      assert b == b[..size] + b[size..];
    } else {
      assert size * n == 0;
    }
  }

  lemma TextSerial(b: bytes)
    requires 0 in b
    ensures Serial(TextOf(b)) == Prefixed(UpToNul(b))
  {
    hide U32;
    UpToNulLaws(b);
    hide UpToNul;
    var c := UpToNul(b);
    assert c[..|c| - 1] + [0] == c;
  }

  lemma {:induction false} TextsSerial(ss: seq<bytes>)
    requires forall s <- ss :: 0 in s
    ensures |TextsOf(ss)| == |ss| && SerialAll(TextsOf(ss)) == PrefixedAll(AllUpToNul(ss))
  {
    if ss != [] {
      TextSerial(ss[0]);
      TextsSerial(ss[1..]);
      assert TextsOf(ss)[1..] == TextsOf(ss[1..]);
      assert AllUpToNul(ss)[1..] == AllUpToNul(ss[1..]);
    }
  }

  /** One `memcpy` of a dense block writes the same bytes as the cell-by-cell grammar. */
  lemma {:induction false} GrammarAgrees(t: Type, v: Val)
    requires Shaped(t, v) && Readable(v)
    ensures Enc(v) == Serial(MeaningOf(t, v))
    decreases v
  {
    hide U32;
    match v
    case VNum(_) =>
    case VStr(b) => TextSerial(b);
    case VNumArr(b, n) => ChopSerial(b, NumSize(t.cell.tid), n);
    case VStrArr(ss) =>
      TextsSerial(ss);
      AllUpToNulLaws(ss);
    case VArr(es) =>
      GrammarAgreesAll(Repeat(t.cell, |es|), es);
      CutAllShaped(Repeat(t.cell, |es|), es);
    case VStruct(es) => GrammarAgreesAll(t.fields, es);
  }

  lemma {:induction false} GrammarAgreesAll(ts: seq<Type>, es: seq<Val>)
    requires ShapedAll(ts, es) && ReadableAll(es)
    ensures EncAll(es) == SerialAll(MeaningOfAll(ts, es)) && |MeaningOfAll(ts, es)| == |es|
    decreases es
  {
    if es != [] {
      GrammarAgrees(ts[0], es[0]);
      GrammarAgreesAll(ts[1..], es[1..]);
      assert MeaningOfAll(ts, es)[1..] == MeaningOfAll(ts[1..], es[1..]);
      assert CutAll(es)[1..] == CutAll(es[1..]);
    }
  }

  // ---------------------------------------------------------------- equality is equality of meaning

  lemma {:induction false} TextsOfCut(ss: seq<bytes>)
    ensures TextsOf(AllUpToNul(ss)) == TextsOf(ss)
  {
    if ss != [] {
      UpToNulLaws(ss[0]);
      TextsOfCut(ss[1..]);
      assert AllUpToNul(ss)[1..] == AllUpToNul(ss[1..]);
    }
  }

  lemma {:induction false} MeaningOfCut(t: Type, v: Val)
    requires Shaped(t, v)
    ensures Shaped(t, Cut(v)) && MeaningOf(t, Cut(v)) == MeaningOf(t, v)
    decreases v
  {
    CutShaped(t, v);
    match v
    case VStr(b) => UpToNulLaws(b);
    case VStrArr(ss) => TextsOfCut(ss);
    case VArr(es) => MeaningOfCutAll(Repeat(t.cell, |es|), es);
    case VStruct(es) => MeaningOfCutAll(t.fields, es);
    case _ =>
  }

  lemma {:induction false} MeaningOfCutAll(ts: seq<Type>, es: seq<Val>)
    requires ShapedAll(ts, es)
    ensures ShapedAll(ts, CutAll(es)) && |CutAll(es)| == |es| && MeaningOfAll(ts, CutAll(es)) == MeaningOfAll(ts, es)
    decreases es
  {
    CutAllShaped(ts, es);
    if es != [] {
      MeaningOfCut(ts[0], es[0]);
      MeaningOfCutAll(ts[1..], es[1..]);
      assert CutAll(es)[1..] == CutAll(es[1..]);
    }
  }

  /** Two values of one type are the same, for `chrpc_value_equals` and on the wire, exactly when they mean the same. */
  lemma SameIffSameMeaning(t: Type, a: Val, b: Val)
    requires Valid(Value(t, a)) && Valid(Value(t, b))
    ensures SameValue(Value(t, a), Value(t, b)) <==> MeaningOf(t, a) == MeaningOf(t, b)
  {
    MeaningOfCut(t, a);
    MeaningOfCut(t, b);
    if MeaningOf(t, a) == MeaningOf(t, b) {
      GrammarAgrees(t, a);
      GrammarAgrees(t, b);
      EncodingPrefixFree(Value(t, a), Value(t, b));
    }
  }
}

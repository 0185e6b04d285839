/**
 * Which failing decode gets which status (chrpc/src/serial_type.c:203-281, chrpc/src/serial_value.c:907-1217): an
 * unexpected end is what could still become a value, and the other three are told by the first byte that no value can
 * go on with.
 */
module SerialStatuses {
  import opened Bytes
  import opened SerialType
  import opened SerialValue
  import opened SerialLaws
  import opened SerialTheorems

  // ---------------------------------------------------------------- types

  /** Some longer input, or this one, decodes. */
  ghost predicate Viable(s: bytes) {
    exists ext: bytes :: DecType(s + ext).Parsed?
  }

  /** More bytes change nothing about a type that decodes. */
  lemma TypeExtends(s: bytes, ext: bytes)
    requires DecType(s).Parsed?
    ensures DecType(s + ext) == DecType(s)
  {
    DecTypeSound(s);
    var t, n := DecType(s).value, DecType(s).used;
    TypeRoundTrip(t, s[n..] + ext);
    assert s + ext == EncType(t) + (s[n..] + ext);
  }

  /** Nor about one that has failed for another reason than its end. */
  lemma {:induction false} TypeStaysBad(s: bytes, ext: bytes)
    requires DecType(s).Failed? && DecType(s).status != UNEXPECTED_END
    ensures DecType(s + ext) == DecType(s)
    decreases |s|, 0
  {
    var s' := s + ext;
    assert s' != [] && s'[0] == s[0] && s'[1..] == s[1..] + ext;
    if s[0] == ARRAY_TID {
      TypeStaysBad(s[1..], ext);
    } else if s[0] == STRUCT_TID {
      assert s'[1] == s[1] && s'[2..] == s[2..] + ext;
      if 1 <= s[1] <= MAX_STRUCT_FIELDS {
        TypesStayBad(s[1], s[2..], ext);
      }
    }
  }

  lemma {:induction false} TypesStayBad(count: nat, s: bytes, ext: bytes)
    requires DecTypes(count, s).Failed? && DecTypes(count, s).status != UNEXPECTED_END
    ensures DecTypes(count, s + ext) == DecTypes(count, s)
    decreases |s|, count + 1
  {
    hide DecType;
    if DecType(s).Failed? {
      TypeStaysBad(s, ext);
    } else {
      var n := DecType(s).used;
      TypeExtends(s, ext);
      assert (s + ext)[n..] == s[n..] + ext;
      TypesStayBad(count - 1, s[n..], ext);
    }
  }

  /** A type that has ended too early can be completed, to its last byte. */
  lemma {:induction false} TypeCompletes(s: bytes) returns (ext: bytes)
    requires DecType(s) == Failed(UNEXPECTED_END)
    ensures DecType(s + ext).Parsed? && DecType(s + ext).used == |s + ext|
    decreases |s|, 0
  {
    if s == [] {
      ext := [0];
      assert s + ext == [0];
    } else if s[0] == ARRAY_TID {
      ext := TypeCompletes(s[1..]);
      assert (s + ext)[1..] == s[1..] + ext;
    } else if |s| == 1 {
      ext := [1, 0];
      var s' := s + ext;
      BytesAsTypes(1);
      assert s'[0] == STRUCT_TID && s'[1] == 1 && s'[2..] == [0] == seq(1, _ => 0);
    } else {
      ext := TypesComplete(s[1], s[2..]);
      assert (s + ext)[1] == s[1] && (s + ext)[2..] == s[2..] + ext;
    }
  }

  lemma {:induction false} BytesAsTypes(n: nat)
    ensures var zeros: bytes := seq(n, _ => 0);
            DecTypes(n, zeros).Parsed? && DecTypes(n, zeros).used == n
  {
    if n > 0 {
      BytesAsTypes(n - 1);
      var zeros: bytes, fewer: bytes := seq(n, _ => 0), seq(n - 1, _ => 0);
      assert zeros[1..] == fewer;
      assert DecType(zeros) == Parsed(TNum(0), 1);
    }
  }

  lemma {:induction false} TypesComplete(count: nat, s: bytes) returns (ext: bytes)
    requires DecTypes(count, s) == Failed(UNEXPECTED_END)
    ensures DecTypes(count, s + ext).Parsed? && DecTypes(count, s + ext).used == |s + ext|
    decreases |s|, count + 1
  {
    hide DecType;
    if DecType(s).Failed? {
      var first := TypeCompletes(s);
      var s', zeros: bytes := s + first, seq(count - 1, _ => 0);
      TypeExtends(s', zeros);
      BytesAsTypes(count - 1);
      assert (s' + zeros)[|s'|..] == zeros;
      ext := first + zeros;
      assert s + ext == s' + zeros;
    } else {
      var n := DecType(s).used;
      ext := TypesComplete(count - 1, s[n..]);
      TypeExtends(s, ext);
      assert (s + ext)[n..] == s[n..] + ext;
    }
  }

  /** A failure is an unexpected end exactly when some longer input decodes. */
  lemma EndExactly(s: bytes)
    ensures Viable(s) <==> DecType(s).Parsed? || DecType(s) == Failed(UNEXPECTED_END)
  {
    if DecType(s).Parsed? {
      TypeExtends(s, []);
    } else if DecType(s).status == UNEXPECTED_END {
      var ext := TypeCompletes(s);
    } else if ext: bytes :| DecType(s + ext).Parsed? {
      TypeStaysBad(s, ext);
    }
  }

  // ---------------------------------------------------------------- the next byte

  /** Is a type's identifier next, rather than the number of a struct's fields? */
  predicate IdentifierNext(p: bytes)
    requires DecType(p) == Failed(UNEXPECTED_END)
    decreases |p|, 0
  {
    if p == [] then true
    else if p[0] == ARRAY_TID then IdentifierNext(p[1..])
    else if |p| == 1 then false
    else IdentifierNextOf(p[1], p[2..])
  }

  predicate IdentifierNextOf(count: nat, p: bytes)
    requires DecTypes(count, p) == Failed(UNEXPECTED_END)
    decreases |p|, count + 1
  {
    match DecType(p)
    case Failed(_) => IdentifierNext(p)
    case Parsed(_, n) => IdentifierNextOf(count - 1, p[n..])
  }

  /** What a byte in one of the two places comes to. */
  ghost predicate GoesOn<T>(r: Parsed<T>, identifier: bool, b: byte) {
    if identifier then
      if b <= 11 then r.Parsed? || r.status == UNEXPECTED_END else r == Failed(SYNTAX_ERROR)
    else if b == 0 then r == Failed(EMPTY_STRUCT_TYPE)
    else if b <= 64 then r.Parsed? || r.status == UNEXPECTED_END
    else r == Failed(STRUCT_TYPE_TOO_LARGE)
  }

  lemma {:induction false} OneMore(p: bytes, b: byte)
    requires DecType(p) == Failed(UNEXPECTED_END)
    ensures GoesOn(DecType(p + [b]), IdentifierNext(p), b)
    decreases |p|, 0
  {
    var s := p + [b];
    if p == [] {
      assert s == [b] && s[1..] == [];
      assert DecType([]) == Failed(UNEXPECTED_END);
    } else if p[0] == ARRAY_TID {
      assert s[1..] == p[1..] + [b];
      OneMore(p[1..], b);
    } else if |p| == 1 {
      assert s[1] == b && s[2..] == [];
      assert DecTypes(b, []) == if b == 0 then Parsed([], 0) else Failed(UNEXPECTED_END);
    } else {
      assert s[1] == p[1] && s[2..] == p[2..] + [b];
      OneMoreOf(p[1], p[2..], b);
    }
  }

  lemma {:induction false} OneMoreOf(count: nat, p: bytes, b: byte)
    requires DecTypes(count, p) == Failed(UNEXPECTED_END)
    ensures GoesOn(DecTypes(count, p + [b]), IdentifierNextOf(count, p), b)
    decreases |p|, count + 1
  {
    hide DecType;
    hide IdentifierNext;
    var s := p + [b];
    if DecType(p).Failed? {
      OneMore(p, b);
      if DecType(s).Parsed? {
        AllUsed(p, b);
        assert s[|s|..] == [];
        NothingLeft(count - 1);
      }
    } else {
      var n := DecType(p).used;
      TypeExtends(p, [b]);
      assert s[n..] == p[n..] + [b];
      OneMoreOf(count - 1, p[n..], b);
    }
  }

  lemma NothingLeft(count: nat)
    ensures DecTypes(count, []) == if count == 0 then Parsed([], 0) else Failed(UNEXPECTED_END)
  {
  }

  lemma AllUsed(p: bytes, b: byte)
    requires DecType(p).Failed? && DecType(p + [b]).Parsed?
    ensures DecType(p + [b]).used == |p| + 1
  {
    var s, n := p + [b], DecType(p + [b]).used;
    assert n <= |p| ==> p == s[..n] + p[n..];
    DecTypeSound(s);
    if n <= |p| {
      TypeRoundTrip(DecType(s).value, p[n..]);
    }
  }

  /**
   * Behind anything that can still become a type one of two sets of bytes can follow: the twelve identifiers, or a
   * number of fields from 1 to 64. Which of the two is told by whether a zero can.
   */
  lemma NextByte(p: bytes, b: byte)
    requires Viable(p) && DecType(p).Failed?
    ensures Viable(p + [b]) <==> if Viable(p + [0]) then b <= 11 else 1 <= b <= 64
  {
    EndExactly(p);
    EndExactly(p + [b]);
    EndExactly(p + [0]);
    OneMore(p, b);
    OneMore(p, 0);
  }

  /**
   * Any other failure is told by the first byte that nothing can go on with: a struct of no fields by a zero, too large
   * a struct where a zero could not stand either, and a syntax error where it could.
   */
  lemma StatusExactly(s: bytes) returns (k: nat)
    requires DecType(s).Failed? && !Viable(s)
    ensures k < |s| && Viable(s[..k]) && !Viable(s[..k + 1])
    ensures DecType(s).status == if s[k] == 0 then EMPTY_STRUCT_TYPE
                                 else if Viable(s[..k] + [0]) then SYNTAX_ERROR
                                 else STRUCT_TYPE_TOO_LARGE
  {
    EndExactly(s);
    assert s[..0] == [];
    k := FirstBad(s, 0);
    var p := s[..k];
    EndExactly(p);
    EndExactly(s[..k + 1]);
    EndExactly(p + [0]);
    assert s[..k + 1] == p + [s[k]];
    OneMore(p, s[k]);
    OneMore(p, 0);
    TypeStaysBad(s[..k + 1], s[k + 1..]);
    assert s[..k + 1] + s[k + 1..] == s;
  }

  lemma {:induction false} FirstBad(s: bytes, i: nat) returns (k: nat)
    requires DecType(s).Failed? && DecType(s).status != UNEXPECTED_END
    requires i <= |s| && DecType(s[..i]) == Failed(UNEXPECTED_END)
    ensures k < |s| && DecType(s[..k]) == Failed(UNEXPECTED_END)
    ensures DecType(s[..k + 1]).Failed? && DecType(s[..k + 1]).status != UNEXPECTED_END
    decreases |s| - i
  {
    assert s[..|s|] == s && s[..i + 1] + s[i + 1..] == s;
    k := i;
    if DecType(s[..i + 1]).Parsed? {
      TypeExtends(s[..i + 1], s[i + 1..]);
    } else if DecType(s[..i + 1]).status == UNEXPECTED_END {
      k := FirstBad(s, i + 1);
    }
  }

  // ---------------------------------------------------------------- values

  /** More bytes change nothing about a value that decodes. */
  lemma ValueExtends(t: Type, s: bytes, ext: bytes)
    requires Dec(t, s).Parsed?
    ensures Dec(t, s + ext) == Dec(t, s)
  {
    hide Dec;
    DecSound(t, s);
    var v, n := Dec(t, s).value, Dec(t, s).used;
    FlatRoundTrip(t, v, s[n..] + ext);
    assert s + ext == Flat(v) + (s[n..] + ext);
  }

  /** How deep a type is nested. */
  function Depth(t: Type): nat {
    match t
    case TArr(c) => 1 + Depth(c)
    case TStruct(fs) => 1 + DepthAll(fs)
    case _ => 0
  }

  function DepthAll(ts: seq<Type>): (d: nat)
    ensures forall t <- ts :: Depth(t) <= d
  {
    if ts == [] then 0
    else
      var d := DepthAll(ts[1..]);
      assert forall t <- ts :: t == ts[0] || t in ts[1..];
      if Depth(ts[0]) > d then Depth(ts[0]) else d
  }

  function Zeros(n: nat): (s: bytes)
    ensures |s| == n
  {
    seq(n, _ => 0)
  }

  /** A value that has ended too early can be completed, whatever lengths it has begun with. */
  lemma {:induction false} ValueCompletes(t: Type, s: bytes) returns (ext: bytes)
    ensures Dec(t, s + ext).Parsed?
    decreases Depth(t), 2, 0
  {
    match t {
      case TNum(tid) =>
        ext := Zeros(NumSize(tid));
      case TStr =>
        ext := BlockCompletes(s, 1);
      case TStruct(fs) =>
        ext := AllComplete(fs, s, Depth(t));
      case TArr(c) =>
        var head := s + Zeros(4);
        ext := ArrayCompletes(c, head);
        assert s + (Zeros(4) + ext) == head + ext;
        ext := Zeros(4) + ext;
    }
  }

  lemma BlockCompletes(s: bytes, cellSize: nat) returns (ext: bytes)
    ensures DecBlock(s + ext, cellSize).Parsed?
  {
    hide FromU32;
    var head := s + Zeros(4);
    var body := Zeros(cellSize * FromU32(head));
    ext := Zeros(4) + body;
    assert s + ext == head + body;
    SameLength(head, body);
  }

  lemma SameLength(s: bytes, ext: bytes)
    requires |s| >= 4
    ensures FromU32(s + ext) == FromU32(s) && (s + ext)[4..] == s[4..] + ext
  {
  }

  lemma {:induction false} ArrayCompletes(c: Type, s: bytes) returns (ext: bytes)
    requires |s| >= 4
    ensures Dec(TArr(c), s + ext).Parsed?
    decreases Depth(c) + 1, 1, 0
  {
    hide FromU32;
    var n := FromU32(s);
    if c.TNum? {
      ext := Zeros(NumSize(c.tid) * n);
      SameLength(s, ext);
    } else if c.TStr? {
      ext := BlocksComplete(n, s[4..]);
      SameLength(s, ext);
    } else {
      ext := AllComplete(Repeat(c, n), s[4..], Depth(c) + 1);
      SameLength(s, ext);
    }
  }

  lemma {:induction false} BlocksComplete(count: nat, s: bytes) returns (ext: bytes)
    ensures DecBlocks(count, s + ext).Parsed?
    decreases count
  {
    hide DecBlock;
    ext := [];
    if count > 0 {
      var first := BlockCompletes(s, 1);
      var s' := s + first;
      var n := DecBlock(s', 1).used;
      ext := BlocksComplete(count - 1, s'[n..]);
      BlockExtends(s', ext);
      assert (s' + ext)[n..] == s'[n..] + ext && s + (first + ext) == s' + ext;
      ext := first + ext;
    }
  }

  lemma BlockExtends(s: bytes, ext: bytes)
    requires DecBlock(s, 1).Parsed?
    ensures DecBlock(s + ext, 1) == DecBlock(s, 1)
  {
    hide FromU32;
    SameLength(s, ext);
    assert (s + ext)[4..DecBlock(s, 1).used] == s[4..DecBlock(s, 1).used];
  }

  lemma {:induction false} AllComplete(ts: seq<Type>, s: bytes, depth: nat) returns (ext: bytes)
    requires forall t <- ts :: Depth(t) < depth
    ensures DecAll(ts, s + ext).Parsed?
    decreases depth, 0, |ts|
  {
    hide Dec;
    ext := [];
    if ts != [] {
      assert ts[0] in ts;
      var first := ValueCompletes(ts[0], s);
      var s' := s + first;
      var n := Dec(ts[0], s').used;
      ext := AllComplete(ts[1..], s'[n..], depth);
      ValueExtends(ts[0], s', ext);
      assert (s' + ext)[n..] == s'[n..] + ext && s + (first + ext) == s' + ext;
      ext := first + ext;
    }
  }

  /** The same for values with their types: a failure is an unexpected end exactly when some longer input decodes. */
  lemma ValueEndExactly(s: bytes)
    requires DecValue(s).Failed?
    ensures DecValue(s).status == UNEXPECTED_END <==> exists ext: bytes :: DecValue(s + ext).Parsed?
  {
    hide Dec;
    hide DecType;
    if DecValue(s).status != UNEXPECTED_END {
      forall ext: bytes
        ensures DecValue(s + ext).Failed?
      {
        TypeStaysBad(s, ext);
      }
    } else {
      var typed, all: bytes := [], s;
      if DecType(s).Failed? {
        typed := TypeCompletes(s);
        all := s + typed;
      } else {
        assert s + [] == s;
      }
      var t, n := DecType(all).value, DecType(all).used;
      var ext := ValueCompletes(t, all[n..]);
      TypeExtends(all, ext);
      assert (all + ext)[n..] == all[n..] + ext && s + (typed + ext) == all + ext;
      assert DecValue(s + (typed + ext)).Parsed?;
    }
  }
}

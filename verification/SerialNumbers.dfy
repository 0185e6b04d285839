/**
 * The numbers behind the raw bytes of the codec: what range each integer type has, and that its values travel as
 * little-endian two's complement of exactly the width that the range needs (chrpc/src/serial_value.c:31-48,
 * chrpc/include/chrpc/serial_type.h).
 */
module SerialNumbers {
  import opened Bytes
  import opened SerialType
  import opened SerialValue
  import opened SerialTheorems

  // ---------------------------------------------------------------- integers as bytes

  function Pow256(n: nat): (p: nat)
    ensures p >= 1
  {
    if n == 0 then 1 else 256 * Pow256(n - 1)
  }

  /** The low `k` bytes of `x`, least significant first; a negative number as its two's complement. */
  function Little(x: int, k: nat): (s: bytes)
    ensures |s| == k
    decreases k
  {
    if k == 0 then [] else [x % 256] + Little(x / 256, k - 1)
  }

  function FromLittle(s: bytes): (n: nat)
    ensures n < Pow256(|s|)
  {
    if s == [] then 0 else s[0] + 256 * FromLittle(s[1..])
  }

  lemma {:induction false} LittleBack(x: int, k: nat)
    ensures 0 <= x < Pow256(k) ==> FromLittle(Little(x, k)) == x
    ensures 0 <= x + Pow256(k) < Pow256(k) ==> FromLittle(Little(x, k)) == x + Pow256(k)
    decreases k
  {
    if k > 0 {
      var s := Little(x, k);
      assert s[1..] == Little(x / 256, k - 1) && s[0] == x % 256;
      LittleBack(x / 256, k - 1);
    }
  }

  lemma {:induction false} LittleOf(s: bytes, x: int)
    requires x == FromLittle(s) || x == FromLittle(s) - Pow256(|s|)
    ensures Little(x, |s|) == s
  {
    if s != [] {
      LittleOf(s[1..], x / 256);
      assert s == [s[0]] + s[1..];
    }
  }

  /** The 32-bit lengths are little-endian too. */
  lemma U32IsLittle(n: nat)
    ensures U32(n) == Little(n, 4)
  {
    var n1 := n / 256;
    var n2 := n1 / 256;
    var n3 := n2 / 256;
    assert Little(n3, 1) == [n3 % 256] + Little(n3 / 256, 0) == [n3 % 256];
    assert Little(n2, 2) == [n2 % 256, n3 % 256];
    assert Little(n1, 3) == [n1 % 256, n2 % 256, n3 % 256];
  }

  // ---------------------------------------------------------------- the integer types

  const UINT64_TID: NumId := 6

  /** The least value of an integer type, and the first above its greatest. */
  datatype Range = Range(lo: int, hi: int) {
    predicate Has(x: int) {
      lo <= x < hi
    }
  }

  /** `uint8_t`, `int16_t`, `int32_t`, `int64_t`, `uint16_t`, `uint32_t`, `uint64_t`. */
  function RangeOf(tid: NumId): Range
    requires tid <= UINT64_TID
  {
    match tid
    case 0 => Range(0, 0x100)
    case 1 => Range(-0x8000, 0x8000)
    case 2 => Range(-0x8000_0000, 0x8000_0000)
    case 3 => Range(-0x8000_0000_0000_0000, 0x8000_0000_0000_0000)
    case 4 => Range(0, 0x1_0000)
    case 5 => Range(0, 0x1_0000_0000)
    case 6 => Range(0, 0x1_0000_0000_0000_0000)
  }

  /** The integer that the raw bytes of a value of this type are. */
  function IntOf(tid: NumId, raw: bytes): int
    requires tid <= UINT64_TID
  {
    var n := FromLittle(raw);
    if n < RangeOf(tid).hi then n else n - Pow256(|raw|)
  }

  /**
   * Each integer type takes as many bytes as its values need, no more; the two floating-point types take four and
   * eight.
   */
  lemma Widths(tid: NumId)
    ensures tid <= UINT64_TID ==> Pow256(NumSize(tid)) == RangeOf(tid).hi - RangeOf(tid).lo
    ensures tid == 7 ==> NumSize(tid) == 4
    ensures tid == FLOAT64_TID ==> NumSize(tid) == 8
  {
    Powers();
  }

  lemma Powers()
    ensures Pow256(1) == 0x100 && Pow256(2) == 0x1_0000
    ensures Pow256(4) == 0x1_0000_0000 && Pow256(8) == 0x1_0000_0000_0000_0000
  {
    assert Pow256(3) == 0x100_0000 && Pow256(4) == 256 * Pow256(3);
    assert Pow256(5) == 256 * Pow256(4);
    assert Pow256(6) == 256 * Pow256(5);
    assert Pow256(7) == 256 * Pow256(6);
    assert Pow256(8) == 256 * Pow256(7);
  }

  lemma {:induction false} WidthUnique(a: nat, b: nat)
    requires Pow256(a) == Pow256(b)
    ensures a == b
  {
    if a > 0 && b > 0 {
      WidthUnique(a - 1, b - 1);
    }
  }

  /**
   * Every integer of a type's range is sent as its type's identifier and its little-endian bytes, as many as the range
   * needs. It is decoded from these with anything behind them, as the same integer, and they are all that is used.
   */
  lemma IntRoundTrip(tid: NumId, x: int, width: nat, rest: bytes)
    requires tid <= UINT64_TID && RangeOf(tid).Has(x)
    requires Pow256(width) == RangeOf(tid).hi - RangeOf(tid).lo
    ensures var raw := Little(x, width);
            && EncValue(Value(TNum(tid), VNum(raw))) == [tid] + raw
            && DecValue([tid] + raw + rest) == Parsed(Value(TNum(tid), VNum(raw)), 1 + width)
            && IntOf(tid, raw) == x
  {
    Widths(tid);
    WidthUnique(width, NumSize(tid));
    LittleBack(x, width);
    hide DecValue;
    hide EncValue;
    NumberBytes(tid, Little(x, width), rest);
  }

  lemma NumberBytes(tid: NumId, raw: bytes, rest: bytes)
    requires |raw| == NumSize(tid)
    ensures var v := Value(TNum(tid), VNum(raw));
            EncValue(v) == [tid] + raw && DecValue([tid] + raw + rest) == Parsed(v, 1 + |raw|)
  {
    var v := Value(TNum(tid), VNum(raw));
    hide DecValue;
    hide NumSize;
    ValueRoundTrip(v, rest);
  }

  /** Whatever number is decoded is an integer of its type's range, and is sent again as the bytes it came from. */
  lemma DecodedInRange(tid: NumId, s: bytes)
    requires tid <= UINT64_TID && Dec(TNum(tid), s).Parsed?
    ensures var raw := Dec(TNum(tid), s).value.raw;
            RangeOf(tid).Has(IntOf(tid, raw)) && Little(IntOf(tid, raw), |raw|) == raw == s[..|raw|]
  {
    Widths(tid);
    var raw := Dec(TNum(tid), s).value.raw;
    LittleOf(raw, IntOf(tid, raw));
  }

  // ---------------------------------------------------------------- arrays of integers

  function LittleAll(xs: seq<int>, width: nat): (s: bytes)
    ensures |s| == width * |xs|
  {
    if xs == [] then [] else Little(xs[0], width) + LittleAll(xs[1..], width)
  }

  /** The integer in cell `i` of a block. */
  function CellOf(tid: NumId, width: nat, block: bytes, i: nat): int
    requires tid <= UINT64_TID && width * i <= width * i + width <= |block|
  {
    IntOf(tid, block[width * i..width * i + width])
  }

  lemma {:induction false} CellAt(xs: seq<int>, width: nat, i: nat)
    requires i < |xs|
    ensures 0 <= width * i <= width * i + width <= |LittleAll(xs, width)|
    ensures LittleAll(xs, width)[width * i..width * i + width] == Little(xs[i], width)
  {
    var s := LittleAll(xs, width);
    Fits(width, i, |xs|);
    if i > 0 {
      CellAt(xs[1..], width, i - 1);
      assert width * i == width + width * (i - 1);
      assert s[width..] == LittleAll(xs[1..], width);
      assert s[width * i..width * i + width] == s[width..][width * (i - 1)..width * (i - 1) + width];
    }
  }

  lemma Fits(width: nat, i: nat, n: nat)
    requires i < n
    ensures 0 <= width * i <= width * i + width <= width * n
    decreases n
  {
    if i < n - 1 {
      Fits(width, i, n - 1);
    }
    assert width * n == width * (n - 1) + width;
  }

  /** An array of integers travels as one block of such cells behind its length, and each cell is the integer it was. */
  lemma IntsRoundTrip(tid: NumId, xs: seq<int>, width: nat, rest: bytes)
    requires tid <= UINT64_TID && |xs| < U32_RANGE && forall x <- xs :: RangeOf(tid).Has(x)
    requires Pow256(width) == RangeOf(tid).hi - RangeOf(tid).lo
    ensures var block := LittleAll(xs, width);
            var v := Value(TArr(TNum(tid)), VNumArr(block, |xs|));
            && EncValue(v) == [ARRAY_TID, tid] + (Little(|xs|, 4) + block)
            && DecValue([ARRAY_TID, tid] + (Little(|xs|, 4) + block) + rest) == Parsed(v, 6 + width * |xs|)
            && forall i: nat | i < |xs| ::
                 width * i <= width * i + width <= |block| && CellOf(tid, width, block, i) == xs[i]
  {
    Widths(tid);
    WidthUnique(width, NumSize(tid));
    U32IsLittle(|xs|);
    var block := LittleAll(xs, width);
    forall i: nat | i < |xs|
      ensures width * i <= width * i + width <= |block| && CellOf(tid, width, block, i) == xs[i]
    {
      CellBack(tid, xs, width, i);
    }
    hide DecValue;
    hide EncValue;
    hide LittleAll;
    hide CellOf;
    hide RangeOf;
    hide NumSize;
    ArrayBytes(tid, block, |xs|, rest);
  }

  lemma ArrayBytes(tid: NumId, block: bytes, n: nat, rest: bytes)
    requires n < U32_RANGE && |block| == NumSize(tid) * n
    ensures var v := Value(TArr(TNum(tid)), VNumArr(block, n));
            && EncValue(v) == [ARRAY_TID, tid] + (U32(n) + block)
            && DecValue([ARRAY_TID, tid] + (U32(n) + block) + rest) == Parsed(v, 6 + |block|)
  {
    var v := Value(TArr(TNum(tid)), VNumArr(block, n));
    hide DecValue;
    hide NumSize;
    ArrayType(tid);
    hide EncType;
    ValueRoundTrip(v, rest);
  }

  lemma ArrayType(tid: NumId)
    ensures EncType(TArr(TNum(tid))) == [ARRAY_TID, tid]
  {
    assert EncType(TNum(tid)) == [tid];
  }

  lemma CellBack(tid: NumId, xs: seq<int>, width: nat, i: nat)
    requires tid <= UINT64_TID && i < |xs| && RangeOf(tid).Has(xs[i])
    requires Pow256(width) == RangeOf(tid).hi - RangeOf(tid).lo
    ensures width * i <= width * i + width <= |LittleAll(xs, width)|
    ensures CellOf(tid, width, LittleAll(xs, width), i) == xs[i]
  {
    hide LittleAll;
    CellAt(xs, width, i);
    LittleBack(xs[i], width);
  }
}

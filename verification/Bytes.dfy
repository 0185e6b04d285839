/** Bytes, status codes and the 32-bit little-endian lengths that every other module shares. */
module Bytes {

  type byte = b: int | 0 <= b < 256

  type bytes = seq<byte>

  const U32_RANGE: int := 0x1_0000_0000

  // Status codes travel on the wire as one byte, so they are numbers here too.
  type Status = byte

  const SUCCESS: Status := 0
  const SYNTAX_ERROR: Status := 1
  const UNEXPECTED_END: Status := 2
  const BUFFER_TOO_SMALL: Status := 3
  const EMPTY_STRUCT_TYPE: Status := 4
  const STRUCT_TYPE_TOO_LARGE: Status := 5
  const UNKNOWN_ENDPOINT: Status := 9
  const ARGUMENT_MISMATCH: Status := 10
  const CLIENT_CHANNEL_EMPTY: Status := 11
  const CLIENT_CHANNEL_ERROR: Status := 12
  const BAD_REQUEST: Status := 13
  const SERVER_INTERNAL_ERROR: Status := 14
  const DISCONNECT: Status := 15
  const BAD_RESPONSE: Status := 16

  datatype Option<+T> = None | Some(value: T)

  /** What a decoder returns: a value and the number of bytes it used, or a status. */
  datatype Parsed<+T> = Parsed(value: T, used: nat) | Failed(status: Status)

  /** The result of reading a list of which `done` items, `n` bytes long, are already read. */
  function Prepend<T>(done: seq<T>, n: nat, r: Parsed<seq<T>>): Parsed<seq<T>> {
    match r
    case Failed(st) => Failed(st)
    case Parsed(ts, m) => Parsed(done + ts, n + m)
  }

  lemma PrependEnds<T>(done: seq<T>, n: nat, r: Parsed<seq<T>>)
    ensures Prepend([], 0, r) == r
    ensures Prepend(done, n, Parsed([], 0)) == Parsed(done, n)
  {
    if r.Parsed? {
      assert [] + r.value == r.value;
    }
    assert done + [] == done;
  }

  lemma PrependMore<T>(done: seq<T>, n: nat, t: T, m: nat, r: Parsed<seq<T>>)
    ensures Prepend(done, n, Prepend([t], m, r)) == Prepend(done + [t], n + m, r)
  {
    if r.Parsed? {
      Assoc(done, [t], r.value);
    }
  }

  lemma Assoc<T>(a: seq<T>, b: seq<T>, c: seq<T>)
    ensures (a + b) + c == a + (b + c)
  {
  }

  lemma Regroup<T>(a: seq<T>, b: seq<T>, c: seq<T>, d: seq<T>, e: seq<T>)
    ensures a + b + c + d + e == a + (b + (c + (d + e))) == a + (b + c + d + e)
  {
    Assoc(a + b + c, d, e);
    Assoc(a + b, c, d + e);
    Assoc(a, b, c + (d + e));
    Assoc(b + c, d, e);
    Assoc(b, c, d + e);
  }

  /** A stored `uint32_t`: the low 32 bits of `n`, least significant byte first. */
  function U32(n: nat): (s: bytes)
    ensures |s| == 4
  {
    var n1 := n / 0x100;
    var n2 := n1 / 0x100;
    var n3 := n2 / 0x100;
    [n % 0x100, n1 % 0x100, n2 % 0x100, n3 % 0x100]
  }

  function FromU32(s: bytes): (n: nat)
    requires |s| >= 4
    ensures n < U32_RANGE
  {
    var b0: int, b1: int, b2: int, b3: int := s[0], s[1], s[2], s[3];
    b0 + 0x100 * (b1 + 0x100 * (b2 + 0x100 * b3))
  }

  lemma ReadBackU32(n: nat, rest: bytes)
    ensures FromU32(U32(n) + rest) == n % U32_RANGE
  {
    var s := U32(n) + rest;
    assert s[0] == U32(n)[0] && s[1] == U32(n)[1] && s[2] == U32(n)[2] && s[3] == U32(n)[3];
    var n1 := n / 0x100;
    var n2 := n1 / 0x100;
    var n3 := n2 / 0x100;
    Remainder(n, n3 / 0x100, FromU32(s));
  }

  lemma Remainder(n: nat, q: nat, r: nat)
    requires n == 0x1_0000_0000 * q + r && r < 0x1_0000_0000
    ensures n % 0x1_0000_0000 == r
  {
  }

  lemma WriteBackU32(s: bytes)
    requires |s| >= 4
    ensures U32(FromU32(s)) == s[..4]
  {
    var b0: int, b1: int, b2: int, b3: int := s[0], s[1], s[2], s[3];
    Digit(b0, b1 + 0x100 * (b2 + 0x100 * b3));
    Digit(b1, b2 + 0x100 * b3);
    Digit(b2, b3);
  }

  lemma Digit(low: nat, high: nat)
    requires low < 0x100
    ensures (low + 0x100 * high) % 0x100 == low && (low + 0x100 * high) / 0x100 == high
  {
  }
}

/**
 * The allocation counter behind `safe_malloc` and `safe_free` (chsys/src/mem.c), `memcpy`, and the reach of `strlen`.
 */
module Memory {
  import opened Bytes

  /**
   * What contracts promise of a run, they promise of one in which every read stays inside its block: C gives the others
   * no meaning. So the reads that do not are counted.
   */
  class Mem {
    // Blocks handed out and not yet given back.
    var live: int
    // Reads that have left the block they began in.
    var strays: nat

    constructor ()
      ensures live == 0 && strays == 0
    {
      live, strays := 0, 0;
    }

    /** An allocation of zero bytes gives NULL and counts as nothing. */
    method Malloc(size: nat)
      modifies `live
      ensures live == old(live) + Block(size)
    {
      if size != 0 {
        live := live + 1;
      }
    }

    /** Gives back what `Malloc(size)` gave; freeing NULL does nothing. */
    method Free(size: nat)
      modifies `live
      ensures live == old(live) - Block(size)
    {
      if size != 0 {
        live := live - 1;
      }
    }

    /** `strlen` on a block: it reads on until it finds a NUL, so it leaves a block that has none, and NULL at once. */
    method StrLen(block: bytes)
      modifies `strays
      ensures strays == old(strays) + Stray(block)
    {
      var n := 0;
      while n < |block| && block[n] != 0
        invariant n <= |block| && 0 !in block[..n]
      {
        assert block[..n + 1] == block[..n] + [block[n]];
        n := n + 1;
      }
      if n == |block| {
        assert block[..n] == block;
        strays := strays + 1;
      }
    }
  }

  function Stray(block: bytes): nat {
    if 0 in block then 0 else 1
  }

  /** How many of these blocks `strlen` would leave. */
  function Strays(blocks: seq<bytes>): nat {
    if blocks == [] then 0 else Stray(blocks[0]) + Strays(blocks[1..])
  }

  lemma {:induction false} StraysAppend(a: seq<bytes>, b: seq<bytes>)
    ensures Strays(a + b) == Strays(a) + Strays(b)
  {
    if a == [] {
      assert a + b == b;
    } else {
      assert (a + b)[0] == a[0] && (a + b)[1..] == a[1..] + b;
      StraysAppend(a[1..], b);
    }
  }

  predicate Inside(blocks: seq<bytes>) {
    forall b <- blocks :: 0 in b
  }

  lemma {:induction false} NoStrays(blocks: seq<bytes>)
    ensures Strays(blocks) == 0 <==> Inside(blocks)
  {
    if blocks != [] {
      NoStrays(blocks[1..]);
      assert blocks == [blocks[0]] + blocks[1..];
      assert Inside(blocks) ==> blocks[0] in blocks;
    }
  }

  function Block(size: nat): nat {
    if size == 0 then 0 else 1
  }

  /** The bytes of `s` lie in `buf` from `pos` on. */
  predicate At(buf: array<byte>, pos: nat, s: bytes)
    reads buf
  {
    pos + |s| <= buf.Length && forall k :: 0 <= k < |s| ==> buf[pos + k] == s[k]
  }

  lemma AtConcat(buf: array<byte>, pos: nat, a: bytes, b: bytes)
    requires At(buf, pos, a) && At(buf, pos + |a|, b)
    ensures At(buf, pos, a + b)
  {
    forall k | 0 <= k < |a + b|
      ensures buf[pos + k] == (a + b)[k]
    {
      if k >= |a| {
        assert buf[pos + |a| + (k - |a|)] == b[k - |a|];
      }
    }
  }

  /** `memcpy` into a buffer. */
  method CopyInto(buf: array<byte>, pos: nat, src: bytes)
    requires pos + |src| <= buf.Length
    modifies buf
    ensures At(buf, pos, src)
    ensures forall i :: 0 <= i < pos || pos + |src| <= i < buf.Length ==> buf[i] == old(buf[i])
  {
    for k := 0 to |src|
      invariant forall i :: 0 <= i < k ==> buf[pos + i] == src[i]
      invariant forall i :: 0 <= i < pos || pos + k <= i < buf.Length ==> buf[i] == old(buf[i])
    {
      buf[pos + k] := src[k];
    }
  }
}

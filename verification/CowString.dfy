/**
 * The copy-on-write strings of chutil/src/string.c. A string is a handle on a buffer it may share with other strings: a
 * literal, which is never written, or a shared string, which is written only through its single handle. A C string is
 * given by the bytes before its terminator.
 */
module CowString {
  import opened Bytes

  /** A `shared_literal_t` or a `shared_string_t`; a literal has no capacity of its own. */
  class Buffer {
    const literal: bool
    var refCount: nat
    var cap: nat
    var len: nat
    var buf: array<byte>
    ghost var owners: set<Handle>

    ghost predicate Ok()
      reads `len, `cap, `buf, buf
    {
      len < cap == buf.Length && buf[len] == 0
    }

    /** The count is the number of handles on this buffer. */
    ghost predicate Counted()
      reads `refCount, `owners
    {
      refCount == |owners| > 0
    }

    ghost function Text(): bytes
      reads `len, `cap, `buf, buf
      requires Ok()
    {
      buf[..len]
    }

    /** A buffer of at least `cap` bytes that holds `cstr`, or an empty one of one byte when there is none. */
    constructor Shared(cstr: Option<bytes>, cap: nat)
      ensures Ok() && fresh(buf) && refCount == 1 && owners == {} && !literal
      ensures Text() == if cstr.Some? then cstr.value else []
      ensures cstr.Some? ==> this.cap >= cap
    {
      var text := if cstr.Some? then cstr.value else [];
      var size := if cstr.None? then 1 else if cap < |text| + 1 then |text| + 1 else cap;
      this.cap, len, literal := size, |text|, false;
      buf := new byte[size](i => if 0 <= i < |text| then text[i] else 0);
      refCount, owners := 1, {};
      new;
      assert buf[..len] == text;
    }

    constructor Literal(chars: array<byte>)
      requires chars.Length > 0 && chars[chars.Length - 1] == 0
      ensures Ok() && buf == chars && refCount == 1 && owners == {} && literal && len == chars.Length - 1
    {
      literal, refCount, owners := true, 1, {};
      cap, len, buf := chars.Length, chars.Length - 1, chars;
    }

    method Retain(h: Handle)
      requires Counted() && h !in owners
      modifies `refCount, `owners
      ensures Counted() && owners == old(owners) + {h}
    {
      refCount := refCount + 1;
      owners := owners + {h};
    }

    method Drop(h: Handle)
      requires Counted() && h in owners
      modifies `refCount, `owners
      ensures owners == old(owners) - {h} && refCount == |owners| == old(refCount) - 1
      ensures refCount > 0 ==> Counted()
    {
      refCount := refCount - 1;
      owners := owners - {h};
    }

    /** `safe_realloc` to twice the capacity, or to `minCap` when that is more. */
    method Resize(minCap: nat)
      requires Ok() && cap < minCap
      modifies `cap, `buf
      ensures Ok() && fresh(buf) && cap >= minCap && Text() == old(Text())
    {
      var newCap := if minCap > cap * 2 then minCap else cap * 2;
      var was := buf[..];
      buf := new byte[newCap](i => if 0 <= i < |was| then was[i] else 0);
      cap := newCap;
      assert buf[..len] == was[..len];
    }

    method WriteChar(c: byte)
      requires Ok() && len + 2 <= cap
      modifies `len, buf
      ensures Ok() && Text() == old(Text()) + [c]
    {
      buf[len] := c;
      buf[len + 1] := 0;
      len := len + 1;
      assert Text() == old(Text()) + [c];
    }

    /** `strcpy` behind the last character. */
    method WriteCStr(addition: bytes)
      requires Ok() && len + |addition| + 1 <= cap
      modifies `len, buf
      ensures Ok() && Text() == old(Text()) + addition
    {
      for k := 0 to |addition|
        invariant len == old(len) && forall i | 0 <= i < len :: buf[i] == old(buf[i])
        invariant forall i | 0 <= i < k :: buf[len + i] == addition[i]
      {
        buf[len + k] := addition[k];
      }
      buf[len + |addition|] := 0;
      len := len + |addition|;
      assert Text() == old(Text()) + addition;
    }

    method WriteAt(i: nat, c: byte)
      requires Ok() && i < len
      modifies buf
      ensures Ok() && Text() == old(Text())[i := c]
    {
      buf[i] := c;
    }
  }

  /** A `string_t`: a handle on a buffer. */
  class Handle {
    var on: Buffer

    constructor (on: Buffer)
      ensures this.on == on
    {
      this.on := on;
    }
  }

  /** All strings alive at one moment, with the buffers under them. */
  class Strings {
    ghost var handles: set<Handle>
    ghost var buffers: set<Buffer>

    /** Every handle is on an allocated buffer that knows it, and buffers know no other handles. */
    ghost predicate Linked()
      reads `handles, `buffers, handles, buffers`owners
    {
      && (forall h <- handles :: h.on in buffers && h in h.on.owners)
      && (forall b <- buffers, h <- b.owners :: h in handles && h.on == b)
    }

    /** Every buffer counts its handles, and has at least one. */
    ghost predicate AllCounted()
      reads `buffers, buffers`refCount, buffers`owners
    {
      forall b <- buffers :: b.Counted()
    }

    ghost predicate AllOk()
      reads `buffers, buffers`len, buffers`cap, buffers`buf, set b | b in buffers :: b.buf
    {
      forall b <- buffers :: b.Ok()
    }

    /** No two buffers share their bytes, unless as literals. */
    ghost predicate Apart()
      reads `buffers, buffers`buf
    {
      forall b <- buffers, b' <- buffers :: b != b' && !b.literal ==> b.buf != b'.buf
    }

    ghost predicate Valid()
      reads this, handles, buffers, set b | b in buffers :: b.buf
    {
      Linked() && AllCounted() && AllOk() && Apart()
    }

    constructor ()
      ensures Valid() && handles == {}
    {
      handles, buffers := {}, {};
    }

    lemma Known(h: Handle)
      requires Valid() && h in handles
      ensures h.on in buffers && h in h.on.owners && h.on.Counted() && h.on.Ok()
      ensures h.on.refCount == 1 ==> h.on.owners == {h}
    {
      if |h.on.owners| == 1 {
        assert |h.on.owners - {h}| == 0;
      }
    }

    /** The count of a buffer is the number of handles on it, and only buffers that handles are on are allocated. */
    lemma CountIsHandles(b: Buffer)
      requires Valid() && b in buffers
      ensures b.refCount == |set h | h in handles && h.on == b| > 0
    {
      assert b.owners == set h | h in handles && h.on == b;
      assert b.Counted();
    }

    /** No other handle sees the bytes of the single owner of a shared string. */
    lemma Alone(s: Handle)
      requires Valid() && s in handles && s.on.owners == {s} && !s.on.literal
      ensures forall b <- buffers :: b != s.on ==> b.buf != s.on.buf
      ensures forall g <- handles :: g != s ==> g.on != s.on && g.on in buffers
    {
    }

    /** Registers a handle that is alone on a new buffer. */
    ghost method Attach(h: Handle, b: Buffer)
      requires Valid() && h !in handles && b !in buffers && h.on == b && b.owners == {h}
      requires b.Counted() && b.Ok() && forall b' <- buffers :: b'.buf == b.buf ==> b.literal && b'.literal
      modifies `handles, `buffers
      ensures Valid() && handles == old(handles) + {h} && buffers == old(buffers) + {b}
    {
      hide Buffer.Ok;
      hide Buffer.Counted;
      buffers := buffers + {b};
      handles := handles + {h};
    }

    method FromCStr(cstr: Option<bytes>) returns (h: Handle)
      requires Valid()
      modifies this
      ensures Valid() && fresh(h) && handles == old(handles) + {h}
      ensures h.on.Text() == (if cstr.Some? then cstr.value else [])
    {
      hide Linked;
      hide AllCounted;
      hide AllOk;
      hide Apart;
      var b := new Buffer.Shared(cstr, if cstr.Some? then |cstr.value| + 1 else 1);
      h := new Handle(b);
      b.owners := {h};
      Attach(h, b);
    }

    /** Counts one more handle on a buffer. */
    method Share(h: Handle, b: Buffer)
      requires Valid() && b in buffers && h !in handles && h.on == b
      modifies `handles, b`refCount, b`owners
      ensures Valid() && handles == old(handles) + {h}
    {
      hide Buffer.Counted;
      hide AllOk;
      hide Apart;
      b.Retain(h);
      handles := handles + {h};
      assert AllCounted();
      hide AllCounted;
    }

    /** A second handle on the same buffer. */
    method Copy(s: Handle) returns (h: Handle)
      requires Valid() && s in handles
      modifies `handles, s.on`refCount, s.on`owners
      ensures Valid() && fresh(h) && handles == old(handles) + {h} && h.on == s.on
      ensures forall g <- old(handles) :: g.on.Text() == old(g.on.Text())
    {
      h := new Handle(s.on);
      Share(h, s.on);
    }

    /** `chars` is the literal with its terminator, or NULL. */
    method FromLiteral(chars: array?<byte>) returns (h: Handle)
      requires Valid()
      requires chars != null ==> chars.Length > 0 && chars[chars.Length - 1] == 0
      requires chars != null ==> forall i :: 0 <= i < chars.Length - 1 ==> chars[i] != 0
      requires chars != null ==> forall b <- buffers :: b.buf == chars ==> b.literal
      modifies this
      ensures Valid() && fresh(h) && handles == old(handles) + {h}
      ensures h.on.Text() == if chars == null then [] else chars[..chars.Length - 1]
    {
      hide Linked;
      hide AllCounted;
      hide AllOk;
      hide Apart;
      if chars == null {
        h := FromCStr(None);
        return;
      }
      var b := new Buffer.Literal(chars);
      h := new Handle(b);
      b.owners := {h};
      Attach(h, b);
    }

    /** Forgets a freed buffer, which nothing is on. */
    ghost method Forget(b: Buffer)
      requires Linked() && AllOk() && Apart() && b in buffers && b.owners == {}
      requires forall b' <- buffers :: b' != b ==> b'.Counted()
      modifies `buffers
      ensures Valid() && buffers == old(buffers) - {b}
    {
      hide Buffer.Counted;
      hide Buffer.Ok;
      buffers := buffers - {b};
    }

    /** Takes a handle off its buffer, and frees the buffer with its last handle. */
    method Release(s: Handle)
      requires Valid() && s in handles
      modifies `handles, `buffers, s.on`refCount, s.on`owners
      ensures Valid() && handles == old(handles) - {s}
      ensures buffers == if old(s.on.refCount) > 1 then old(buffers) else old(buffers) - {s.on}
    {
      hide Buffer.Counted;
      hide AllOk;
      hide Apart;
      var b := s.on;
      b.Drop(s);
      handles := handles - {s};
      assert Linked();
      assert forall b' <- buffers :: b' != b ==> b'.Counted();
      hide Linked;
      if b.refCount == 0 {
        Forget(b);
      }
    }

    method Delete(s: Handle)
      requires Valid() && s in handles
      modifies `handles, `buffers, s.on`refCount, s.on`owners
      ensures Valid() && handles == old(handles) - {s}
      ensures s.on in buffers <==> exists g :: g in handles && g.on == s.on
      ensures forall g <- handles :: g.on.Text() == old(g.on.Text())
    {
      Release(s);
      if s.on in buffers {
        assert s.on.Counted();
        var g :| g in s.on.owners;
        assert g in handles && g.on == s.on;
      } else {
        forall g | g in handles
          ensures g.on != s.on
        {
          Known(g);
        }
      }
    }

    /** Moves a handle alone onto a buffer of its own with the same text and at least `minCap` bytes. */
    method Detach(s: Handle, minCap: nat)
      requires Valid() && s in handles
      modifies `handles, `buffers, s`on, s.on`refCount, s.on`owners
      ensures Valid() && handles == old(handles) && fresh(s.on) && fresh(s.on.buf)
      ensures s.on.owners == {s} && !s.on.literal && s.on.cap >= minCap && s.on.Text() == old(s.on.Text())
    {
      hide Linked;
      hide AllCounted;
      hide AllOk;
      hide Apart;
      Known(s);
      var text := s.on.buf[..s.on.len];
      var b := new Buffer.Shared(Some(text), minCap);
      Release(s);
      s.on := b;
      b.owners := {s};
      Attach(s, b);
    }

    /** Makes a handle the only one on a buffer that is no literal and has at least `minCap0` bytes. */
    method PrepareModify(s: Handle, minCap0: nat)
      requires Valid() && s in handles
      modifies `handles, `buffers, s`on, s.on`refCount, s.on`owners, s.on`cap, s.on`buf
      ensures Valid() && handles == old(handles)
      ensures s.on == old(s.on) || fresh(s.on)
      ensures s.on.buf == old(s.on.buf) || fresh(s.on.buf)
      ensures s.on.owners == {s} && !s.on.literal && s.on.cap >= minCap0 && s.on.Text() == old(s.on.Text())
      ensures forall g <- handles :: g != s ==> g.on.Text() == old(g.on.Text())
    {
      Known(s);
      var len := s.on.len;
      var minCap := if minCap0 < len + 1 then len + 1 else minCap0;
      if s.on.literal || s.on.refCount > 1 {
        Detach(s, minCap);
        return;
      }
      if s.on.cap >= minCap {
        return;
      }
      s.on.Resize(minCap);
    }

    method AppendChar(s: Handle, c: byte)
      requires Valid() && s in handles
      modifies `handles, `buffers, s`on, s.on, s.on.buf
      ensures Valid() && handles == old(handles)
      ensures s.on.Text() == old(s.on.Text()) + [c]
      ensures forall g <- handles :: g != s ==> g.on.Text() == old(g.on.Text())
    {
      hide Linked;
      hide AllCounted;
      hide Apart;
      Known(s);
      PrepareModify(s, s.on.len + 2);
      Known(s);
      Alone(s);
      s.on.WriteChar(c);
    }

    method AppendCStr(s: Handle, addition: bytes)
      requires Valid() && s in handles
      modifies `handles, `buffers, s`on, s.on, s.on.buf
      ensures Valid() && handles == old(handles)
      ensures s.on.Text() == old(s.on.Text()) + addition
      ensures forall g <- handles :: g != s ==> g.on.Text() == old(g.on.Text())
    {
      hide Linked;
      hide AllCounted;
      hide Apart;
      Known(s);
      PrepareModify(s, s.on.len + |addition| + 1);
      Known(s);
      Alone(s);
      s.on.WriteCStr(addition);
    }

    /** The index is not checked. */
    method SetChar(s: Handle, i: nat, c: byte)
      requires Valid() && s in handles && i < s.on.len
      modifies `handles, `buffers, s`on, s.on, s.on.buf
      ensures Valid() && handles == old(handles)
      ensures s.on.Text() == old(s.on.Text())[i := c]
      ensures forall g <- handles :: g != s ==> g.on.Text() == old(g.on.Text())
    {
      hide Linked;
      hide AllCounted;
      hide Apart;
      Known(s);
      PrepareModify(s, s.on.len + 1);
      Known(s);
      Alone(s);
      s.on.WriteAt(i, c);
    }
  }
}

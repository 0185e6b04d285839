/** The fixed-size ring queue under both channels and under the server's worker pool (chutil/src/queue.c). */
module Queue {
  import opened Bytes

  lemma Wrap(x: nat, cap: nat)
    requires 0 < cap && x < 2 * cap
    ensures x % cap == if x < cap then x else x - cap
  {
    if x >= cap {
      assert x == cap * 1 + (x - cap);
    }
  }

  class Queue<T(0)> {
    const cap: nat
    const table: array<T>
    // Index of the next element to return, and how many there are.
    var i: nat
    var len: nat

    ghost predicate Valid()
      reads this
    {
      0 < cap == table.Length && i < cap && len <= cap
    }

    /** The cell that holds the element `k` places behind the front. */
    ghost function Cell(k: nat): nat
      reads this
      requires Valid() && k < cap
    {
      if i + k < cap then i + k else i + k - cap
    }

    ghost function Contents(): (s: seq<T>)
      reads this, table
      requires Valid()
      ensures |s| == len
    {
      seq(len, k requires 0 <= k < len && Valid() reads this, table => table[Cell(k)])
    }

    constructor (cap: nat)
      requires cap > 0
      ensures Valid() && Contents() == [] && this.cap == cap && fresh(table)
    {
      this.cap := cap;
      table := new T[cap];
      i, len := 0, 0;
    }

    /** A full queue refuses the element and stays as it is. */
    method Push(x: T) returns (full: bool)
      requires Valid()
      modifies this, table
      ensures Valid() && full == (|old(Contents())| == cap)
      ensures Contents() == if full then old(Contents()) else old(Contents()) + [x]
    {
      if len == cap {
        return true;
      }
      Wrap(i + len, cap);
      table[(i + len) % cap] := x;
      len := len + 1;
      full := false;
      assert Contents() == old(Contents()) + [x];
    }

    method Poll() returns (r: Option<T>)
      requires Valid()
      modifies this
      ensures Valid()
      ensures old(Contents()) == [] ==> r == None && Contents() == []
      ensures old(Contents()) != [] ==> r == Some(old(Contents())[0]) && Contents() == old(Contents())[1..]
    {
      if len == 0 {
        return None;
      }
      r := Some(table[i]);
      i := i + 1;
      if i == cap {
        i := 0;
      }
      len := len - 1;
      assert Contents() == old(Contents())[1..];
    }

    method Peek() returns (r: Option<T>)
      requires Valid()
      ensures r == if Contents() == [] then None else Some(Contents()[0])
    {
      r := if len == 0 then None else Some(table[i]);
    }
  }
}

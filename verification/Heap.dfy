/** The binary min-heap of chutil/src/heap.c: a moving hole instead of swaps, a table that doubles, and re-heaping. */
module Heap {
  import opened Bytes

  datatype Cell<T> = Cell(priority: nat, val: T)

  function Parent(i: nat): nat
    requires i > 0
  {
    (i - 1) / 2
  }

  predicate Ordered<T>(s: seq<Cell<T>>) {
    forall k | 0 < k < |s| :: s[Parent(k)].priority <= s[k].priority
  }

  /** The root of a heap has the least priority in it. */
  lemma {:induction false} RootIsLeast<T>(s: seq<Cell<T>>, k: nat)
    requires Ordered(s) && k < |s|
    ensures s[0].priority <= s[k].priority
  {
    if k > 0 {
      RootIsLeast(s, Parent(k));
    }
  }

  function Swap<T>(s: seq<T>, i: nat, j: nat): seq<T>
    requires i < |s| && j < |s|
  {
    s[i := s[j]][j := s[i]]
  }

  lemma SwapKeeps<T>(s: seq<T>, i: nat, j: nat)
    requires i < |s| && j < |s|
    ensures |Swap(s, i, j)| == |s| && multiset(Swap(s, i, j)) == multiset(s)
    ensures Swap(s, i, j)[i] == s[j] && Swap(s, i, j)[j] == s[i]
    ensures forall k | 0 <= k < |s| && k != i && k != j :: Swap(s, i, j)[k] == s[k]
  {
  }

  /** Heap order everywhere but between cell `i` and its parent, with that parent below the children of `i`. */
  predicate OrderedButUp<T>(s: seq<Cell<T>>, i: nat) {
    && i < |s|
    && (forall k | 0 < k < |s| && k != i :: s[Parent(k)].priority <= s[k].priority)
    && (forall k | 0 < k < |s| && Parent(k) == i && i > 0 :: s[Parent(i)].priority <= s[k].priority)
  }

  /** Heap order everywhere but between cell `i` and its children, with those above the parent of `i`. */
  predicate OrderedButDown<T>(s: seq<Cell<T>>, i: nat) {
    && i < |s|
    && (forall k | 0 < k < |s| && Parent(k) != i :: s[Parent(k)].priority <= s[k].priority)
    && (forall k | 0 < k < |s| && Parent(k) == i && i > 0 :: s[Parent(i)].priority <= s[k].priority)
  }

  lemma MoveUp<T>(s: seq<Cell<T>>, i: nat)
    requires 0 < i && OrderedButUp(s, i) && s[Parent(i)].priority > s[i].priority
    ensures OrderedButUp(Swap(s, i, Parent(i)), Parent(i))
  {
    hide Swap;
    var p := Parent(i);
    var t := Swap(s, i, p);
    SwapKeeps(s, i, p);
    forall k | 0 < k < |t| && k != p
      ensures t[Parent(k)].priority <= t[k].priority
    {
      if k != i && Parent(k) == i {
        assert s[Parent(i)].priority <= s[k].priority;
      }
    }
  }

  lemma MoveDown<T>(s: seq<Cell<T>>, i: nat, j: nat)
    requires OrderedButDown(s, i) && 0 < j < |s| && Parent(j) == i && s[j].priority < s[i].priority
    requires forall k | 0 < k < |s| && Parent(k) == i :: s[j].priority <= s[k].priority
    ensures OrderedButDown(Swap(s, i, j), j)
  {
  }

  lemma StartUp<T>(s: seq<Cell<T>>, c: Cell<T>)
    requires Ordered(s)
    ensures OrderedButUp(s + [c], |s|)
    ensures multiset(s + [c]) == multiset(s) + multiset{c}
  {
  }

  lemma EndUp<T>(s: seq<Cell<T>>, i: nat)
    requires OrderedButUp(s, i) && (i == 0 || s[Parent(i)].priority <= s[i].priority)
    ensures Ordered(s)
  {
  }

  lemma LeastOfAll<T>(s: seq<Cell<T>>)
    requires Ordered(s)
    ensures s != [] ==> forall c <- s :: s[0].priority <= c.priority
  {
    forall c | c in s
      ensures s[0].priority <= c.priority
    {
      var k :| 0 <= k < |s| && s[k] == c;
      RootIsLeast(s, k);
    }
  }

  lemma OneOrNone<T>(s: seq<Cell<T>>)
    requires |s| <= 1
    ensures Ordered(s)
  {
  }

  /** Taking the root out and putting the last cell in its place. */
  lemma RootGone<T>(s: seq<Cell<T>>)
    requires |s| >= 2 && Ordered(s)
    ensures var n := |s| - 1;
            OrderedButDown(s[..n][0 := s[n]], 0) && multiset(s[..n][0 := s[n]]) == multiset(s) - multiset{s[0]}
  {
    var n := |s| - 1;
    assert s == [s[0]] + s[1..n] + [s[n]];
    assert s[..n][0 := s[n]] == [s[n]] + s[1..n];
  }

  lemma EndDown<T>(s: seq<Cell<T>>, i: nat)
    requires OrderedButDown(s, i) && forall k | 0 < k < |s| && Parent(k) == i :: s[i].priority <= s[k].priority
    ensures Ordered(s)
  {
  }

  class Heap<T(0)> {
    var table: array<Cell<T>>
    var len: nat

    ghost predicate Valid()
      reads this
    {
      0 < table.Length && len <= table.Length
    }

    ghost function Cells(): seq<Cell<T>>
      reads this, table
      requires Valid()
    {
      table[..len]
    }

    constructor ()
      ensures Valid() && Cells() == [] && fresh(table)
    {
      table := new Cell<T>[1];
      len := 0;
    }

    /**
     * Moves cells of the heap `table[..e]` down from index `e` until a cell of priority `p` can go in, and returns
     * where. `c` is that cell, and `w` what the heap is once it is put there.
     */
    method BubbleUp(e: nat, p: nat, ghost c: Cell<T>) returns (i: nat, ghost w: seq<Cell<T>>)
      requires Valid() && e < len && Ordered(table[..e]) && c.priority == p
      modifies table
      ensures i <= e && |w| == e + 1 && w[i] == c
      ensures forall k | 0 <= k <= e && k != i :: table[k] == w[k]
      ensures forall k | e < k < table.Length :: table[k] == old(table[k])
      ensures i == e ==> table[e] == old(table[e])
      ensures Ordered(w) && multiset(w) == multiset(old(table[..e])) + multiset{c}
    {
      hide Ordered;
      hide OrderedButUp;
      hide Swap;
      i := e;
      w := table[..e] + [c];
      StartUp(table[..e], c);
      ghost var all := multiset(w);
      while i > 0
        invariant i <= e && |w| == e + 1 && w[i] == c
        invariant forall k | 0 <= k <= e && k != i :: table[k] == w[k]
        invariant forall k | e < k < table.Length :: table[k] == old(table[k])
        invariant i == e ==> table[e] == old(table[e])
        invariant OrderedButUp(w, i) && multiset(w) == all
        decreases i
      {
        var parent := i / 2;
        if i % 2 == 0 {
          parent := parent - 1;
        }
        assert parent == Parent(i);
        if table[parent].priority <= p {
          break;
        }
        MoveUp(w, i);
        SwapKeeps(w, i, parent);
        w := Swap(w, i, parent);
        table[i] := table[parent];
        i := parent;
      }
      EndUp(w, i);
    }

    /** Adds a value, doubling the table when it is full. */
    method Push(x: T, priority: nat)
      requires Valid() && Ordered(Cells())
      modifies this, table
      ensures Valid() && (table == old(table) || fresh(table))
      ensures Ordered(Cells()) && multiset(Cells()) == multiset(old(Cells())) + multiset{Cell(priority, x)}
    {
      hide Ordered;
      if len == table.Length {
        var bigger := new Cell<T>[table.Length * 2];
        forall k | 0 <= k < table.Length {
          bigger[k] := table[k];
        }
        table := bigger;
      }
      assert table[..len] == old(Cells());
      len := len + 1;
      var c := Cell(priority, x);
      var i;
      ghost var w;
      i, w := BubbleUp(len - 1, priority, c);
      table[i] := c;
      assert table[..len] == w;
    }

    method Peek() returns (r: Option<T>)
      requires Valid() && Ordered(Cells())
      ensures Cells() == [] ==> r == None
      ensures Cells() != [] ==> r == Some(Cells()[0].val) && forall c <- Cells() :: Cells()[0].priority <= c.priority
    {
      if len == 0 {
        return None;
      }
      LeastOfAll(Cells());
      return Some(table[0].val);
    }

    /** Picks the child of `i` to move up for a last cell of priority `p`, if one has to. */
    method LesserChild(i: nat, p: nat) returns (next: nat)
      requires Valid() && i < len
      ensures next == 0 ==> forall k | 0 < k < len && Parent(k) == i :: p <= table[k].priority
      ensures next != 0 ==>
                next < len && Parent(next) == i && table[next].priority < p
                && forall k | 0 < k < len && Parent(k) == i :: table[next].priority <= table[k].priority
    {
      next := 0;
      var left := i * 2 + 1;
      if left < len && table[left].priority < p {
        next := left;
      }
      var right := i * 2 + 2;
      if right < len && table[right].priority < p {
        if next == 0 || table[right].priority < table[next].priority {
          next := right;
        }
      }
      forall k | 0 < k < len && Parent(k) == i
        ensures k == left || k == right
      {
      }
    }

    /** Takes a value of least priority out. */
    method Pop() returns (r: Option<T>, ghost popped: Cell<T>)
      requires Valid() && Ordered(Cells())
      modifies this`len, table
      ensures Valid() && Ordered(Cells())
      ensures old(Cells()) == [] ==> r == None && Cells() == []
      ensures old(Cells()) != [] ==>
                r == Some(popped.val) && popped in old(Cells())
                && (forall c <- old(Cells()) :: popped.priority <= c.priority)
                && multiset(Cells()) == multiset(old(Cells())) - multiset{popped}
                && |Cells()| == |old(Cells())| - 1
    {
      hide Ordered;
      hide OrderedButDown;
      hide Swap;
      popped := Cell(0, table[0].val);
      if len == 0 {
        return None, popped;
      }
      ghost var was := Cells();
      LeastOfAll(was);
      popped := table[0];
      r := Some(table[0].val);
      if len == 1 {
        len := len - 1;
        OneOrNone(Cells());
        assert was == [popped];
        return;
      }
      len := len - 1;
      RootGone(was);
      SiftDown(was[..len][0 := was[len]]);
    }

    /** Popping until the heap is empty gives every value it held, and their priorities in order. */
    method PopAll() returns (vals: seq<T>, ghost cells: seq<Cell<T>>)
      requires Valid() && Ordered(Cells())
      modifies this`len, table
      ensures Valid() && Cells() == []
      ensures |vals| == |cells| && forall i | 0 <= i < |vals| :: vals[i] == cells[i].val
      ensures multiset(cells) == multiset(old(Cells()))
      ensures forall i, j | 0 <= i < j < |cells| :: cells[i].priority <= cells[j].priority
    {
      hide Ordered;
      hide Pops;
      hide Popped;
      vals, cells := [], [];
      ghost var all := Cells();
      NonePopped(all);
      while true
        invariant Valid() && Ordered(Cells()) && Popped(all, Cells(), cells, vals)
        decreases |Cells()|
      {
        ghost var was := Cells();
        var r, popped := Pop();
        if r.None? {
          break;
        }
        OnePopped(all, was, Cells(), cells, vals, popped);
        vals, cells := vals + [r.value], cells + [popped];
      }
      AllPopped(all, cells, vals);
    }

    /**
     * The loop of `Pop`: moves cells up from the root until the last cell, which lies behind the heap, can go in. `w`
     * is the heap with that cell at its root.
     */
    method SiftDown(ghost w: seq<Cell<T>>)
      requires Valid() && 0 < len < table.Length && |w| == len && w[0] == table[len]
      requires forall k | 0 < k < len :: table[k] == w[k]
      requires OrderedButDown(w, 0)
      modifies table
      ensures Ordered(Cells()) && multiset(Cells()) == multiset(w)
    {
      hide Ordered;
      hide OrderedButDown;
      hide Swap;
      var last, i: nat := table[len], 0;
      ghost var v, all := w, multiset(w);
      while true
        invariant i < len == |v| && v[i] == last == table[len]
        invariant forall k | 0 <= k < len && k != i :: table[k] == v[k]
        invariant OrderedButDown(v, i) && multiset(v) == all
        decreases len - i
      {
        var next := LesserChild(i, last.priority);
        if next == 0 {
          EndDown(v, i);
          table[i] := table[len];
          assert table[..len] == v;
          return;
        }
        MoveDown(v, i, next);
        SwapKeeps(v, i, next);
        v := Swap(v, i, next);
        table[i] := table[next];
        i := next;
      }
    }

    /** Recomputes every priority, which may have changed, and makes the table a heap again from any order. */
    method ReHeap(priority: T -> nat)
      requires Valid()
      modifies table
      ensures Valid() && Ordered(Cells())
      ensures multiset(Cells()) == multiset(Reprioritized(old(Cells()), priority))
      ensures forall c <- Cells() :: c.priority == priority(c.val)
      ensures multiset(Vals(Cells())) == multiset(Vals(old(Cells())))
    {
      hide Ordered;
      hide Reprioritized;
      hide Vals;
      ghost var was := Cells();
      Recompute(priority);
      Build(Reprioritized(was, priority));
      NewPriorities(was, Cells(), priority);
    }

    method Recompute(priority: T -> nat)
      requires Valid()
      modifies table
      ensures Cells() == Reprioritized(old(Cells()), priority)
    {
      for k := 0 to len
        invariant forall j | 0 <= j < k :: table[j] == Cell(priority(old(table[j]).val), old(table[j]).val)
        invariant forall j | k <= j < table.Length :: table[j] == old(table[j])
      {
        table[k] := Cell(priority(table[k].val), table[k].val);
      }
    }

    /** Lets cell `e` join the heap in front of it. */
    method Join(e: nat)
      requires Valid() && e < len && Ordered(table[..e])
      modifies table
      ensures Ordered(table[..e + 1])
      ensures multiset(table[..e + 1]) == multiset(old(table[..e])) + multiset{old(table[e])}
      ensures forall k | e < k < table.Length :: table[k] == old(table[k])
    {
      hide Ordered;
      var end := table[e];
      var i;
      ghost var w;
      i, w := BubbleUp(e, end.priority, end);
      if i != e {
        table[i] := end;
      }
      assert table[..e + 1] == w;
    }

    /** Lets one cell after another join. */
    method Build(ghost all: seq<Cell<T>>)
      requires Valid() && Cells() == all
      modifies table
      ensures Ordered(Cells()) && multiset(Cells()) == multiset(all)
    {
      hide Ordered;
      if len <= 1 {
        OneOrNone(all);
        return;
      }
      var e: nat := 1;
      OneOrNone(table[..1]);
      assert table[..1] == all[..1];
      while e < len
        invariant 1 <= e <= len && Ordered(table[..e])
        invariant multiset(table[..e]) == multiset(all[..e])
        invariant forall k | e <= k < len :: table[k] == all[k]
        decreases len - e
      {
        OneMore(all, e);
        Join(e);
        e := e + 1;
      }
      assert all[..len] == all;
    }
  }

  lemma OneMore<T>(s: seq<T>, e: nat)
    requires e < |s|
    ensures multiset(s[..e + 1]) == multiset(s[..e]) + multiset{s[e]}
  {
    assert s[..e + 1] == s[..e] + [s[e]];
  }

  function Reprioritized<T>(s: seq<Cell<T>>, priority: T -> nat): seq<Cell<T>> {
    seq(|s|, i requires 0 <= i < |s| => Cell(priority(s[i].val), s[i].val))
  }

  /** The values in a table, whatever their priorities. */
  function Vals<T>(s: seq<Cell<T>>): seq<T> {
    if s == [] then [] else [s[0].val] + Vals(s[1..])
  }

  lemma {:induction false} ValsAppend<T>(a: seq<Cell<T>>, b: seq<Cell<T>>)
    ensures Vals(a + b) == Vals(a) + Vals(b)
  {
    if a == [] {
      assert a + b == b;
    } else {
      ValsAppend(a[1..], b);
      assert (a + b)[0] == a[0] && (a + b)[1..] == a[1..] + b;
    }
  }

  lemma TakenOut<T>(s: seq<Cell<T>>, i: nat)
    requires i < |s|
    ensures multiset(s[..i] + s[i + 1..]) == multiset(s) - multiset{s[i]}
    ensures multiset(Vals(s)) == multiset(Vals(s[..i] + s[i + 1..])) + multiset{s[i].val}
  {
    hide Vals;
    var front, c, back := s[..i], s[i], s[i + 1..];
    assert s == front + ([c] + back);
    ValsAppend(front, [c] + back);
    ValsAppend([c], back);
    ValsAppend(front, back);
    OneVal(c);
  }

  lemma OneVal<T>(c: Cell<T>)
    ensures Vals([c]) == [c.val]
  {
    assert [c][1..] == [];
  }

  /** The same cells in another order hold the same values. */
  lemma {:induction false} SameCellsSameVals<T>(a: seq<Cell<T>>, b: seq<Cell<T>>)
    requires multiset(a) == multiset(b)
    ensures multiset(Vals(a)) == multiset(Vals(b))
    decreases |a|
  {
    hide Vals;
    if a == [] {
      assert |multiset(b)| == 0;
      assert b == [];
    } else {
      assert a[0] in multiset(b);
      var i :| 0 <= i < |b| && b[i] == a[0];
      TakenOut(a, 0);
      TakenOut(b, i);
      SameCellsSameVals(a[..0] + a[1..], b[..i] + b[i + 1..]);
    }
  }

  lemma {:induction false} SameVals<T>(s: seq<Cell<T>>, priority: T -> nat)
    ensures Vals(Reprioritized(s, priority)) == Vals(s)
  {
    if s != [] {
      SameVals(s[1..], priority);
      assert Reprioritized(s, priority)[1..] == Reprioritized(s[1..], priority);
    }
  }

  /**
   * Cells with recomputed priorities, in any order: each has its value's new priority, and the values are the old ones.
   */
  lemma NewPriorities<T>(was: seq<Cell<T>>, now: seq<Cell<T>>, priority: T -> nat)
    requires multiset(now) == multiset(Reprioritized(was, priority))
    ensures forall c <- now :: c.priority == priority(c.val)
    ensures multiset(Vals(now)) == multiset(Vals(was))
  {
    SameCellsSameVals(now, Reprioritized(was, priority));
    SameVals(was, priority);
    forall c | c in now
      ensures c.priority == priority(c.val)
    {
      assert c in multiset(now) && c in Reprioritized(was, priority);
    }
  }

  /** What `Pop` does to the cells of a heap: one of least priority goes. */
  ghost predicate Pops<T>(s: multiset<Cell<T>>, c: Cell<T>) {
    c in s && forall d <- s :: c.priority <= d.priority
  }

  ghost predicate PopsAll<T>(s: multiset<Cell<T>>, cs: seq<Cell<T>>) {
    cs != [] ==> Pops(s, cs[0]) && PopsAll(s - multiset{cs[0]}, cs[1..])
  }

  /** `cells`, with the values `vals`, have been popped from the heap `all`, and `left` is what is left. */
  ghost predicate Popped<T>(all: seq<Cell<T>>, left: seq<Cell<T>>, cells: seq<Cell<T>>, vals: seq<T>) {
    && PopsAll(multiset(all), cells)
    && multiset(left) == multiset(all) - multiset(cells) && multiset(cells) <= multiset(all)
    && |vals| == |cells| && forall i | 0 <= i < |vals| :: vals[i] == cells[i].val
  }

  lemma NonePopped<T>(all: seq<Cell<T>>)
    ensures Popped(all, all, [], [])
  {
  }

  lemma OnePopped<T>(all: seq<Cell<T>>, was: seq<Cell<T>>, now: seq<Cell<T>>, cells: seq<Cell<T>>, vals: seq<T>, c: Cell<T>)
    requires Popped(all, was, cells, vals)
    requires c in was && (forall d <- was :: c.priority <= d.priority) && multiset(now) == multiset(was) - multiset{c}
    ensures Popped(all, now, cells + [c], vals + [c.val])
  {
    hide Pops;
    hide PopsAll;
    LeastPops(was, c);
    PopsAllMore(multiset(all), cells, c);
    assert multiset(cells + [c]) == multiset(cells) + multiset{c} && c in multiset(was);
    TakeOne(multiset(all), multiset(was), multiset(cells), c);
  }

  lemma TakeOne<T>(all: multiset<T>, left: multiset<T>, taken: multiset<T>, x: T)
    requires left == all - taken && taken <= all && x in left
    ensures left - multiset{x} == all - (taken + multiset{x}) && taken + multiset{x} <= all
  {
  }

  lemma AllPopped<T>(all: seq<Cell<T>>, cells: seq<Cell<T>>, vals: seq<T>)
    requires Popped(all, [], cells, vals)
    ensures |vals| == |cells| && forall i | 0 <= i < |vals| :: vals[i] == cells[i].val
    ensures multiset(cells) == multiset(all)
    ensures forall i, j | 0 <= i < j < |cells| :: cells[i].priority <= cells[j].priority
  {
    PopsAscend(multiset(all), cells);
    forall x
      ensures multiset(cells)[x] == multiset(all)[x]
    {
      assert (multiset(all) - multiset(cells))[x] == 0;
    }
  }

  lemma LeastPops<T>(s: seq<Cell<T>>, c: Cell<T>)
    requires c in s && forall d <- s :: c.priority <= d.priority
    ensures Pops(multiset(s), c)
  {
    forall d | d in multiset(s)
      ensures c.priority <= d.priority
    {
      assert d in s;
    }
  }

  lemma {:induction false} PopsAllMore<T>(s: multiset<Cell<T>>, cs: seq<Cell<T>>, c: Cell<T>)
    requires PopsAll(s, cs) && Pops(s - multiset(cs), c)
    ensures PopsAll(s, cs + [c])
  {
    hide Pops;
    if cs == [] {
      assert s - multiset(cs) == s && [c][1..] == [] && cs + [c] == [c];
    } else {
      var first, tail := cs[0], cs[1..];
      assert cs == [first] + tail && (cs + [c])[1..] == tail + [c];
      assert s - multiset(cs) == s - multiset{first} - multiset(tail);
      PopsAllMore(s - multiset{first}, tail, c);
    }
  }

  lemma {:induction false} PopsTake<T>(s: multiset<Cell<T>>, cs: seq<Cell<T>>)
    requires PopsAll(s, cs)
    ensures multiset(cs) <= s && |cs| <= |s|
  {
    if cs != [] {
      var c, tail := cs[0], cs[1..];
      assert c in s;
      hide Pops;
      PopsTake(s - multiset{c}, tail);
      assert cs == [c] + tail;
    }
  }

  /**
   * Popping again and again gives cells in order of priority, and popping all of them gives each as often as it was in.
   */
  lemma {:induction false} PopsAscend<T>(s: multiset<Cell<T>>, cs: seq<Cell<T>>)
    requires PopsAll(s, cs)
    ensures forall i, j | 0 <= i < j < |cs| :: cs[i].priority <= cs[j].priority
    ensures |cs| == |s| ==> multiset(cs) == s
  {
    PopsTake(s, cs);
    if |cs| == |s| {
      assert |s - multiset(cs)| == 0;
    }
    forall i, j | 0 <= i < j < |cs|
      ensures cs[i].priority <= cs[j].priority
    {
      PopsOrder(s, cs, i, j);
    }
  }

  lemma {:induction false} PopsOrder<T>(s: multiset<Cell<T>>, cs: seq<Cell<T>>, i: nat, j: nat)
    requires PopsAll(s, cs) && i < j < |cs|
    ensures cs[i].priority <= cs[j].priority
    decreases i
  {
    if i > 0 {
      PopsOrder(s - multiset{cs[0]}, cs[1..], i - 1, j - 1);
    } else {
      PopsTake(s, cs);
      assert cs[j] in multiset(cs);
    }
  }
}

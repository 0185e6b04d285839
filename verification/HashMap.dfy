/**
 * The resizing hash map with chaining of chutil/src/map.c, refining a finite map. A chain is a sequence instead of
 * linked nodes; keys are compared with `==` and hashed by a function, so equal keys hash alike.
 */
module HashMap {
  import opened Bytes

  datatype Entry<K, V> = Entry(hash: nat, key: K, val: V)

  type Chain<K, V> = seq<Entry<K, V>>
  type Chains<K, V> = seq<Chain<K, V>>

  predicate KeyIn<K(==), V>(chain: Chain<K, V>, k: K) {
    exists j | 0 <= j < |chain| :: chain[j].key == k
  }

  /** Entry `e` is a pair of `m` and belongs into chain `i` of `cap`. */
  predicate Fits<K(==), V(==)>(hash: K -> nat, m: map<K, V>, cap: nat, i: nat, e: Entry<K, V>)
    requires cap > 0
  {
    e.key in m && m[e.key] == e.val && e.hash == hash(e.key) && e.hash % cap == i
  }

  predicate Distinct<K(==), V>(chain: Chain<K, V>) {
    forall j, j' | 0 <= j < j' < |chain| :: chain[j].key != chain[j'].key
  }

  predicate ChainOk<K(==), V(==)>(hash: K -> nat, m: map<K, V>, cap: nat, i: nat, chain: Chain<K, V>)
    requires cap > 0
  {
    Distinct(chain) && forall j | 0 <= j < |chain| :: Fits(hash, m, cap, i, chain[j])
  }

  /** The chains hold exactly the pairs of `m`, each once, where its hash says. */
  predicate Represents<K(==), V(==)>(hash: K -> nat, cs: Chains<K, V>, m: map<K, V>) {
    && |cs| > 0
    && (forall i | 0 <= i < |cs| :: ChainOk(hash, m, |cs|, i, cs[i]))
    && (forall k <- m :: KeyIn(cs[hash(k) % |cs|], k))
  }

  function Slot<K>(hash: K -> nat, cap: nat, k: K): (i: nat)
    requires cap > 0
    ensures i < cap
  {
    hash(k) % cap
  }

  // ---------------------------------------------------------------- the three ways a chain changes

  /** Replacing one chain, when the map changes at one key of that chain only. */
  lemma ChainReplaced<K, V>(hash: K -> nat, cs: Chains<K, V>, m: map<K, V>, m': map<K, V>, k: K, chain: Chain<K, V>)
    requires Represents(hash, cs, m) && m - {k} == m' - {k}
    requires ChainOk(hash, m', |cs|, Slot(hash, |cs|, k), chain)
    requires forall x <- m' :: Slot(hash, |cs|, x) == Slot(hash, |cs|, k) ==> KeyIn(chain, x)
    ensures Represents(hash, cs[Slot(hash, |cs|, k) := chain], m')
  {
    var i := Slot(hash, |cs|, k);
    var cs' := cs[i := chain];
    forall i' | 0 <= i' < |cs| && i' != i
      ensures ChainOk(hash, m', |cs|, i', cs'[i'])
    {
      assert ChainOk(hash, m, |cs|, i', cs[i']);
      forall j | 0 <= j < |cs[i']|
        ensures Fits(hash, m', |cs|, i', cs[i'][j])
      {
        var e := cs[i'][j];
        assert Fits(hash, m, |cs|, i', e);
        assert e.key in m - {k} && m[e.key] == (m - {k})[e.key];
      }
    }
    forall x | x in m'
      ensures KeyIn(cs'[hash(x) % |cs|], x)
    {
      if Slot(hash, |cs|, x) != i {
        assert x in m' - {k} && x in m;
      }
    }
  }

  lemma Added<K, V>(hash: K -> nat, cs: Chains<K, V>, m: map<K, V>, k: K, v: V)
    requires Represents(hash, cs, m) && k !in m
    ensures var i := Slot(hash, |cs|, k);
            Represents(hash, cs[i := [Entry(hash(k), k, v)] + cs[i]], m[k := v])
  {
    var i, m' := Slot(hash, |cs|, k), m[k := v];
    var chain := [Entry(hash(k), k, v)] + cs[i];
    forall j | 0 <= j < |chain|
      ensures Fits(hash, m', |cs|, i, chain[j])
    {
      assert j > 0 ==> chain[j] == cs[i][j - 1] && Fits(hash, m, |cs|, i, cs[i][j - 1]);
    }
    forall x | x in m' && Slot(hash, |cs|, x) == i
      ensures KeyIn(chain, x)
    {
      if x == k {
        assert chain[0].key == k;
      } else {
        assert KeyIn(cs[i], x);
        var j :| 0 <= j < |cs[i]| && cs[i][j].key == x;
        assert chain[j + 1].key == x;
      }
    }
    ChainReplaced(hash, cs, m, m', k, chain);
  }

  lemma Updated<K, V>(hash: K -> nat, cs: Chains<K, V>, m: map<K, V>, j: nat, k: K, v: V)
    requires Represents(hash, cs, m)
    requires j < |cs[Slot(hash, |cs|, k)]| && cs[Slot(hash, |cs|, k)][j].key == k
    ensures var i := Slot(hash, |cs|, k);
            && Represents(hash, cs[i := cs[i][j := Entry(hash(k), k, v)]], m[k := v])
            && k in m && cs[i][j].hash == hash(k)
  {
    var i, m' := Slot(hash, |cs|, k), m[k := v];
    var chain := cs[i][j := Entry(hash(k), k, v)];
    assert Fits(hash, m, |cs|, i, cs[i][j]);
    forall j' | 0 <= j' < |chain|
      ensures Fits(hash, m', |cs|, i, chain[j'])
    {
      assert Fits(hash, m, |cs|, i, cs[i][j']);
      assert j' != j ==> cs[i][j'].key != k;
    }
    forall x | x in m' && Slot(hash, |cs|, x) == i
      ensures KeyIn(chain, x)
    {
      assert KeyIn(cs[i], x);
      var j' :| 0 <= j' < |cs[i]| && cs[i][j'].key == x;
      assert chain[j'].key == x;
    }
    ChainReplaced(hash, cs, m, m', k, chain);
  }

  lemma Removed<K, V>(hash: K -> nat, cs: Chains<K, V>, m: map<K, V>, j: nat, k: K)
    requires Represents(hash, cs, m)
    requires j < |cs[Slot(hash, |cs|, k)]| && cs[Slot(hash, |cs|, k)][j].key == k
    ensures var i := Slot(hash, |cs|, k);
            Represents(hash, cs[i := cs[i][..j] + cs[i][j + 1..]], m - {k}) && k in m
  {
    var i, m' := Slot(hash, |cs|, k), m - {k};
    var chain := cs[i][..j] + cs[i][j + 1..];
    assert ChainOk(hash, m, |cs|, i, cs[i]) && Fits(hash, m, |cs|, i, cs[i][j]);
    ChainWithout(hash, m, |cs|, i, cs[i], j);
    forall x | x in m' && Slot(hash, |cs|, x) == i
      ensures KeyIn(chain, x)
    {
      assert KeyIn(cs[i], x);
      var j' :| 0 <= j' < |cs[i]| && cs[i][j'].key == x;
      assert chain[if j' < j then j' else j' - 1].key == x;
    }
    ChainReplaced(hash, cs, m, m', k, chain);
  }

  lemma ChainWithout<K, V>(hash: K -> nat, m: map<K, V>, cap: nat, i: nat, chain: Chain<K, V>, j: nat)
    requires cap > 0 && ChainOk(hash, m, cap, i, chain) && j < |chain|
    ensures ChainOk(hash, m - {chain[j].key}, cap, i, chain[..j] + chain[j + 1..])
  {
    var rest := chain[..j] + chain[j + 1..];
    forall a | 0 <= a < |rest|
      ensures Fits(hash, m - {chain[j].key}, cap, i, rest[a])
    {
      var was := if a < j then a else a + 1;
      assert rest[a] == chain[was] && Fits(hash, m, cap, i, chain[was]);
    }
    forall a, b | 0 <= a < b < |rest|
      ensures rest[a].key != rest[b].key
    {
      assert rest[a] == chain[if a < j then a else a + 1] && rest[b] == chain[if b < j then b else b + 1];
    }
  }

  // ---------------------------------------------------------------- all entries in order

  function Flatten<K, V>(cs: Chains<K, V>): Chain<K, V> {
    if cs == [] then [] else cs[0] + Flatten(cs[1..])
  }

  /** Every entry of `s` is a pair of `m`, no key comes twice, and every key of `m` comes. */
  ghost predicate Enumerates<K, V>(s: Chain<K, V>, m: map<K, V>) {
    && (forall j | 0 <= j < |s| :: s[j].key in m && m[s[j].key] == s[j].val)
    && Distinct(s)
    && (forall k <- m :: KeyIn(s, k))
  }

  lemma {:induction false} FlattenFrom<K, V>(hash: K -> nat, cs: Chains<K, V>, m: map<K, V>, i: nat)
    requires Represents(hash, cs, m) && i <= |cs|
    ensures var s := Flatten(cs[i..]);
            (forall j | 0 <= j < |s| :: s[j].key in m && m[s[j].key] == s[j].val && i <= Slot(hash, |cs|, s[j].key))
            && Distinct(s)
            && (forall k <- m :: Slot(hash, |cs|, k) >= i ==> KeyIn(s, k))
    decreases |cs| - i
  {
    if i < |cs| {
      FlattenFrom(hash, cs, m, i + 1);
      var rest := Flatten(cs[i + 1..]);
      var s := cs[i] + rest;
      assert cs[i..][1..] == cs[i + 1..] && Flatten(cs[i..]) == s;
      forall j | 0 <= j < |s|
        ensures s[j].key in m && m[s[j].key] == s[j].val && i <= Slot(hash, |cs|, s[j].key)
        ensures j < |cs[i]| <==> Slot(hash, |cs|, s[j].key) == i
      {
        if j < |cs[i]| {
          assert Fits(hash, m, |cs|, i, cs[i][j]);
        } else {
          assert s[j] == rest[j - |cs[i]|];
        }
      }
      forall a, b | 0 <= a < b < |s|
        ensures s[a].key != s[b].key
      {
        if a >= |cs[i]| {
          assert s[a] == rest[a - |cs[i]|] && s[b] == rest[b - |cs[i]|];
        }
      }
      forall k | k in m && Slot(hash, |cs|, k) >= i
        ensures KeyIn(s, k)
      {
        if Slot(hash, |cs|, k) == i {
          var j :| 0 <= j < |cs[i]| && cs[i][j].key == k;
          assert s[j].key == k;
        } else {
          var j :| 0 <= j < |rest| && rest[j].key == k;
          assert s[|cs[i]| + j].key == k;
        }
      }
    }
  }

  lemma FlattenEnumerates<K, V>(hash: K -> nat, cs: Chains<K, V>, m: map<K, V>)
    requires Represents(hash, cs, m)
    ensures Enumerates(Flatten(cs), m)
  {
    FlattenFrom(hash, cs, m, 0);
    assert cs[0..] == cs;
  }

  // ---------------------------------------------------------------- the table

  class HashMap<K(==), V(==)> {
    const hash: K -> nat
    var chains: array<Chain<K, V>>
    var numKeys: nat
    // Where the iterator is: the chain and the place in it of the next pair; past all chains when exhausted.
    var iterChain: nat
    var iterPos: nat
    ghost var contents: map<K, V>

    ghost predicate Valid()
      reads `chains, `numKeys, `contents, chains
    {
      && Represents(hash, chains[..], contents)
      && numKeys == |contents| && 2 * numKeys <= chains.Length && chains.Length >= 8
    }

    constructor (hash: K -> nat)
      ensures Valid() && contents == map[] && this.hash == hash && fresh(chains)
    {
      this.hash := hash;
      chains := new Chain<K, V>[8](_ => []);
      numKeys, contents := 0, map[];
      iterChain, iterPos := 8, 0;
    }

    /** Walks the chain of `key`. */
    method FindInChain(key: K) returns (i: nat, j: nat)
      requires Valid()
      ensures i == Slot(hash, chains.Length, key) && j <= |chains[i]|
      ensures j < |chains[i]| ==> chains[i][j].key == key && key in contents && contents[key] == chains[i][j].val
      ensures j == |chains[i]| ==> key !in contents
    {
      var hashVal := hash(key);
      i := hashVal % chains.Length;
      j := 0;
      ghost var chain := chains[..][i];
      assert ChainOk(hash, contents, chains.Length, i, chain);
      while j < |chains[i]|
        invariant j <= |chain| && forall j' | 0 <= j' < j :: chain[j'].key != key
      {
        assert Fits(hash, contents, chains.Length, i, chain[j]);
        if chains[i][j].hash == hashVal && chains[i][j].key == key {
          return;
        }
        j := j + 1;
      }
      assert key in contents ==> KeyIn(chain, key);
    }

    method Get(key: K) returns (r: Option<V>)
      requires Valid()
      ensures r == if key in contents then Some(contents[key]) else None
    {
      var i, j := FindInChain(key);
      r := if j < |chains[i]| then Some(chains[i][j].val) else None;
    }

    /** Overwrites the value of the entry found at place `j` of chain `i`. */
    method Overwrite(key: K, value: V, i: nat, j: nat)
      requires Valid() && i == Slot(hash, chains.Length, key) && j < |chains[i]| && chains[i][j].key == key
      modifies `contents, chains
      ensures Valid() && contents == old(contents)[key := value]
    {
      hide KeyIn;
      hide Fits;
      ghost var cs := chains[..];
      Updated(hash, cs, contents, j, key, value);
      chains[i] := chains[i][j := chains[i][j].(val := value)];
      assert chains[..] == cs[i := cs[i][j := Entry(hash(key), key, value)]];
      contents := contents[key := value];
    }

    /** Puts a new entry in front of chain `i`. */
    method Insert(key: K, value: V, i: nat)
      requires Valid() && i == Slot(hash, chains.Length, key) && key !in contents
      modifies this, chains
      ensures Valid() && contents == old(contents)[key := value]
      ensures chains == old(chains) || fresh(chains)
    {
      hide KeyIn;
      hide Fits;
      hide Represents;
      ghost var cs := chains[..];
      Added(hash, cs, contents, key, value);
      chains[i] := [Entry(hash(key), key, value)] + chains[i];
      assert chains[..] == cs[i := [Entry(hash(key), key, value)] + cs[i]];
      contents := contents[key := value];
      numKeys := numKeys + 1;
      CheckResize();
    }

    method Put(key: K, value: V)
      requires Valid()
      modifies this, chains
      ensures Valid() && contents == old(contents)[key := value]
      ensures chains == old(chains) || fresh(chains)
    {
      var i, j := FindInChain(key);
      hide Represents;
      if j < |chains[i]| {
        Overwrite(key, value, i, j);
      } else {
        Insert(key, value, i);
      }
    }

    method Remove(key: K) returns (found: bool)
      requires Valid()
      modifies this, chains
      ensures Valid() && found == (key in old(contents)) && contents == old(contents) - {key}
      ensures chains == old(chains)
    {
      var i, j := FindInChain(key);
      hide Represents;
      if j == |chains[i]| {
        assert contents - {key} == contents;
        return false;
      }
      Unlink(key, i, j);
      found := true;
    }

    /** Takes the entry at place `j` out of chain `i`. */
    method Unlink(key: K, i: nat, j: nat)
      requires Valid() && i == Slot(hash, chains.Length, key) && j < |chains[i]| && chains[i][j].key == key
      modifies `contents, `numKeys, chains
      ensures Valid() && contents == old(contents) - {key}
    {
      hide KeyIn;
      hide ChainOk;
      ghost var cs := chains[..];
      Removed(hash, cs, contents, j, key);
      hide Represents;
      chains[i] := chains[i][..j] + chains[i][j + 1..];
      assert chains[..] == cs[i := cs[i][..j] + cs[i][j + 1..]];
      assert (contents - {key}).Keys == contents.Keys - {key};
      contents := contents - {key};
      numKeys := numKeys - 1;
    }

    /** Doubles the table when it is more than half full; one doubling is always enough. */
    method CheckResize()
      requires Represents(hash, chains[..], contents) && numKeys == |contents| && 2 * numKeys <= chains.Length + 2
      requires chains.Length >= 8
      modifies this`chains
      ensures Valid() && (chains == old(chains) || fresh(chains))
    {
      if numKeys * 2 <= chains.Length {
        return;
      }
      chains := Rehash();
    }

    /** A table of twice the size with all pairs moved into it. */
    method Rehash() returns (newChains: array<Chain<K, V>>)
      requires Represents(hash, chains[..], contents)
      ensures fresh(newChains) && newChains.Length == chains.Length * 2
      ensures Represents(hash, newChains[..], contents)
    {
      var newCap := chains.Length * 2;
      newChains := new Chain<K, V>[newCap](_ => []);
      ghost var cs, done := chains[..], map[];
      assert Represents(hash, newChains[..], done) && done == UpTo(hash, cs, contents, 0, 0);
      hide Represents;
      for i := 0 to chains.Length
        invariant chains[..] == cs && fresh(newChains) && newChains.Length == newCap
        invariant Represents(hash, newChains[..], done)
        invariant done == UpTo(hash, cs, contents, i, 0)
      {
        done := MoveChain(hash, chains[i], newChains, cs, contents, i, done);
      }
      assert done == contents;
    }

    // ------------------------------------------------------------ the iterator

    /** The iterator is either on an entry or exhausted. */
    ghost predicate IterOk()
      reads this, chains
    {
      iterChain < chains.Length ==> iterPos < |chains[iterChain]|
    }

    /** The entries the iterator has yet to yield, in order. */
    ghost function Remaining(): Chain<K, V>
      requires IterOk()
      reads this, chains
    {
      if iterChain < chains.Length
      then chains[iterChain][iterPos..] + Flatten(chains[..][iterChain + 1..])
      else []
    }

    /** Moves `iterChain` from `from` on to the first chain that is not empty. */
    method SeekChain(from: nat)
      requires from <= chains.Length
      modifies `iterChain, `iterPos
      ensures IterOk() && Remaining() == Flatten(chains[..][from..])
    {
      iterChain, iterPos := from, 0;
      while iterChain < chains.Length && chains[iterChain] == []
        invariant from <= iterChain <= chains.Length && iterPos == 0
        invariant Flatten(chains[..][iterChain..]) == Flatten(chains[..][from..])
        decreases chains.Length - iterChain
      {
        assert chains[..][iterChain..][1..] == chains[..][iterChain + 1..];
        iterChain := iterChain + 1;
      }
      if iterChain < chains.Length {
        assert chains[..][iterChain..][1..] == chains[..][iterChain + 1..];
      }
    }

    method ResetIterator()
      modifies `iterChain, `iterPos
      ensures IterOk() && Remaining() == Flatten(chains[..])
    {
      SeekChain(0);
      assert chains[..][0..] == chains[..];
    }

    /** Yields the next entry, or nothing when exhausted. */
    method Next() returns (r: Option<Entry<K, V>>)
      requires IterOk()
      modifies `iterChain, `iterPos
      ensures IterOk()
      ensures r.None? <==> old(Remaining()) == []
      ensures r.None? ==> Remaining() == []
      ensures r.Some? ==> old(Remaining()) == [r.value] + Remaining()
    {
      hide Flatten;
      if iterChain >= chains.Length {
        return None;
      }
      var chain := chains[iterChain];
      r := Some(chain[iterPos]);
      assert chain[iterPos..] == [chain[iterPos]] + chain[iterPos + 1..];
      if iterPos + 1 < |chain| {
        iterPos := iterPos + 1;
      } else {
        SeekChain(iterChain + 1);
      }
    }

    /** Whether both maps have the same keys, with values equal under `valEq`. */
    method Equals(other: HashMap<K, V>, valEq: (V, V) -> bool) returns (b: bool)
      requires Valid() && other.Valid()
      modifies `iterChain, `iterPos
      ensures b <==> SameMap(contents, other.contents, valEq)
    {
      hide Represents;
      hide SameMap;
      if numKeys != other.numKeys {
        DifferentSize(contents, other.contents, valEq);
        return false;
      }
      b := AllMatched(other, valEq);
    }

    /** Looks the next entry up in `other`, if there is one. */
    method MatchNext(other: HashMap<K, V>, valEq: (V, V) -> bool, ghost rest: Chain<K, V>) returns (more: bool, found: bool)
      requires Valid() && other.Valid() && IterOk() && Remaining() == rest
      modifies `iterChain, `iterPos
      ensures Valid() && other.Valid() && IterOk() && more == (rest != [])
      ensures more ==> Remaining() == rest[1..] && found == AgreeAt(other.contents, valEq, rest[0])
    {
      hide Represents;
      hide IterOk;
      hide Remaining;
      var next := Next();
      if next.None? {
        return false, false;
      }
      assert rest[1..] == Remaining();
      var val := other.Get(next.value.key);
      return true, val.Some? && valEq(next.value.val, val.value);
    }

    /** Looks every entry up in `other`, a map of the same size. */
    method AllMatched(other: HashMap<K, V>, valEq: (V, V) -> bool) returns (b: bool)
      requires Valid() && other.Valid() && |contents| == |other.contents|
      modifies `iterChain, `iterPos
      ensures b <==> SameMap(contents, other.contents, valEq)
    {
      hide Represents;
      hide SameMap;
      hide Enumerates;
      hide IterOk;
      hide Remaining;
      hide Flatten;
      hide AgreeAt;
      ghost var all, n := Flatten(chains[..]), 0;
      FlattenEnumerates(hash, chains[..], contents);
      ResetIterator();
      assert all[0..] == all;
      var more, found := MatchNext(other, valEq, all);
      while more
        invariant Valid() && other.Valid() && IterOk() && n <= |all|
        invariant more ==> n < |all| && Remaining() == all[n + 1..] && found == AgreeAt(other.contents, valEq, all[n])
        invariant !more ==> n == |all|
        invariant forall j | 0 <= j < n :: AgreeAt(other.contents, valEq, all[j])
        decreases |all| - n
      {
        if !found {
          Disagrees(all, n, contents, other.contents, valEq);
          return false;
        }
        n := n + 1;
        more, found := MatchNext(other, valEq, all[n..]);
      }
      AllAgree(all, contents, other.contents, valEq);
      return true;
    }
  }

  ghost predicate SameMap<K, V>(m: map<K, V>, m': map<K, V>, valEq: (V, V) -> bool) {
    m.Keys == m'.Keys && forall k <- m :: valEq(m[k], m'[k])
  }

  lemma DifferentSize<K, V>(m: map<K, V>, m': map<K, V>, valEq: (V, V) -> bool)
    requires |m| != |m'|
    ensures !SameMap(m, m', valEq)
  {
    assert |m.Keys| != |m'.Keys|;
  }

  /** One enumerated entry without a match is enough to tell two maps apart. */
  lemma Disagrees<K, V>(all: Chain<K, V>, n: nat, m: map<K, V>, m': map<K, V>, valEq: (V, V) -> bool)
    requires Enumerates(all, m) && n < |all| && !AgreeAt(m', valEq, all[n])
    ensures !SameMap(m, m', valEq)
  {
    assert all[n].key in m.Keys;
  }

  predicate AgreeAt<K(==), V>(m: map<K, V>, valEq: (V, V) -> bool, e: Entry<K, V>) {
    e.key in m && valEq(e.val, m[e.key])
  }

  lemma SubsetOfSameSize<T>(a: set<T>, b: set<T>)
    requires a <= b && |a| == |b|
    ensures a == b
  {
    assert |b - a| == |b| - |a|;
  }

  /** Two maps of the same size agree when every enumerated entry of one is matched in the other. */
  lemma AllAgree<K, V>(all: Chain<K, V>, m: map<K, V>, m': map<K, V>, valEq: (V, V) -> bool)
    requires Enumerates(all, m) && |m| == |m'|
    requires forall j | 0 <= j < |all| :: AgreeAt(m', valEq, all[j])
    ensures SameMap(m, m', valEq)
  {
    forall k | k in m
      ensures k in m' && valEq(m[k], m'[k])
    {
      assert KeyIn(all, k);
      var j :| 0 <= j < |all| && all[j].key == k;
      assert AgreeAt(m', valEq, all[j]);
    }
    assert |m.Keys| == |m'.Keys|;
    SubsetOfSameSize(m.Keys, m'.Keys);
  }

  // ---------------------------------------------------------------- moving to the doubled table

  /** The pairs of `m` in the chains before `i`, and in the first `j` places of chain `i`. */
  ghost function UpTo<K, V>(hash: K -> nat, cs: Chains<K, V>, m: map<K, V>, i: nat, j: nat): map<K, V>
    requires |cs| > 0 && (j > 0 ==> i < |cs| && j <= |cs[i]|)
  {
    map k | k in m && (Slot(hash, |cs|, k) < i || (j > 0 && KeyIn(cs[i][..j], k))) :: m[k]
  }

  lemma UpToStep<K, V>(hash: K -> nat, cs: Chains<K, V>, m: map<K, V>, i: nat, j: nat)
    requires Represents(hash, cs, m) && i < |cs| && j < |cs[i]|
    ensures var e := cs[i][j];
            && e.hash == hash(e.key) && e.key !in UpTo(hash, cs, m, i, j)
            && UpTo(hash, cs, m, i, j + 1) == UpTo(hash, cs, m, i, j)[e.key := e.val]
  {
    var e := cs[i][j];
    assert ChainOk(hash, m, |cs|, i, cs[i]) && Fits(hash, m, |cs|, i, e);
    forall k: K | k in m
      ensures KeyIn(cs[i][..j + 1], k) <==> KeyIn(cs[i][..j], k) || k == e.key
    {
      KeyInPrefix(cs[i], j, k);
    }
    assert !KeyIn(cs[i][..j], e.key);
  }

  lemma KeyInPrefix<K, V>(chain: Chain<K, V>, j: nat, k: K)
    requires j < |chain|
    ensures KeyIn(chain[..j + 1], k) <==> KeyIn(chain[..j], k) || k == chain[j].key
  {
    var long := chain[..j + 1];
    if KeyIn(long, k) {
      var a :| 0 <= a < |long| && long[a].key == k;
      assert a < j ==> chain[..j][a].key == k;
    }
    if KeyIn(chain[..j], k) {
      var a :| 0 <= a < j && chain[..j][a].key == k;
      assert long[a].key == k;
    }
    assert long[j] == chain[j];
  }

  lemma UpToNext<K, V>(hash: K -> nat, cs: Chains<K, V>, m: map<K, V>, i: nat)
    requires Represents(hash, cs, m) && i < |cs|
    ensures UpTo(hash, cs, m, i, |cs[i]|) == UpTo(hash, cs, m, i + 1, 0)
  {
    assert cs[i][..|cs[i]|] == cs[i];
    forall k | k in m
      ensures Slot(hash, |cs|, k) == i <==> KeyIn(cs[i], k)
    {
      if KeyIn(cs[i], k) {
        var j :| 0 <= j < |cs[i]| && cs[i][j].key == k;
        assert Fits(hash, m, |cs|, i, cs[i][j]);
      }
    }
  }

  /** Moves the nodes of chain `i` one by one to the heads of their chains in the new table. */
  method MoveChain<K, V>(ghost hash: K -> nat, chain: Chain<K, V>, newChains: array<Chain<K, V>>,
                         ghost cs: Chains<K, V>, ghost m: map<K, V>, ghost i: nat, ghost before: map<K, V>)
    returns (ghost done: map<K, V>)
    requires Represents(hash, cs, m) && i < |cs| && chain == cs[i]
    requires Represents(hash, newChains[..], before) && before == UpTo(hash, cs, m, i, 0)
    modifies newChains
    ensures Represents(hash, newChains[..], done) && done == UpTo(hash, cs, m, i + 1, 0)
  {
    done := before;
    for j := 0 to |chain|
      invariant Represents(hash, newChains[..], done) && done == UpTo(hash, cs, m, i, j)
    {
      var e := chain[j];
      UpToStep(hash, cs, m, i, j);
      ghost var now := newChains[..];
      Added(hash, now, done, e.key, e.val);
      var index := e.hash % newChains.Length;
      newChains[index] := [e] + newChains[index];
      assert newChains[..] == now[index := [e] + now[index]];
      done := done[e.key := e.val];
    }
    UpToNext(hash, cs, m, i);
  }
}

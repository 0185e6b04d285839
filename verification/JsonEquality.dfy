/** `json_equals` (chjson/src/json_helpers.c) on objects that are hash maps: equality of what two values mean. */
module JsonEquality {
  import opened Bytes
  import opened Json

  /** A JSON value without the order in which its objects happen to yield their pairs. */
  datatype Meaning =
    | MNull
    | MBoolean(b: bool)
    | MNumber(n: Double)
    | MStr(s: bytes)
    | MList(items: seq<Meaning>)
    | MObject(members: map<bytes, Meaning>)

  function MeaningOf(j: Json): Meaning
    decreases j
  {
    match j
    case Null => MNull
    case Boolean(b) => MBoolean(b)
    case Number(n) => MNumber(n)
    case Str(s) => MStr(CStr(s))
    case List(js) => MList(MeaningOfAll(js))
    case Object(ps) => MObject(Members(ps))
  }

  function MeaningOfAll(js: seq<Json>): (ms: seq<Meaning>)
    ensures |ms| == |js|
    decreases js
  {
    if js == [] then [] else [MeaningOf(js[0])] + MeaningOfAll(js[1..])
  }

  function Members(ps: seq<Pair>): map<bytes, Meaning>
    decreases ps
  {
    if ps == [] then map[] else Members(ps[1..])[ps[0].key := MeaningOf(ps[0].val)]
  }

  function Lookup(ps: seq<Pair>, key: bytes): Option<Json> {
    if ps == [] then None else if ps[0].key == key then Some(ps[0].val) else Lookup(ps[1..], key)
  }

  /** Strings are compared as C strings. */
  predicate Equal(j: Json, j': Json)
    decreases j
  {
    match (j, j')
    case (Null, Null) => true
    case (Boolean(b), Boolean(b')) => b == b'
    case (Number(n), Number(n')) => n == n'
    case (Str(s), Str(s')) => CStr(s) == CStr(s')
    case (List(js), List(js')) => |js| == |js'| && AllEqual(js, js')
    case (Object(ps), Object(ps')) => |ps| == |ps'| && AllFound(ps, ps')
    case _ => false
  }

  predicate AllEqual(js: seq<Json>, js': seq<Json>)
    requires |js| == |js'|
    decreases js
  {
    js != [] ==> Equal(js[0], js'[0]) && AllEqual(js[1..], js'[1..])
  }

  /** Every pair of `ps` has its like in `ps'`. */
  predicate AllFound(ps: seq<Pair>, ps': seq<Pair>)
    decreases ps
  {
    ps != [] ==>
      (match Lookup(ps', ps[0].key) case None => false case Some(v) => Equal(ps[0].val, v)) && AllFound(ps[1..], ps')
  }

  /** What a hash map guarantees: no key twice in any object. */
  predicate DistinctKeys(j: Json)
    decreases j
  {
    match j
    case List(js) => AllDistinct(js)
    case Object(ps) => PairsDistinct(ps)
    case _ => true
  }

  predicate AllDistinct(js: seq<Json>)
    decreases js
  {
    js != [] ==> DistinctKeys(js[0]) && AllDistinct(js[1..])
  }

  predicate PairsDistinct(ps: seq<Pair>)
    decreases ps
  {
    ps != [] ==> Lookup(ps[1..], ps[0].key).None? && DistinctKeys(ps[0].val) && PairsDistinct(ps[1..])
  }

  // ---------------------------------------------------------------- equality is sameness of meaning

  lemma {:induction false} LookupMeans(ps: seq<Pair>, key: bytes)
    ensures Lookup(ps, key).Some? <==> key in Members(ps)
    ensures Lookup(ps, key).Some? ==> Members(ps)[key] == MeaningOf(Lookup(ps, key).value)
    ensures Lookup(ps, key).Some? && PairsDistinct(ps) ==> DistinctKeys(Lookup(ps, key).value)
  {
    if ps != [] {
      LookupMeans(ps[1..], key);
    }
  }

  lemma {:induction false} AsManyMembers(ps: seq<Pair>)
    requires PairsDistinct(ps)
    ensures |Members(ps)| == |ps|
  {
    if ps != [] {
      AsManyMembers(ps[1..]);
      LookupMeans(ps[1..], ps[0].key);
    }
  }

  ghost predicate Included(m: map<bytes, Meaning>, m': map<bytes, Meaning>) {
    forall k <- m :: k in m' && m[k] == m'[k]
  }

  lemma {:induction false} AllFoundMeans(ps: seq<Pair>, ps': seq<Pair>)
    requires PairsDistinct(ps) && PairsDistinct(ps')
    ensures AllFound(ps, ps') <==> Included(Members(ps), Members(ps'))
    decreases ps, 0
  {
    if ps != [] {
      var key := ps[0].key;
      AllFoundMeans(ps[1..], ps');
      LookupMeans(ps', key);
      LookupMeans(ps[1..], key);
      if Lookup(ps', key).Some? {
        EqualIffSameMeaning(ps[0].val, Lookup(ps', key).value);
      }
      Extended(Members(ps[1..]), key, MeaningOf(ps[0].val), Members(ps'));
    }
  }

  lemma Extended(m: map<bytes, Meaning>, k: bytes, v: Meaning, m': map<bytes, Meaning>)
    requires k !in m
    ensures Included(m[k := v], m') <==> Included(m, m') && k in m' && m'[k] == v
  {
    if Included(m[k := v], m') {
      assert k in m[k := v];
      forall x | x in m
        ensures x in m' && m[x] == m'[x]
      {
        assert x in m[k := v];
      }
    }
  }

  lemma SameSizeIncluded(m: map<bytes, Meaning>, m': map<bytes, Meaning>)
    requires |m| == |m'|
    ensures Included(m, m') <==> m == m'
  {
    if Included(m, m') {
      assert |m.Keys| == |m| && |m'.Keys| == |m'|;
      assert |m'.Keys - m.Keys| == |m'.Keys| - |m.Keys|;
    }
  }

  lemma {:induction false} AllEqualMeans(js: seq<Json>, js': seq<Json>)
    requires |js| == |js'| && AllDistinct(js) && AllDistinct(js')
    ensures AllEqual(js, js') <==> MeaningOfAll(js) == MeaningOfAll(js')
    decreases js, 0
  {
    if js != [] {
      EqualIffSameMeaning(js[0], js'[0]);
      AllEqualMeans(js[1..], js'[1..]);
      var m, m' := MeaningOfAll(js), MeaningOfAll(js');
      assert m[0] == MeaningOf(js[0]) && m'[0] == MeaningOf(js'[0]);
      assert m[1..] == MeaningOfAll(js[1..]) && m'[1..] == MeaningOfAll(js'[1..]);
    }
  }

  /** Two values are equal exactly when they mean the same: the order of an object's pairs does not matter. */
  lemma {:induction false} EqualIffSameMeaning(j: Json, j': Json)
    requires DistinctKeys(j) && DistinctKeys(j')
    ensures Equal(j, j') <==> MeaningOf(j) == MeaningOf(j')
    decreases j, 1
  {
    match (j, j')
    case (List(js), List(js')) =>
      if |js| == |js'| {
        AllEqualMeans(js, js');
      }
    case (Object(ps), Object(ps')) =>
      AsManyMembers(ps);
      AsManyMembers(ps');
      AllFoundMeans(ps, ps');
      if |ps| == |ps'| {
        SameSizeIncluded(Members(ps), Members(ps'));
      }
    case _ =>
  }

  // ---------------------------------------------------------------- the objects the parser builds

  /** Putting a pair is updating the map, and keeps keys distinct. */
  lemma {:induction false} PutUpdates(ps: seq<Pair>, p: Pair)
    requires PairsDistinct(ps) && DistinctKeys(p.val)
    ensures Members(Put(ps, p)) == Members(ps)[p.key := MeaningOf(p.val)]
    ensures PairsDistinct(Put(ps, p))
    ensures forall k :: k != p.key ==> Lookup(Put(ps, p), k) == Lookup(ps, k)
  {
    if ps != [] && ps[0].key != p.key {
      PutUpdates(ps[1..], p);
    }
  }

  lemma {:induction false} ValueDistinct(nums: Numerals, s: bytes)
    requires Value(nums, s).Good?
    ensures DistinctKeys(Value(nums, s).value)
    decreases |s|, 1
  {
    if s[0] == OPEN_OBJECT {
      var t := Trim(s[1..]);
      if t[0] != CLOSE_OBJECT {
        KvpDistinct(nums, t);
        PairsReadDistinct(nums, Kvp(nums, t).rest, [Kvp(nums, t).value]);
      }
    } else if s[0] == OPEN_LIST {
      var t := Trim(s[1..]);
      if t[0] != CLOSE_LIST {
        ValueDistinct(nums, t);
        ItemsDistinct(nums, Value(nums, t).rest, [Value(nums, t).value]);
      }
    }
  }

  lemma {:induction false} KvpDistinct(nums: Numerals, s: bytes)
    requires Kvp(nums, s).Good?
    ensures DistinctKeys(Kvp(nums, s).value.val)
    decreases |s|, 2
  {
    ValueDistinct(nums, Trim(Trim(Quoted(s).rest)[1..]));
  }

  lemma {:induction false} ItemsDistinct(nums: Numerals, s: bytes, js: seq<Json>)
    requires Items(nums, s, js).Good? && AllDistinct(js)
    ensures DistinctKeys(Items(nums, s, js).value)
    decreases |s|, 2
  {
    var t := Trim(s);
    if t[0] != CLOSE_LIST {
      var next := Trim(t[1..]);
      ValueDistinct(nums, next);
      OneMoreDistinct(js, Value(nums, next).value);
      ItemsDistinct(nums, Value(nums, next).rest, js + [Value(nums, next).value]);
    }
  }

  lemma {:induction false} OneMoreDistinct(js: seq<Json>, j: Json)
    requires AllDistinct(js) && DistinctKeys(j)
    ensures AllDistinct(js + [j])
  {
    if js != [] {
      OneMoreDistinct(js[1..], j);
      assert (js + [j])[1..] == js[1..] + [j];
    }
  }

  lemma {:induction false} PairsReadDistinct(nums: Numerals, s: bytes, ps: seq<Pair>)
    requires Pairs(nums, s, ps).Good? && PairsDistinct(ps)
    ensures DistinctKeys(Pairs(nums, s, ps).value)
    decreases |s|, 2
  {
    var t := Trim(s);
    if t[0] != CLOSE_OBJECT {
      var next := Trim(t[1..]);
      KvpDistinct(nums, next);
      PutUpdates(ps, Kvp(nums, next).value);
      PairsReadDistinct(nums, Kvp(nums, next).rest, Put(ps, Kvp(nums, next).value));
    }
  }
}

// Whole runs of the hash table: any sequence of operations behaves as on a finite map.
module HashTableRuns {
  import opened Numbers
  import opened HashTable

  datatype Op<V> = Put(key: Key, val: V) | Get(key: Key) | Del(key: Key)

  datatype Outcome<V> = Stored | Exists | Found(val: V) | Missing | Freed

  /** The operations on a finite map: hset does not overwrite. */
  function Step<V>(m: map<Key, V>, op: Op<V>): (r: (map<Key, V>, Outcome<V>)) {
    match op
    case Put(k, v) => if k in m then (m, Exists) else (m[k := v], Outcome.Stored)
    case Get(k) => if k in m then (m, Found(m[k])) else (m, Missing)
    case Del(k) => if k in m then (m - {k}, Freed) else (m, Missing)
  }

  function After<V>(m: map<Key, V>, ops: seq<Op<V>>): map<Key, V> {
    if ops == [] then m else Step(After(m, ops[..|ops| - 1]), ops[|ops| - 1]).0
  }

  function Outcomes<V>(m: map<Key, V>, ops: seq<Op<V>>): (os: seq<Outcome<V>>)
    ensures |os| == |ops|
  {
    if ops == [] then []
    else Outcomes(m, ops[..|ops| - 1]) + [Step(After(m, ops[..|ops| - 1]), ops[|ops| - 1]).1]
  }

  /** The i-th outcome is that of the i-th operation on the map that the ones before it leave. */
  lemma {:induction false} OutcomesAt<V>(m: map<Key, V>, ops: seq<Op<V>>, i: nat)
    requires i < |ops|
    ensures Outcomes(m, ops)[i] == Step(After(m, ops[..i]), ops[i]).1
  {
    if i < |ops| - 1 {
      OutcomesAt(m, ops[..|ops| - 1], i);
      assert ops[..|ops| - 1][..i] == ops[..i];
    } else {
      assert ops[..i] == ops[..|ops| - 1];
    }
  }

  predicate Touches<V>(op: Op<V>, k: Key) {
    op.key == k
  }

  /** The first value put under a key stays until the key is deleted, and meanwhile it is what Get finds
      and other values are refused. */
  lemma {:induction false} FirstPutStays<V>(m: map<Key, V>, ops: seq<Op<V>>, k: Key, v: V)
    requires k in m && m[k] == v && forall i | 0 <= i < |ops| && Touches(ops[i], k) :: !ops[i].Del?
    ensures k in After(m, ops) && After(m, ops)[k] == v
    ensures forall i | 0 <= i < |ops| && Touches(ops[i], k) ::
              Outcomes(m, ops)[i] == if ops[i].Get? then Found(v) else Exists
  {
    if ops != [] {
      var front, last := ops[..|ops| - 1], ops[|ops| - 1];
      FirstPutStays(m, front, k, v);
      assert Touches(last, k) ==> !last.Del?;
    }
  }

  /** A key that is not there stays away until it is put, and until then Get and Del do not find it. */
  lemma {:induction false} AbsentUntilPut<V>(m: map<Key, V>, ops: seq<Op<V>>, k: Key)
    requires k !in m && forall i | 0 <= i < |ops| && Touches(ops[i], k) :: !ops[i].Put?
    ensures k !in After(m, ops)
    ensures forall i | 0 <= i < |ops| && Touches(ops[i], k) :: Outcomes(m, ops)[i] == Missing
  {
    if ops != [] {
      var front, last := ops[..|ops| - 1], ops[|ops| - 1];
      AbsentUntilPut(m, front, k);
      assert Touches(last, k) ==> !last.Put?;
    }
  }

  /** Exactly a put of an absent key stores and exactly a deletion of a present one frees, and no
      operation touches another key. */
  lemma StepExactly<V>(m: map<Key, V>, op: Op<V>)
    ensures Step(m, op).1 == Outcome.Stored <==> op.Put? && op.key !in m
    ensures Step(m, op).1 == Freed <==> op.Del? && op.key in m
    ensures forall k :: k in Step(m, op).0 <==> if k == op.key then op.Put? || (k in m && !op.Del?) else k in m
    ensures forall k | k in Step(m, op).0 && k in m :: Step(m, op).0[k] == m[k]
    ensures op.Put? && op.key !in m ==> op.key in Step(m, op).0 && Step(m, op).0[op.key] == op.val
  {
  }

  /** One operation on the table, as a client of hset, hget and hfree performs it. */
  method Perform<V>(t: HTab<V>, op: Op<V>) returns (o: Outcome<V>)
    requires t.Valid() && t.HCount() == |t.Map()| && 4 * t.HCount() < 3 * t.realsize
    modifies t, t.table, t.items
    ensures t.Valid() && t.HCount() == |t.Map()| && 4 * t.HCount() < 3 * t.realsize
    ensures fresh(t.items - old(t.items)) && fresh({t.table} - {old(t.table)})
    ensures (t.Map(), o) == Step(old(t.Map()), op)
  {
    hide HTab.Valid, HTab.Indexed, HTab.Map;
    TableIndexed(t);
    match op {
      case Put(k, v) =>
        OneMore(t.Map(), k, v);
        var r := t.HSet(k, v, 2);
        TableIndexed(t);
        o := if r == HEXISTS then Exists else Outcome.Stored;
      case Get(k) =>
        var it := t.HGet(k);
        o := if it == null then Missing else Found(it.val);
      case Del(k) =>
        o := Delete(t, k);
    }
  }

  method Delete<V>(t: HTab<V>, k: Key) returns (o: Outcome<V>)
    requires t.Valid() && t.HCount() == |t.Map()| && 4 * t.HCount() < 3 * t.realsize
    modifies t, t.table, t.items
    ensures t.Valid() && t.HCount() == |t.Map()| && 4 * t.HCount() < 3 * t.realsize
    ensures fresh(t.items - old(t.items)) && fresh({t.table} - {old(t.table)})
    ensures (t.Map(), o) == Step(old(t.Map()), Op.Del(k))
  {
    hide HTab.Linked, HTab.Keyed, HTab.Positioned, HTab.Map;
    OneLess(t.Map(), k);
    var it := t.HGet(k);
    if it != null {
      t.HFree(it);
      return Freed;
    } else {
      return Missing;
    }
  }

  lemma OneMore<K, V>(m: map<K, V>, k: K, v: V)
    ensures k !in m ==> |m[k := v]| == |m| + 1
  {
  }

  lemma OneLess<K, V>(m: map<K, V>, k: K)
    ensures k in m ==> |m - {k}| == |m| - 1
  {
  }

  /** Any run: the outcomes and the final contents are those of the finite map, whatever tombstones
      were reused and however often the table grew, and the load stays below three quarters. */
  method RunAll<V>(t: HTab<V>, ops: seq<Op<V>>) returns (os: seq<Outcome<V>>)
    requires t.Valid() && t.HCount() == |t.Map()| && 4 * t.HCount() < 3 * t.realsize
    modifies t, t.table, t.items
    ensures t.Valid() && t.Map() == After(old(t.Map()), ops) && os == Outcomes(old(t.Map()), ops)
    ensures t.HCount() == |t.Map()| && 4 * t.HCount() < 3 * t.realsize
  {
    hide HTab.Valid, HTab.Indexed, HTab.Map, Step;
    TableIndexed(t);
    ghost var m := t.Map();
    os := [];
    var i := 0;
    while i < |ops|
      invariant 0 <= i <= |ops|
      invariant t.Valid() && t.Indexed() && t.Map() == After(m, ops[..i]) && os == Outcomes(m, ops[..i])
      invariant t.HCount() == |t.Map()| && 4 * t.HCount() < 3 * t.realsize
      invariant fresh(t.items - old(t.items)) && fresh({t.table} - {old(t.table)})
    {
      var o := Perform(t, ops[i]);
      TableIndexed(t);
      os := os + [o];
      assert ops[..i + 1][..i] == ops[..i];
      i := i + 1;
    }
    assert ops[..|ops|] == ops;
  }

  lemma TableIndexed<V>(t: HTab<V>)
    requires t.Valid()
    ensures t.Indexed()
  {
  }
}

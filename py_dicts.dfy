/** Python dictionaries as the monitor uses them: insertion-ordered, with
    `d[k] = v` replacing the value of a present key in place and appending a
    new key at the end. A dictionary is its sequence of (key, value) items. */
module PyDicts {
  import opened Wrappers

  type Dict<K, V> = seq<(K, V)>

  /** `list(d.keys())` */
  function Keys<K, V>(d: Dict<K, V>): (ks: seq<K>)
    ensures |ks| == |d|
    ensures forall i :: 0 <= i < |d| ==> ks[i] == d[i].0
  {
    if d == [] then [] else [d[0].0] + Keys(d[1..])
  }

  /** `list(d.values())` */
  function Values<K, V>(d: Dict<K, V>): (vs: seq<V>)
    ensures |vs| == |d|
    ensures forall i :: 0 <= i < |d| ==> vs[i] == d[i].1
  {
    if d == [] then [] else [d[0].1] + Values(d[1..])
  }

  /** No key occurs twice: true of every dictionary built by `Assign`. */
  predicate UniqueKeys<K(==), V>(d: Dict<K, V>) {
    forall i, j :: 0 <= i < j < |d| ==> d[i].0 != d[j].0
  }

  /** `d.get(k)`, with `None` for a missing key. */
  function Get<K(==), V>(d: Dict<K, V>, k: K): (r: Option<V>)
    ensures r.None? <==> k !in Keys(d)
    ensures r.Some? ==> exists i :: 0 <= i < |d| && d[i] == (k, r.value)
  {
    if d == [] then None
    else if d[0].0 == k then Some(d[0].1)
    else
      var r := Get(d[1..], k);
      assert r.Some? ==> exists i :: 0 <= i < |d| && d[i] == (k, r.value) by {
        if r.Some? {
          var i :| 0 <= i < |d[1..]| && d[1..][i] == (k, r.value);
          assert d[i + 1] == (k, r.value);
        }
      }
      r
  }

  /** `d[k] = v` */
  function Assign<K(==), V>(d: Dict<K, V>, k: K, v: V): (r: Dict<K, V>)
  {
    if d == [] then [(k, v)]
    else if d[0].0 == k then [(k, v)] + d[1..]
    else [d[0]] + Assign(d[1..], k, v)
  }

  /** After `d[k] = v`, `k` maps to `v` and every other key keeps its value. */
  lemma {:induction false} AssignGet<K, V>(d: Dict<K, V>, k: K, v: V, k': K)
    ensures Get(Assign(d, k, v), k') == if k' == k then Some(v) else Get(d, k')
  {
    if d != [] && d[0].0 != k {
      AssignGet(d[1..], k, v, k');
      assert Assign(d, k, v)[1..] == Assign(d[1..], k, v);
    }
  }

  /** After `d[k] = v` the keys keep their order, and a new key goes last. */
  lemma {:induction false} AssignKeys<K, V>(d: Dict<K, V>, k: K, v: V)
    ensures Keys(Assign(d, k, v)) == if k in Keys(d) then Keys(d) else Keys(d) + [k]
  {
    if d != [] {
      if d[0].0 == k {
        assert Keys(Assign(d, k, v)) == [k] + Keys(d[1..]);
      } else {
        AssignKeys(d[1..], k, v);
        assert Assign(d, k, v)[1..] == Assign(d[1..], k, v);
        assert Keys(Assign(d, k, v)) == [d[0].0] + Keys(Assign(d[1..], k, v));
        assert Keys(d) == [d[0].0] + Keys(d[1..]);
      }
    }
  }

  /** Assigning a key the dictionary lacks appends one item. */
  lemma {:induction false} AssignNew<K, V>(d: Dict<K, V>, k: K, v: V)
    requires k !in Keys(d)
    ensures Assign(d, k, v) == d + [(k, v)]
  {
    if d != [] {
      assert Keys(d) == [d[0].0] + Keys(d[1..]);
      AssignNew(d[1..], k, v);
      assert d == [d[0]] + d[1..];
    }
  }

  /** Keys stay unique under assignment. */
  lemma AssignUnique<K, V>(d: Dict<K, V>, k: K, v: V)
    requires UniqueKeys(d)
    ensures UniqueKeys(Assign(d, k, v))
  {
    var r := Assign(d, k, v);
    AssignKeys(d, k, v);
    var ks := Keys(r);
    forall i, j | 0 <= i < j < |r| ensures r[i].0 != r[j].0 {
      assert ks[i] == r[i].0 && ks[j] == r[j].0;
      if j == |d| {
        assert ks[j] == k && k !in Keys(d);
        assert ks[i] == Keys(d)[i];
      } else {
        assert ks[i] == Keys(d)[i] && ks[j] == Keys(d)[j];
      }
    }
  }

  /** The dictionary built by `d[ks[0]] = vs[0]; d[ks[1]] = vs[1]; ...` from empty. */
  function AssignAll<K(==), V>(ks: seq<K>, vs: seq<V>): Dict<K, V>
    requires |ks| == |vs|
  {
    if ks == [] then []
    else Assign(AssignAll(ks[..|ks| - 1], vs[..|vs| - 1]), ks[|ks| - 1], vs[|vs| - 1])
  }

  /** Assigning a list of keys in turn leaves each key once, and exactly the listed keys. */
  lemma {:induction false} AssignAllKeys<K, V>(ks: seq<K>, vs: seq<V>)
    requires |ks| == |vs|
    ensures UniqueKeys(AssignAll(ks, vs))
    ensures forall k :: k in Keys(AssignAll(ks, vs)) <==> k in ks
  {
    if ks != [] {
      var n := |ks| - 1;
      var d := AssignAll(ks[..n], vs[..n]);
      var r := Assign(d, ks[n], vs[n]);
      assert AssignAll(ks, vs) == r;
      AssignAllKeys(ks[..n], vs[..n]);
      assert UniqueKeys(r) by { AssignUnique(d, ks[n], vs[n]); }
      assert Keys(r) == if ks[n] in Keys(d) then Keys(d) else Keys(d) + [ks[n]] by {
        AssignKeys(d, ks[n], vs[n]);
      }
      forall k ensures k in Keys(r) <==> k in ks {
        assert ks == ks[..n] + [ks[n]];
        assert k in ks <==> k in ks[..n] || k == ks[n];
      }
    }
  }

  /** `ks[i]` is not assigned again after position `i`. */
  predicate LastAssignment<K(==)>(ks: seq<K>, i: nat)
    requires i < |ks|
  {
    forall j :: i < j < |ks| ==> ks[j] != ks[i]
  }

  /** Assigning a list of keys in turn, each key holds the value of its last assignment. */
  lemma {:induction false} AssignAllGet<K, V>(ks: seq<K>, vs: seq<V>, i: nat)
    requires |ks| == |vs| && i < |ks| && LastAssignment(ks, i)
    ensures Get(AssignAll(ks, vs), ks[i]) == Some(vs[i])
  {
    var n := |ks| - 1;
    var d := AssignAll(ks[..n], vs[..n]);
    assert AssignAll(ks, vs) == Assign(d, ks[n], vs[n]);
    AssignGet(d, ks[n], vs[n], ks[i]);
    if i == n {
      assert ks[i] == ks[n] && vs[i] == vs[n];
    } else {
      var ks', vs' := ks[..n], vs[..n];
      assert ks'[i] == ks[i] && vs'[i] == vs[i];
      forall j | i < j < |ks'| ensures ks'[j] != ks'[i] {
        assert ks'[j] == ks[j];
      }
      AssignAllGet(ks', vs', i);
    }
  }
}

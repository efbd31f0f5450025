/** Python's `OrderedDict`, as far as the core uses it: built from a list of
    (key, value) pairs, where a repeated key keeps the position of its first
    insertion and takes the value of its last. */
module OrderedDicts {
  import opened Wrappers

  /** The entries of an ordered dictionary, in insertion order. */
  type Dict<K, V> = seq<(K, V)>

  function Keys<K, V>(d: seq<(K, V)>): seq<K> {
    seq(|d|, i requires 0 <= i < |d| => d[i].0)
  }

  predicate UniqueKeys<K(==), V>(d: Dict<K, V>) {
    forall i, j :: 0 <= i < j < |d| ==> d[i].0 != d[j].0
  }

  /** `d.get(k)`: the value stored under `k`, if any. */
  function Get<K(==,!new), V>(d: Dict<K, V>, k: K): Option<V> {
    if k in Keys(d) then Some(d[FirstIndex(Keys(d), k)].1) else None
  }

  /** `d[k] = v`: overwrites the value of an existing key where it stands,
      or appends a new entry at the end. */
  function Put<K(==,!new), V>(d: Dict<K, V>, k: K, v: V): (r: Dict<K, V>)
    ensures Keys(r) == if k in Keys(d) then Keys(d) else Keys(d) + [k]
    ensures UniqueKeys(d) ==> UniqueKeys(r)
  {
    if k in Keys(d) then
      var i := FirstIndex(Keys(d), k);
      assert Keys(d[i := (k, v)]) == Keys(d);
      d[i := (k, v)]
    else
      assert Keys(d + [(k, v)]) == Keys(d) + [k];
      assert forall i :: 0 <= i < |d| ==> d[i].0 == Keys(d)[i];
      d + [(k, v)]
  }

  /** After `d[k] = v`, `k` maps to `v` and every other key to what it did before. */
  lemma PutGet<K(!new), V>(d: Dict<K, V>, k: K, v: V, k': K)
    ensures Get(Put(d, k, v), k) == Some(v)
    ensures k' != k ==> Get(Put(d, k, v), k') == Get(d, k')
  {
    if k !in Keys(d) && k' in Keys(d) {
      FirstIndexAppend(Keys(d), k, k');
    }
  }

  /** `OrderedDict(pairs)`: the pairs inserted one after the other. */
  function FromPairs<K(==,!new), V>(ps: seq<(K, V)>): (d: Dict<K, V>)
    ensures UniqueKeys(d)
    ensures |d| <= |ps|
  {
    if ps == [] then []
    else Put(FromPairs(ps[..|ps| - 1]), ps[|ps| - 1].0, ps[|ps| - 1].1)
  }

  /** The value of the last pair in `ps` whose key is `k`. */
  function LastValue<K(==,!new), V>(ps: seq<(K, V)>, k: K): Option<V> {
    if ps == [] then None
    else if ps[|ps| - 1].0 == k then Some(ps[|ps| - 1].1)
    else LastValue(ps[..|ps| - 1], k)
  }

  /** The position of the first occurrence of `k` in `ks`. */
  function FirstIndex<K(==,!new)>(ks: seq<K>, k: K): (i: nat)
    requires k in ks
    ensures i < |ks| && ks[i] == k
    ensures forall j :: 0 <= j < i ==> ks[j] != k
  {
    if ks[0] == k then 0 else 1 + FirstIndex(ks[1..], k)
  }

  lemma {:induction false} FirstIndexAppend<K(!new)>(a: seq<K>, x: K, k: K)
    requires k in a + [x]
    ensures k in a ==> FirstIndex(a + [x], k) == FirstIndex(a, k)
    ensures k !in a ==> FirstIndex(a + [x], k) == |a|
  {
    var i := FirstIndex(a + [x], k);
    if k in a {
      var j := FirstIndex(a, k);
      assert (a + [x])[j] == k;
      assert i <= j;
      assert a[i] == k;
    } else {
      assert (a + [x])[|a|] == k;
    }
  }

  lemma KeysOfPrefix<K, V>(ps: seq<(K, V)>)
    requires ps != []
    ensures Keys(ps) == Keys(ps[..|ps| - 1]) + [ps[|ps| - 1].0]
  {
  }

  /** The dictionary has exactly the keys of the pairs. */
  lemma {:induction false} FromPairsKeys<K(!new), V>(ps: seq<(K, V)>, k: K)
    ensures k in Keys(FromPairs(ps)) <==> k in Keys(ps)
  {
    if ps != [] {
      FromPairsKeys(ps[..|ps| - 1], k);
      KeysOfPrefix(ps);
    }
  }

  /** The value under each key is that of the last pair with that key. */
  lemma {:induction false} FromPairsGet<K(!new), V>(ps: seq<(K, V)>, k: K)
    ensures Get(FromPairs(ps), k) == LastValue(ps, k)
  {
    if ps != [] {
      FromPairsGet(ps[..|ps| - 1], k);
      PutGet(FromPairs(ps[..|ps| - 1]), ps[|ps| - 1].0, ps[|ps| - 1].1, k);
    }
  }

  /** Keys stand in the order of their first occurrence among the pairs. */
  lemma {:induction false} FromPairsOrder<K(!new), V>(ps: seq<(K, V)>, p: nat, q: nat)
    requires p < q < |FromPairs(ps)|
    ensures FromPairs(ps)[p].0 in Keys(ps) && FromPairs(ps)[q].0 in Keys(ps)
    ensures FirstIndex(Keys(ps), FromPairs(ps)[p].0) < FirstIndex(Keys(ps), FromPairs(ps)[q].0)
  {
    var init := ps[..|ps| - 1];
    var (k, v) := ps[|ps| - 1];
    var d', d := FromPairs(init), FromPairs(ps);
    KeysOfPrefix(ps);
    var kp, kq := d[p].0, d[q].0;
    assert Keys(d)[p] == kp && Keys(d)[q] == kq;
    if q < |d'| {
      assert Keys(d')[p] == kp && Keys(d')[q] == kq;
      FromPairsOrder(init, p, q);
      FirstIndexAppend(Keys(init), k, kp);
      FirstIndexAppend(Keys(init), k, kq);
    } else {
      assert k !in Keys(d') && kq == k;
      FromPairsKeys(init, k);
      assert Keys(d')[p] == kp;
      FromPairsKeys(init, kp);
      FirstIndexAppend(Keys(init), k, kp);
      FirstIndexAppend(Keys(init), k, kq);
    }
  }

  /** Pairs whose keys are already distinct are taken over one for one. */
  lemma {:induction false} FromPairsUnique<K(!new), V>(ps: seq<(K, V)>)
    requires UniqueKeys(ps)
    ensures FromPairs(ps) == ps
  {
    if ps != [] {
      var init, last := ps[..|ps| - 1], ps[|ps| - 1];
      assert UniqueKeys(init) by {
        forall i, j | 0 <= i < j < |init| ensures init[i].0 != init[j].0 {
          assert init[i] == ps[i] && init[j] == ps[j];
        }
      }
      FromPairsUnique(init);
      assert last.0 !in Keys(init) by {
        forall i | 0 <= i < |init| ensures Keys(init)[i] != last.0 {
          assert init[i] == ps[i];
        }
      }
      calc {
        FromPairs(ps);
        Put(init, last.0, last.1);
        init + [last];
        ps;
      }
    }
  }
}

/** Python's insertion-ordered `dict`, as a list of key/value pairs with
    distinct keys. Assigning to an existing key keeps its position and
    replaces its value; a new key goes to the end. */
module Dicts {

  type Dict<K, V> = seq<(K, V)>

  function Keys<K, V>(d: Dict<K, V>): (r: seq<K>)
    ensures |r| == |d| && forall i :: 0 <= i < |d| ==> r[i] == d[i].0
  {
    seq(|d|, i requires 0 <= i < |d| => d[i].0)
  }

  /** No key appears twice. */
  ghost predicate Wf<K, V>(d: Dict<K, V>) {
    forall i, j :: 0 <= i < j < |d| ==> d[i].0 != d[j].0
  }

  /** `k in d` */
  predicate Has<K(==), V>(d: Dict<K, V>, k: K) {
    k in Keys(d)
  }

  /** The position of key `k`: the first pair that carries it. */
  function KeyIndex<K(==), V>(d: Dict<K, V>, k: K): (i: nat)
    requires Has(d, k)
    ensures i < |d| && d[i].0 == k
    ensures forall j :: 0 <= j < i ==> d[j].0 != k
  {
    if d[0].0 == k then 0
    else
      assert Keys(d[1..]) == Keys(d)[1..];
      KeyIndex(d[1..], k) + 1
  }

  /** `d[k]` */
  function Get<K(==), V>(d: Dict<K, V>, k: K): V
    requires Has(d, k)
  {
    d[KeyIndex(d, k)].1
  }

  /** The first pair carrying `k` is the one `KeyIndex` finds. */
  lemma KeyIndexAt<K, V>(d: Dict<K, V>, k: K, i: nat)
    requires i < |d| && d[i].0 == k && forall j :: 0 <= j < i ==> d[j].0 != k
    ensures Has(d, k) && KeyIndex(d, k) == i
  {
    assert Keys(d)[i] == k;
  }

  /** `d[k] = v` */
  function Set<K(==), V>(d: Dict<K, V>, k: K, v: V): (r: Dict<K, V>)
    ensures Keys(r) == if Has(d, k) then Keys(d) else Keys(d) + [k]
    ensures Wf(d) ==> Wf(r)
    ensures Has(r, k) && Get(r, k) == v
    ensures forall k' :: k' in Keys(d) && k' != k ==> Get(r, k') == Get(d, k')
  {
    if Has(d, k) then
      var i := KeyIndex(d, k);
      var r := d[i := (k, v)];
      assert Keys(r) == Keys(d);
      KeyIndexAt(r, k, i);
      forall k' | k' in Keys(d) && k' != k ensures Get(r, k') == Get(d, k') {
        KeyIndexAt(r, k', KeyIndex(d, k'));
      }
      r
    else
      var r := d + [(k, v)];
      assert Keys(r) == Keys(d) + [k];
      KeyIndexAt(r, k, |d|);
      forall k' | k' in Keys(d) && k' != k ensures Get(r, k') == Get(d, k') {
        KeyIndexAt(r, k', KeyIndex(d, k'));
      }
      r
  }

  /** Assigning a key twice is assigning it once with the later value:
      the later assignment overrides the earlier one in place. */
  lemma SetTwice<K, V>(d: Dict<K, V>, k: K, v1: V, v2: V)
    ensures Set(Set(d, k, v1), k, v2) == Set(d, k, v2)
  {
    if Has(d, k) {
      var i := KeyIndex(d, k);
      var d1 := d[i := (k, v1)];
      assert Set(d, k, v1) == d1;
      KeyIndexAt(d1, k, i);
      assert d1[i := (k, v2)] == d[i := (k, v2)];
    } else {
      var d1 := d + [(k, v1)];
      assert Set(d, k, v1) == d1;
      KeyIndexAt(d1, k, |d|);
      assert !Has(d, k);
      assert d1[|d| := (k, v2)] == d + [(k, v2)];
    }
  }

  /** `dict(pairs)`: the pairs are assigned one after another. */
  function FromPairs<K(==), V>(ps: seq<(K, V)>): Dict<K, V> {
    if ps == [] then [] else Set(FromPairs(ps[..|ps| - 1]), ps[|ps| - 1].0, ps[|ps| - 1].1)
  }

  /** `dict(pairs)` holds every key once. */
  lemma {:induction false} FromPairsWf<K, V>(ps: seq<(K, V)>)
    ensures Wf(FromPairs(ps))
  {
    if ps != [] {
      FromPairsWf(ps[..|ps| - 1]);
    }
  }

  /** A key is in `dict(pairs)` exactly when some pair carries it, and its
      value is the one of the LAST pair that carries it. */
  lemma FromPairsGet<K, V>(ps: seq<(K, V)>, k: K)
    ensures Has(FromPairs(ps), k) <==> exists i :: 0 <= i < |ps| && ps[i].0 == k
    ensures forall i :: 0 <= i < |ps| && ps[i].0 == k && (forall j :: i < j < |ps| ==> ps[j].0 != k) ==>
      Get(FromPairs(ps), k) == ps[i].1
  {
    FromPairsHas(ps, k);
    forall i | 0 <= i < |ps| && ps[i].0 == k && (forall j :: i < j < |ps| ==> ps[j].0 != k)
      ensures Get(FromPairs(ps), k) == ps[i].1
    {
      FromPairsLast(ps, k, i);
    }
  }

  lemma {:induction false} FromPairsHas<K, V>(ps: seq<(K, V)>, k: K)
    ensures Has(FromPairs(ps), k) <==> exists i :: 0 <= i < |ps| && ps[i].0 == k
  {
    if ps != [] {
      var init := ps[..|ps| - 1];
      FromPairsHas(init, k);
      assert FromPairs(ps) == Set(FromPairs(init), ps[|ps| - 1].0, ps[|ps| - 1].1);
      if exists i :: 0 <= i < |ps| && ps[i].0 == k {
        var i :| 0 <= i < |ps| && ps[i].0 == k;
        if i < |init| {
          assert init[i].0 == k;
        }
      }
      if exists i :: 0 <= i < |init| && init[i].0 == k {
        var i :| 0 <= i < |init| && init[i].0 == k;
        assert ps[i].0 == k;
      }
    }
  }

  lemma {:induction false} FromPairsLast<K, V>(ps: seq<(K, V)>, k: K, i: nat)
    requires i < |ps| && ps[i].0 == k && forall j :: i < j < |ps| ==> ps[j].0 != k
    ensures Has(FromPairs(ps), k) && Get(FromPairs(ps), k) == ps[i].1
  {
    var init := ps[..|ps| - 1];
    assert FromPairs(ps) == Set(FromPairs(init), ps[|ps| - 1].0, ps[|ps| - 1].1);
    if i < |ps| - 1 {
      assert init[i] == ps[i];
      assert forall j :: i < j < |init| ==> init[j] == ps[j];
      FromPairsLast(init, k, i);
    }
  }

  /** The keys of `dict(pairs)` are exactly the keys of the pairs, listed
      in the order of their first appearance. */
  lemma FromPairsKeys<K, V>(ps: seq<(K, V)>)
    ensures forall k :: k in Keys(FromPairs(ps)) <==> exists i :: 0 <= i < |ps| && ps[i].0 == k
    ensures forall i, j :: 0 <= i < j < |FromPairs(ps)| ==>
      FirstIndex(ps, FromPairs(ps)[i].0) < FirstIndex(ps, FromPairs(ps)[j].0)
  {
    forall k ensures k in Keys(FromPairs(ps)) <==> exists i :: 0 <= i < |ps| && ps[i].0 == k {
      FromPairsGet(ps, k);
    }
    FromPairsOrder(ps);
  }

  /** The position of the first pair that carries `k`, or `|ps|` when none
      does. */
  function FirstIndex<K(==), V>(ps: seq<(K, V)>, k: K): (r: nat)
    ensures r <= |ps| && (r < |ps| ==> ps[r].0 == k)
    ensures forall i :: 0 <= i < r ==> ps[i].0 != k
  {
    if ps == [] then 0
    else if ps[0].0 == k then 0
    else
      var r := FirstIndex(ps[1..], k);
      assert forall i :: 1 <= i < r + 1 ==> ps[i] == ps[1..][i - 1];
      1 + r
  }

  /** The first pair carrying `k` is the one `FirstIndex` finds. */
  lemma FirstIndexAt<K, V>(ps: seq<(K, V)>, k: K, i: nat)
    requires i < |ps| && ps[i].0 == k && forall j :: 0 <= j < i ==> ps[j].0 != k
    ensures FirstIndex(ps, k) == i
  {
    var r := FirstIndex(ps, k);
    assert r <= i;
  }

  /** Pairs that `dict(pairs)` orders by the first appearance of their
      keys. */
  lemma {:induction false} FromPairsOrder<K, V>(ps: seq<(K, V)>)
    ensures forall i, j :: 0 <= i < j < |FromPairs(ps)| ==>
      FirstIndex(ps, FromPairs(ps)[i].0) < FirstIndex(ps, FromPairs(ps)[j].0)
  {
    if ps != [] {
      var init := ps[..|ps| - 1];
      var key := ps[|ps| - 1].0;
      var d0 := FromPairs(init);
      FromPairsOrder(init);
      forall i | 0 <= i < |d0| ensures FirstIndex(init, d0[i].0) < |init| {
        assert Keys(d0)[i] == d0[i].0;
        HasFirst(init, d0[i].0);
      }
      HasFirst(init, key);
      OrderStep(ps, init, key, d0, FromPairs(ps));
    }
  }

  /** One assignment keeps the first-appearance order. */
  lemma OrderStep<K, V>(ps: seq<(K, V)>, init: seq<(K, V)>, key: K, d0: Dict<K, V>, d: Dict<K, V>)
    requires ps != [] && init == ps[..|ps| - 1] && key == ps[|ps| - 1].0
    requires Keys(d) == Keys(d0) || (Keys(d) == Keys(d0) + [key] && FirstIndex(init, key) == |init|)
    requires forall i :: 0 <= i < |d0| ==> FirstIndex(init, d0[i].0) < |init|
    requires forall i, j :: 0 <= i < j < |d0| ==> FirstIndex(init, d0[i].0) < FirstIndex(init, d0[j].0)
    ensures forall i, j :: 0 <= i < j < |d| ==> FirstIndex(ps, d[i].0) < FirstIndex(ps, d[j].0)
  {
    assert |d| == |Keys(d)| && |d0| == |Keys(d0)|;
    forall i, j | 0 <= i < j < |d| ensures FirstIndex(ps, d[i].0) < FirstIndex(ps, d[j].0) {
      assert Keys(d)[i] == Keys(d0)[i];
      EarlierKey(ps, d0[i].0);
      if j < |d0| {
        assert Keys(d)[j] == Keys(d0)[j];
        EarlierKey(ps, d0[j].0);
      } else {
        assert Keys(d)[j] == key;
        NewKey(ps, key);
      }
    }
  }

  /** A key carried by an earlier pair first appears among the earlier
      pairs. */
  lemma EarlierKey<K, V>(ps: seq<(K, V)>, x: K)
    requires ps != [] && FirstIndex(ps[..|ps| - 1], x) < |ps| - 1
    ensures FirstIndex(ps, x) == FirstIndex(ps[..|ps| - 1], x)
  {
    var init := ps[..|ps| - 1];
    var f := FirstIndex(init, x);
    assert forall j :: 0 <= j < f ==> ps[j] == init[j];
    assert ps[f] == init[f];
    FirstIndexAt(ps, x, f);
  }

  /** A key that no earlier pair carries first appears in the last pair. */
  lemma NewKey<K, V>(ps: seq<(K, V)>, key: K)
    requires ps != [] && ps[|ps| - 1].0 == key && FirstIndex(ps[..|ps| - 1], key) == |ps| - 1
    ensures FirstIndex(ps, key) == |ps| - 1
  {
    var init := ps[..|ps| - 1];
    assert forall j :: 0 <= j < |init| ==> init[j] == ps[j];
    FirstIndexAt(ps, key, |ps| - 1);
  }

  /** A key is in `dict(pairs)` exactly when some pair carries it. */
  lemma HasFirst<K, V>(ps: seq<(K, V)>, k: K)
    ensures Has(FromPairs(ps), k) <==> FirstIndex(ps, k) < |ps|
  {
    FromPairsHas(ps, k);
  }

  /** Pairing two lists position by position, as Python's `zip`: the
      result stops at the shorter one. */
  function Zip<A, B>(xs: seq<A>, ys: seq<B>): (r: seq<(A, B)>)
    ensures |r| == if |xs| < |ys| then |xs| else |ys|
    ensures forall i :: 0 <= i < |r| ==> r[i] == (xs[i], ys[i])
  {
    if xs == [] || ys == [] then [] else [(xs[0], ys[0])] + Zip(xs[1..], ys[1..])
  }
}

/** Python's insertion-ordered `dict`, as a sequence of key/value pairs in
    insertion order. Assigning to a present key replaces its value in place;
    assigning to a new key appends it. */
module Dicts {
  import opened Wrappers
  import opened Text

  type Dict<K, V> = seq<(K, V)>

  /** The keys, in insertion order (iteration order of the Python dict). */
  function Keys<K, V>(d: Dict<K, V>): (ks: seq<K>)
    ensures |ks| == |d| && forall i {:trigger ks[i]} :: 0 <= i < |d| ==> ks[i] == d[i].0
  {
    if d == [] then [] else [d[0].0] + Keys(d[1..])
  }

  /** The keys of a dict with one pair in front. */
  lemma KeysCons<K, V>(p: (K, V), d: Dict<K, V>)
    ensures Keys([p] + d) == [p.0] + Keys(d)
  {
    assert ([p] + d)[1..] == d;
  }

  predicate DistinctKeys<K(==), V>(d: Dict<K, V>)
  {
    forall i, j :: 0 <= i < j < |d| ==> d[i].0 != d[j].0
  }

  /** `d.get(k)`: the value stored under `k`, if any. */
  function Get<K(==), V>(d: Dict<K, V>, k: K): (r: Option<V>)
    ensures r.Some? <==> k in Keys(d)
    ensures r.Some? ==> (k, r.value) in d
  {
    if d == [] then None
    else if d[0].0 == k then Some(d[0].1)
    else Get(d[1..], k)
  }

  /** In a dict with distinct keys, every stored pair is what `Get` finds. */
  lemma {:induction false} GetAt<K, V>(d: Dict<K, V>, i: nat)
    requires DistinctKeys(d) && i < |d|
    ensures Get(d, d[i].0) == Some(d[i].1)
  {
    if i > 0 {
      assert d[0].0 != d[i].0;
      assert DistinctKeys(d[1..]) by {
        forall a, b | 0 <= a < b < |d[1..]| ensures d[1..][a].0 != d[1..][b].0 {
          assert d[1..][a] == d[a + 1] && d[1..][b] == d[b + 1];
        }
      }
      GetAt(d[1..], i - 1);
    }
  }

  /** `d[k] = v`. */
  function Update<K(==,!new), V>(d: Dict<K, V>, k: K, v: V): (r: Dict<K, V>)
    ensures Get(r, k) == Some(v)
    ensures forall k' :: k' != k ==> Get(r, k') == Get(d, k')
    ensures k in Keys(d) ==> Keys(r) == Keys(d)
    ensures k !in Keys(d) ==> Keys(r) == Keys(d) + [k]
  {
    if d == [] then [(k, v)]
    else if d[0].0 == k then [(k, v)] + d[1..]
    else
      var rest := Update(d[1..], k, v);
      assert ([d[0]] + rest)[1..] == rest;
      [d[0]] + rest
  }

  lemma UpdateKeepsDistinct<K(!new), V>(d: Dict<K, V>, k: K, v: V)
    requires DistinctKeys(d)
    ensures DistinctKeys(Update(d, k, v))
  {
    var r := Update(d, k, v);
    var kr, kd := Keys(r), Keys(d);
    forall i, j | 0 <= i < j < |r| ensures r[i].0 != r[j].0 {
      assert r[i].0 == kr[i] && r[j].0 == kr[j];
      if j < |d| {
        assert kr[i] == kd[i] && kr[j] == kd[j];
      } else {
        assert kr[j] == k && k !in kd && kr[i] == kd[i];
      }
    }
  }

  /** A sequence of `d[k] = v` assignments, in order. */
  function UpdateAll<K(==,!new), V>(d: Dict<K, V>, ps: seq<(K, V)>): (r: Dict<K, V>)
    ensures |d| <= |r| <= |d| + |ps|
    decreases |ps|
  {
    if ps == [] then d
    else UpdateAll(Update(d, ps[0].0, ps[0].1), ps[1..])
  }

  /** The keys after a run of assignments: the old keys first, in place,
      and otherwise only assigned keys. */
  lemma {:induction false} UpdateAllKeys<K(!new), V>(d: Dict<K, V>, ps: seq<(K, V)>)
    ensures Keys(d) <= Keys(UpdateAll(d, ps))
    ensures forall k :: k in Keys(UpdateAll(d, ps)) <==> k in Keys(d) || k in Keys(ps)
    decreases |ps|
  {
    if ps != [] {
      var d' := Update(d, ps[0].0, ps[0].1);
      UpdateAllKeys(d', ps[1..]);
      assert Keys(ps) == [ps[0].0] + Keys(ps[1..]);
    }
  }

  lemma {:induction false} UpdateAllKeepsDistinct<K(!new), V>(d: Dict<K, V>, ps: seq<(K, V)>)
    requires DistinctKeys(d)
    ensures DistinctKeys(UpdateAll(d, ps))
    decreases |ps|
  {
    if ps != [] {
      UpdateKeepsDistinct(d, ps[0].0, ps[0].1);
      UpdateAllKeepsDistinct(Update(d, ps[0].0, ps[0].1), ps[1..]);
    }
  }

  /** Assigning one more pair after a run of assignments. */
  lemma {:induction false} UpdateAllSnoc<K(!new), V>(d: Dict<K, V>, ps: seq<(K, V)>, p: (K, V))
    ensures UpdateAll(d, ps + [p]) == Update(UpdateAll(d, ps), p.0, p.1)
    decreases |ps|
  {
    if ps == [] {
      assert ([] + [p])[1..] == [];
    } else {
      assert (ps + [p])[0] == ps[0];
      assert (ps + [p])[1..] == ps[1..] + [p];
      UpdateAllSnoc(Update(d, ps[0].0, ps[0].1), ps[1..], p);
    }
  }

  /** A key no assignment touches keeps its value. */
  lemma {:induction false} GetUpdateAllUntouched<K(!new), V>(d: Dict<K, V>, ps: seq<(K, V)>, k: K)
    requires k !in Keys(ps)
    ensures Get(UpdateAll(d, ps), k) == Get(d, k)
    decreases |ps|
  {
    if ps != [] {
      assert Keys(ps) == [ps[0].0] + Keys(ps[1..]);
      GetUpdateAllUntouched(Update(d, ps[0].0, ps[0].1), ps[1..], k);
    }
  }

  /** After a run of assignments a key holds the value of its last assignment. */
  lemma {:induction false} GetUpdateAllLast<K(!new), V>(d: Dict<K, V>, ps: seq<(K, V)>, i: nat)
    requires i < |ps| && forall j :: i < j < |ps| ==> ps[j].0 != ps[i].0
    ensures Get(UpdateAll(d, ps), ps[i].0) == Some(ps[i].1)
    decreases |ps|
  {
    var d' := Update(d, ps[0].0, ps[0].1);
    assert UpdateAll(d, ps) == UpdateAll(d', ps[1..]);
    if i == 0 {
      var ks := Keys(ps[1..]);
      forall j | 0 <= j < |ks| ensures ks[j] != ps[0].0 {
        assert ks[j] == ps[j + 1].0;
      }
      GetUpdateAllUntouched(d', ps[1..], ps[0].0);
    } else {
      assert ps[i] == ps[1..][i - 1];
      forall j | i - 1 < j < |ps[1..]| ensures ps[1..][j].0 != ps[1..][i - 1].0 {
        assert ps[1..][j] == ps[j + 1];
      }
      GetUpdateAllLast(d', ps[1..], i - 1);
    }
  }

  /** With distinct keys, the first key does not occur again. */
  lemma HeadKeyNotInTail<K, V>(ps: seq<(K, V)>)
    requires DistinctKeys(ps) && ps != []
    ensures ps[0].0 !in Keys(ps[1..])
  {
    var ks := Keys(ps[1..]);
    forall j | 0 <= j < |ks| ensures ks[j] != ps[0].0 {
      assert ks[j] == ps[j + 1].0;
    }
  }

  /** When the assigned keys are distinct, each key ends up with its assigned value. */
  lemma {:induction false} GetUpdateAllAssigned<K(!new), V>(d: Dict<K, V>, ps: seq<(K, V)>, i: nat)
    requires DistinctKeys(ps) && i < |ps|
    ensures Get(UpdateAll(d, ps), ps[i].0) == Some(ps[i].1)
    decreases |ps|
  {
    var d' := Update(d, ps[0].0, ps[0].1);
    assert UpdateAll(d, ps) == UpdateAll(d', ps[1..]);
    if i == 0 {
      HeadKeyNotInTail(ps);
      GetUpdateAllUntouched(d', ps[1..], ps[0].0);
    } else {
      DistinctTail(ps);
      assert ps[i] == ps[1..][i - 1];
      GetUpdateAllAssigned(d', ps[1..], i - 1);
    }
  }

  /** When every assignment to `k` assigns `v`, looking `k` up afterwards
      finds `v` exactly when `k` was present or assigned. */
  lemma {:induction false} GetUpdateAllUniform<K(!new), V>(d: Dict<K, V>, ps: seq<(K, V)>, k: K, v: V)
    requires forall i :: 0 <= i < |ps| && ps[i].0 == k ==> ps[i].1 == v
    requires Get(d, k).None? || Get(d, k) == Some(v)
    ensures Get(UpdateAll(d, ps), k) == if Get(d, k).None? && k !in Keys(ps) then None else Some(v)
    decreases |ps|
  {
    if ps != [] {
      var tail := ps[1..];
      forall i | 0 <= i < |tail| && tail[i].0 == k ensures tail[i].1 == v {
        assert tail[i] == ps[i + 1];
      }
      GetUpdateAllUniform(Update(d, ps[0].0, ps[0].1), tail, k, v);
      assert Keys(ps) == [ps[0].0] + Keys(tail);
    }
  }

  /** Dropping the first pair keeps the keys distinct. */
  lemma DistinctTail<K, V>(ps: seq<(K, V)>)
    requires DistinctKeys(ps) && ps != []
    ensures DistinctKeys(ps[1..])
  {
    forall a, b | 0 <= a < b < |ps[1..]| ensures ps[1..][a].0 != ps[1..][b].0 {
      assert ps[1..][a] == ps[a + 1] && ps[1..][b] == ps[b + 1];
    }
  }

  /** Assigning distinct new keys appends them in order. */
  lemma {:induction false} UpdateAllFresh<K(!new), V>(d: Dict<K, V>, ps: seq<(K, V)>)
    requires DistinctKeys(ps)
    requires forall i :: 0 <= i < |ps| ==> ps[i].0 !in Keys(d)
    ensures Keys(UpdateAll(d, ps)) == Keys(d) + Keys(ps)
    decreases |ps|
  {
    if ps != [] {
      var d' := Update(d, ps[0].0, ps[0].1);
      assert Keys(d') == Keys(d) + [ps[0].0] by {
        assert ps[0].0 !in Keys(d);
      }
      DistinctTail(ps);
      FreshAfterFirst(d, ps);
      calc {
        Keys(UpdateAll(d, ps));
        Keys(UpdateAll(d', ps[1..]));
        { UpdateAllFresh(d', ps[1..]); }
        Keys(d') + Keys(ps[1..]);
        (Keys(d) + [ps[0].0]) + Keys(ps[1..]);
        { assert Keys(ps) == [ps[0].0] + Keys(ps[1..]); }
        Keys(d) + Keys(ps);
      }
    }
  }

  /** The keys still to be assigned are new after the first assignment. */
  lemma FreshAfterFirst<K(!new), V>(d: Dict<K, V>, ps: seq<(K, V)>)
    requires DistinctKeys(ps) && ps != []
    requires forall i :: 0 <= i < |ps| ==> ps[i].0 !in Keys(d)
    ensures forall i :: 0 <= i < |ps[1..]| ==> ps[1..][i].0 !in Keys(Update(d, ps[0].0, ps[0].1))
  {
    var d' := Update(d, ps[0].0, ps[0].1);
    assert Keys(d') == Keys(d) + [ps[0].0] by {
      assert ps[0].0 !in Keys(d);
    }
    forall i | 0 <= i < |ps[1..]| ensures ps[1..][i].0 !in Keys(d') {
      assert ps[1..][i] == ps[i + 1];
      assert ps[i + 1].0 != ps[0].0;
    }
  }

  /** One more assignment from a list of pairs. */
  lemma UpdateAllStep<K(!new), V>(d: Dict<K, V>, ps: seq<(K, V)>, i: nat)
    requires i < |ps|
    ensures UpdateAll(d, ps[..i + 1]) == Update(UpdateAll(d, ps[..i]), ps[i].0, ps[i].1)
  {
    assert ps[..i + 1] == ps[..i] + [ps[i]];
    UpdateAllSnoc(d, ps[..i], ps[i]);
  }

  /** `for k, v in pairs: d.update({k: v})` on a copy of `d`. */
  method UpdateEach<K(==,!new), V>(d: Dict<K, V>, ps: seq<(K, V)>) returns (r: Dict<K, V>)
    ensures r == UpdateAll(d, ps)
  {
    r := d;
    for i := 0 to |ps|
      invariant r == UpdateAll(d, ps[..i])
    {
      UpdateAllStep(d, ps, i);
      r := Update(r, ps[i].0, ps[i].1);
    }
    assert ps[..|ps|] == ps;
  }

  /** Every pair after `d[k] = v` is the new pair or was already there. */
  lemma {:induction false} UpdateEntries<K(!new), V>(d: Dict<K, V>, k: K, v: V)
    ensures forall p :: p in Update(d, k, v) ==> p == (k, v) || p in d
  {
    if d != [] && d[0].0 != k {
      UpdateEntries(d[1..], k, v);
    }
  }

  /** Assigning to the first key replaces the first pair. */
  lemma UpdateHead<K(!new), V>(d: Dict<K, V>, v: V)
    requires d != []
    ensures Update(d, d[0].0, v) == d[0 := (d[0].0, v)]
  {
    assert [(d[0].0, v)] + d[1..] == d[0 := (d[0].0, v)];
  }

  /** Assigning to a key other than the first leaves the first pair in front. */
  lemma UpdateCons<K(!new), V>(d: Dict<K, V>, k: K, v: V)
    requires d != [] && d[0].0 != k
    ensures Update(d, k, v) == [d[0]] + Update(d[1..], k, v)
  {
  }

  /** Replacing an element of the tail is replacing it one index further on. */
  lemma ReplaceInTail<T>(s: seq<T>, i: nat, x: T)
    requires 1 <= i < |s|
    ensures [s[0]] + s[1..][i - 1 := x] == s[i := x]
  {
  }

  /** With distinct keys, `d[k] = v` on a present key replaces its pair in place. */
  lemma {:induction false} UpdateAtIndex<K(!new), V>(d: Dict<K, V>, i: nat, v: V)
    requires DistinctKeys(d) && i < |d|
    ensures Update(d, d[i].0, v) == d[i := (d[i].0, v)]
  {
    if i == 0 {
      UpdateHead(d, v);
    } else {
      var k := d[i].0;
      assert d[0].0 != k;
      DistinctTail(d);
      assert d[1..][i - 1] == d[i];
      UpdateAtIndex(d[1..], i - 1, v);
      UpdateCons(d, k, v);
      ReplaceInTail(d, i, (k, v));
    }
  }
}

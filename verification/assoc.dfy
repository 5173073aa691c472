/**
 Python dictionaries as association lists. A dict remembers the order in
 which its keys were first inserted, and the parsers' results depend on
 that order (which account is chosen, which display name wins), so the
 model keeps it: a key appears once, at the position of its first
 insertion, and a later assignment only replaces its value.
 */
module Assoc {
  import opened Wrappers

  type Assoc<K, V> = seq<(K, V)>

  /** The keys, in first-insertion order (`list(d)`). */
  function Keys<K, V>(a: Assoc<K, V>): (ks: seq<K>)
    ensures |ks| == |a|
    ensures forall i :: 0 <= i < |a| ==> ks[i] == a[i].0
  {
    if a == [] then [] else [a[0].0] + Keys(a[1..])
  }

  /** Every key occurs once, as in a dict. */
  predicate UniqueKeys<K(==), V>(a: Assoc<K, V>) {
    forall i, j :: 0 <= i < j < |a| ==> a[i].0 != a[j].0
  }

  /** `d.get(k)`. */
  function Get<K(==), V>(a: Assoc<K, V>, k: K): (r: Option<V>)
    ensures r.None? <==> k !in Keys(a)
  {
    if a == [] then None
    else if a[0].0 == k then Some(a[0].1)
    else Get(a[1..], k)
  }

  /** What `Get` finds is a stored pair. */
  lemma GetIn<K, V>(a: Assoc<K, V>, k: K)
    requires Get(a, k).Some?
    ensures (k, Get(a, k).value) in a
  {
    if a[0].0 != k {
      GetIn(a[1..], k);
    }
  }

  /** In a dict, the value stored at a position is what `Get` returns for its key. */
  lemma GetAt<K, V>(a: Assoc<K, V>, i: nat)
    requires UniqueKeys(a) && i < |a|
    ensures Get(a, a[i].0) == Some(a[i].1)
  {
    if i > 0 {
      GetAt(a[1..], i - 1);
    }
  }

  /** `d[k] = v`: an existing key keeps its place and takes the new value;
      a new key is added at the end. Nothing else changes. */
  function Put<K(==,!new), V>(a: Assoc<K, V>, k: K, v: V): (r: Assoc<K, V>)
    ensures Get(r, k) == Some(v)
    ensures forall k' :: k' != k ==> Get(r, k') == Get(a, k')
    ensures k in Keys(a) ==> Keys(r) == Keys(a)
    ensures k !in Keys(a) ==> Keys(r) == Keys(a) + [k]
  {
    if a == [] then [(k, v)]
    else if a[0].0 == k then [(k, v)] + a[1..]
    else
      var t := Put(a[1..], k, v);
      PutBehindHead(a, k, v, t);
      [a[0]] + t
  }

  /** The inductive step of `Put`: an assignment to the tail of a dict,
      seen from the whole dict. */
  lemma PutBehindHead<K, V>(a: Assoc<K, V>, k: K, v: V, t: Assoc<K, V>)
    requires a != [] && a[0].0 != k
    requires Get(t, k) == Some(v)
    requires forall k' :: k' != k ==> Get(t, k') == Get(a[1..], k')
    requires k in Keys(a[1..]) ==> Keys(t) == Keys(a[1..])
    requires k !in Keys(a[1..]) ==> Keys(t) == Keys(a[1..]) + [k]
    ensures Get([a[0]] + t, k) == Some(v)
    ensures forall k' :: k' != k ==> Get([a[0]] + t, k') == Get(a, k')
    ensures k in Keys(a) ==> Keys([a[0]] + t) == Keys(a)
    ensures k !in Keys(a) ==> Keys([a[0]] + t) == Keys(a) + [k]
  {
    GetBehindHead(a, k, t);
    KeysBehindHead(a, k, t);
  }

  /** The lookups of `PutBehindHead`. */
  lemma GetBehindHead<K, V>(a: Assoc<K, V>, k: K, t: Assoc<K, V>)
    requires a != [] && a[0].0 != k
    requires forall k' :: k' != k ==> Get(t, k') == Get(a[1..], k')
    ensures Get([a[0]] + t, k) == Get(t, k)
    ensures forall k' :: k' != k ==> Get([a[0]] + t, k') == Get(a, k')
  {
    var r := [a[0]] + t;
    assert r[1..] == t;
    forall k' | k' != k ensures Get(r, k') == Get(a, k') {
      if a[0].0 != k' {
        assert Get(r, k') == Get(t, k');
      }
    }
  }

  /** The key order of `PutBehindHead`. */
  lemma KeysBehindHead<K, V>(a: Assoc<K, V>, k: K, t: Assoc<K, V>)
    requires a != [] && a[0].0 != k
    requires k in Keys(a[1..]) ==> Keys(t) == Keys(a[1..])
    requires k !in Keys(a[1..]) ==> Keys(t) == Keys(a[1..]) + [k]
    ensures k in Keys(a) ==> Keys([a[0]] + t) == Keys(a)
    ensures k !in Keys(a) ==> Keys([a[0]] + t) == Keys(a) + [k]
  {
    var r := [a[0]] + t;
    assert r[1..] == t;
    assert Keys(r) == [a[0].0] + Keys(t);
    assert Keys(a) == [a[0].0] + Keys(a[1..]);
    ConsKeys(a[0].0, k, Keys(a[1..]), Keys(t));
  }

  /** `KeysBehindHead` on bare key sequences. */
  lemma ConsKeys<K>(x: K, k: K, ks: seq<K>, ts: seq<K>)
    requires x != k
    requires k in ks ==> ts == ks
    requires k !in ks ==> ts == ks + [k]
    ensures k in [x] + ks ==> [x] + ts == [x] + ks
    ensures k !in [x] + ks ==> [x] + ts == [x] + ks + [k]
  {
    assert k in [x] + ks <==> k in ks;
    assert [x] + (ks + [k]) == [x] + ks + [k];
  }

  /** A dict stays a dict under assignment. */
  lemma PutUnique<K(!new), V>(a: Assoc<K, V>, k: K, v: V)
    requires UniqueKeys(a)
    ensures UniqueKeys(Put(a, k, v))
  {
    var r := Put(a, k, v);
    var ks := Keys(a);
    forall i, j | 0 <= i < j < |r| ensures r[i].0 != r[j].0 {
      assert Keys(r)[i] == r[i].0 && Keys(r)[j] == r[j].0;
      assert Keys(r)[i] == ks[i];
      if j < |a| {
        assert Keys(r)[j] == ks[j];
      } else {
        assert Keys(r)[j] == k && ks[i] in ks;
      }
    }
  }

  /** `d.setdefault(k, {})[k2] = v` for a dict of dicts. */
  function PutNested<K(==,!new), K2(==,!new), V>(a: Assoc<K, Assoc<K2, V>>, k: K, k2: K2, v: V): (r: Assoc<K, Assoc<K2, V>>)
    ensures Get(r, k) == Some(Put(GetOr(a, k, []), k2, v))
    ensures forall k' :: k' != k ==> Get(r, k') == Get(a, k')
    ensures k in Keys(a) ==> Keys(r) == Keys(a)
    ensures k !in Keys(a) ==> Keys(r) == Keys(a) + [k]
  {
    Put(a, k, Put(GetOr(a, k, []), k2, v))
  }

  /** `d.get(k, default)`. */
  function GetOr<K(==), V>(a: Assoc<K, V>, k: K, default: V): V
  {
    match Get(a, k)
    case Some(v) => v
    case None => default
  }

  /** The dict built by assigning the pairs of `rs` in order, skipping the
      `None`s. */
  function PutAll<K(==,!new), V>(rs: seq<Option<(K, V)>>): (a: Assoc<K, V>)
    ensures UniqueKeys(a)
  {
    if rs == [] then []
    else
      var a := PutAll(rs[..|rs| - 1]);
      match rs[|rs| - 1]
      case Some((k, v)) =>
        PutUnique(a, k, v);
        Put(a, k, v)
      case None => a
  }

  /** Reference definition: the value of the last pair for key `k`. */
  function LastFor<K(==), V>(rs: seq<Option<(K, V)>>, k: K): Option<V>
  {
    if rs == [] then None
    else
      match rs[|rs| - 1]
      case Some((k', v)) => if k' == k then Some(v) else LastFor(rs[..|rs| - 1], k)
      case None => LastFor(rs[..|rs| - 1], k)
  }

  /** Last write wins. */
  lemma {:induction false} PutAllLastWins<K(!new), V>(rs: seq<Option<(K, V)>>, k: K)
    ensures Get(PutAll(rs), k) == LastFor(rs, k)
    decreases |rs|
  {
    if rs != [] {
      PutAllLastWins(rs[..|rs| - 1], k);
    }
  }
}

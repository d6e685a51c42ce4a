/** A Python `dict` whose keys and values are strings, seen as the sequence of
    its items in insertion order: what `d.items()` yields and what
    `tuple(d.items())` freezes into a row identity. */
module PyDict {

  datatype Option<T> = None | Some(value: T)

  /** One `(key, value)` item. */
  type Item = (string, string)

  /** The keys of `d`, in order. */
  function Keys(d: seq<Item>): seq<string>
  {
    seq(|d|, i requires 0 <= i < |d| => d[i].0)
  }

  /** No key occurs twice: what every Python dict guarantees of its items. */
  predicate DistinctKeys(d: seq<Item>)
  {
    forall i, j :: 0 <= i < j < |d| ==> d[i].0 != d[j].0
  }

  /** `d.get(k)`: the value stored under `k`, or None when `k` is absent. */
  function Get(d: seq<Item>, k: string): Option<string>
  {
    if d == [] then None
    else if d[0].0 == k then Some(d[0].1)
    else Get(d[1..], k)
  }

  /** `d.get(k)` is None exactly when `k` is not a key, and otherwise a
      value stored under `k`: the only one when the keys are distinct. */
  lemma {:induction false} GetSpec(d: seq<Item>, k: string)
    ensures Get(d, k).None? <==> k !in Keys(d)
    ensures Get(d, k).Some? ==> (k, Get(d, k).value) in d
    ensures DistinctKeys(d) ==> forall i :: 0 <= i < |d| && d[i].0 == k ==> Get(d, k) == Some(d[i].1)
  {
    if d != [] {
      assert Keys(d) == [d[0].0] + Keys(d[1..]);
      GetSpec(d[1..], k);
      if DistinctKeys(d) {
        assert DistinctKeys(d[1..]);
        forall i | 0 <= i < |d| && d[i].0 == k ensures Get(d, k) == Some(d[i].1) {
          if i > 0 {
            assert d[1..][i - 1] == d[i];
          }
        }
      }
    }
  }

  /** `d[k] = v`: a key already present keeps its place and takes the new
      value; a new key goes last. */
  function Insert(d: seq<Item>, k: string, v: string): (r: seq<Item>)
    requires DistinctKeys(d)
    ensures DistinctKeys(r)
    ensures k in Keys(d) ==>
      |r| == |d| && forall i :: 0 <= i < |d| ==> r[i] == if d[i].0 == k then (k, v) else d[i]
    ensures k !in Keys(d) ==> r == d + [(k, v)]
  {
    if d == [] then [(k, v)]
    else
      assert Keys(d) == [d[0].0] + Keys(d[1..]);
      if d[0].0 == k then
        assert forall i :: 1 <= i < |d| ==> d[i].0 != k;
        [(k, v)] + d[1..]
      else
        [d[0]] + Insert(d[1..], k, v)
  }

  /** `dict(pairs)`: the pairs inserted from left to right. */
  function FromPairs(ps: seq<Item>): (d: seq<Item>)
    ensures DistinctKeys(d)
  {
    if ps == [] then []
    else
      var n := |ps| - 1;
      Insert(FromPairs(ps[..n]), ps[n].0, ps[n].1)
  }

  /** The value of the last pair whose key is `k`. */
  function LastValue(ps: seq<Item>, k: string): Option<string>
  {
    if ps == [] then None
    else
      var n := |ps| - 1;
      if ps[n].0 == k then Some(ps[n].1) else LastValue(ps[..n], k)
  }

  /** The keys of `ks` in the order of their first occurrence, each once. */
  function Dedup(ks: seq<string>): seq<string>
  {
    if ks == [] then []
    else
      var n := |ks| - 1;
      var p := Dedup(ks[..n]);
      if ks[n] in p then p else p + [ks[n]]
  }

  lemma KeysInsert(d: seq<Item>, k: string, v: string)
    requires DistinctKeys(d)
    ensures Keys(Insert(d, k, v)) == if k in Keys(d) then Keys(d) else Keys(d) + [k]
  {
    var r := Insert(d, k, v);
    if k in Keys(d) {
      assert forall i :: 0 <= i < |d| ==> Keys(r)[i] == Keys(d)[i];
    } else {
      assert forall i :: 0 <= i < |d| ==> Keys(r)[i] == Keys(d)[i];
    }
  }

  /** After `d[k] = v`, looking up `k` gives `v` and every other key is unaffected. */
  lemma {:induction false} GetInsert(d: seq<Item>, k: string, v: string, k': string)
    requires DistinctKeys(d)
    ensures Get(Insert(d, k, v), k') == if k' == k then Some(v) else Get(d, k')
  {
    var r := Insert(d, k, v);
    KeysInsert(d, k, v);
    GetSpec(d, k');
    GetSpec(r, k');
    if k' == k {
      if k in Keys(d) {
        var i :| 0 <= i < |d| && d[i].0 == k;
        assert r[i] == (k, v);
      } else {
        assert r[|d|] == (k, v);
      }
    } else if k' in Keys(d) {
      var i :| 0 <= i < |d| && d[i].0 == k';
      assert r[i] == d[i];
    }
  }

  /** When a dict is built from pairs that repeat a key, the value of the last
      such pair wins. */
  lemma {:induction false} FromPairsGet(ps: seq<Item>, k: string)
    ensures Get(FromPairs(ps), k) == LastValue(ps, k)
  {
    if ps != [] {
      var n := |ps| - 1;
      FromPairsGet(ps[..n], k);
      GetInsert(FromPairs(ps[..n]), ps[n].0, ps[n].1, k);
    }
  }

  /** When a dict is built from pairs that repeat a key, the key stays at the
      position of its first occurrence. */
  lemma {:induction false} FromPairsKeyOrder(ps: seq<Item>)
    ensures Keys(FromPairs(ps)) == Dedup(Keys(ps))
  {
    if ps != [] {
      var n := |ps| - 1;
      var ks := Keys(ps);
      assert ks[..n] == Keys(ps[..n]);
      assert ks[n] == ps[n].0;
      FromPairsKeyOrder(ps[..n]);
      var p := Keys(FromPairs(ps[..n]));
      assert p == Dedup(ks[..n]);
      KeysInsert(FromPairs(ps[..n]), ps[n].0, ps[n].1);
      assert Keys(FromPairs(ps)) == if ks[n] in p then p else p + [ks[n]];
    }
  }

  /** Pairs with distinct keys become a dict whose items are exactly those pairs, in order. */
  lemma {:induction false} FromPairsDistinct(ps: seq<Item>)
    requires DistinctKeys(ps)
    ensures FromPairs(ps) == ps
  {
    if ps != [] {
      var n := |ps| - 1;
      assert DistinctKeys(ps[..n]);
      FromPairsDistinct(ps[..n]);
      assert ps[n].0 !in Keys(ps[..n]);
      assert ps[..n] + [ps[n]] == ps;
    }
  }
}

/**
 * Python's built-in `dict`, which remembers insertion order, as the sequence
 * of its items. Assigning to a key that is present replaces its value in
 * place; assigning to a new key appends it. A dict built through these
 * operations never holds a key twice (DistinctKeys).
 */
module PyDict {
  import opened Wrappers

  type Dict<K, V> = seq<(K, V)>

  /** No element occurs twice in `s`. */
  predicate Distinct<T(==)>(s: seq<T>)
  {
    forall i, j :: 0 <= i < j < |s| ==> s[i] != s[j]
  }

  /** The keys of `d`, in iteration order (`d.keys()`). */
  function Keys<K, V>(d: Dict<K, V>): seq<K>
  {
    seq(|d|, i requires 0 <= i < |d| => d[i].0)
  }

  lemma KeysCons<K, V>(d: Dict<K, V>)
    requires d != []
    ensures Keys(d) == [d[0].0] + Keys(d[1..])
  {
  }

  predicate DistinctKeys<K(==, !new), V>(d: Dict<K, V>)
  {
    Distinct(Keys(d))
  }

  /** `d.get(k)`: the value stored under `k`, or None when `k` is absent. */
  function Get<K(==, !new), V>(d: Dict<K, V>, k: K): (r: Option<V>)
    ensures r.None? <==> k !in Keys(d)
  {
    if d == [] then None
    else
      KeysCons(d);
      if d[0].0 == k then Some(d[0].1) else Get(d[1..], k)
  }

  /** `d[k] = v`. */
  function Set<K(==), V>(d: Dict<K, V>, k: K, v: V): Dict<K, V>
  {
    if d == [] then [(k, v)]
    else if d[0].0 == k then [(k, v)] + d[1..]
    else [d[0]] + Set(d[1..], k, v)
  }

  /**
   * An assignment replaces the value of a key already present, in its place,
   * and appends a new key at the end; no other key changes, and no key is
   * ever held twice.
   */
  lemma {:induction false} SetSpec<K(!new), V>(d: Dict<K, V>, k: K, v: V)
    ensures Keys(Set(d, k, v)) == if k in Keys(d) then Keys(d) else Keys(d) + [k]
    ensures Get(Set(d, k, v), k) == Some(v)
    ensures forall k' :: k' != k ==> Get(Set(d, k, v), k') == Get(d, k')
    ensures DistinctKeys(d) ==> DistinctKeys(Set(d, k, v))
  {
    var r := Set(d, k, v);
    if d != [] {
      KeysCons(d);
      if d[0].0 == k {
        assert Keys(d)[0] == k;
        assert Keys(r) == Keys(d);
      } else {
        var tail := Set(d[1..], k, v);
        SetSpec(d[1..], k, v);
        assert r[1..] == tail;
        KeysCons(r);
        if DistinctKeys(d) {
          DistinctTail(d);
          DistinctCons(Keys(r));
        }
      }
    }
  }

  /**
   * `d.update(ps)`: the pairs of `ps` are assigned one after the other, so a
   * later pair wins over an earlier one and over `d`.
   */
  function UpdateAll<K(==), V>(d: Dict<K, V>, ps: seq<(K, V)>): Dict<K, V>
    decreases |ps|
  {
    if ps == [] then d else UpdateAll(Set(d, ps[0].0, ps[0].1), ps[1..])
  }

  /** An update keeps the keys of `d` in their places and adds those of `ps`. */
  lemma {:induction false} UpdateAllKeys<K(!new), V>(d: Dict<K, V>, ps: seq<(K, V)>)
    ensures forall k :: k in Keys(UpdateAll(d, ps)) <==> k in Keys(d) || k in Keys(ps)
    ensures |d| <= |UpdateAll(d, ps)| && Keys(UpdateAll(d, ps))[..|d|] == Keys(d)
    ensures (forall k :: k in Keys(ps) ==> k in Keys(d)) ==> Keys(UpdateAll(d, ps)) == Keys(d)
    decreases ps
  {
    if ps != [] {
      var d' := Set(d, ps[0].0, ps[0].1);
      KeysCons(ps);
      SetSpec(d, ps[0].0, ps[0].1);
      UpdateAllKeys(d', ps[1..]);
      assert Keys(d')[..|d|] == Keys(d);
      assert Keys(UpdateAll(d, ps))[..|d|] == Keys(UpdateAll(d', ps[1..]))[..|d'|][..|d|];
    }
  }

  /** A key that `ps` does not mention keeps its value. */
  lemma {:induction false} UpdateAllFrame<K(!new), V>(d: Dict<K, V>, ps: seq<(K, V)>)
    ensures forall k :: k !in Keys(ps) ==> Get(UpdateAll(d, ps), k) == Get(d, k)
    decreases ps
  {
    if ps != [] {
      KeysCons(ps);
      SetSpec(d, ps[0].0, ps[0].1);
      UpdateAllFrame(Set(d, ps[0].0, ps[0].1), ps[1..]);
    }
  }

  /** An update never holds a key twice. */
  lemma {:induction false} UpdateAllDistinctKeys<K(!new), V>(d: Dict<K, V>, ps: seq<(K, V)>)
    requires DistinctKeys(d)
    ensures DistinctKeys(UpdateAll(d, ps))
    decreases ps
  {
    if ps != [] {
      SetSpec(d, ps[0].0, ps[0].1);
      UpdateAllDistinctKeys(Set(d, ps[0].0, ps[0].1), ps[1..]);
    }
  }

  /** `dict.fromkeys(ks, v)`. */
  function FromKeys<K(==), V>(ks: seq<K>, v: V): Dict<K, V>
  {
    if ks == [] then [] else Set(FromKeys(ks[..|ks| - 1], v), ks[|ks| - 1], v)
  }

  /**
   * `dict.fromkeys(ks, v)` maps each name of `ks` to `v` and nothing else;
   * it has no repeated key, and when `ks` has none its keys are `ks` in order.
   */
  lemma {:induction false} FromKeysSpec<K(!new), V>(ks: seq<K>, v: V)
    ensures DistinctKeys(FromKeys(ks, v))
    ensures forall k :: Get(FromKeys(ks, v), k) == if k in ks then Some(v) else None
    ensures Distinct(ks) ==> Keys(FromKeys(ks, v)) == ks
  {
    if ks != [] {
      var init := ks[..|ks| - 1];
      assert ks == init + [ks[|ks| - 1]];
      FromKeysSpec(init, v);
      SetSpec(FromKeys(init, v), ks[|ks| - 1], v);
    }
  }

  lemma {:induction false} KeysAppend<K, V>(a: Dict<K, V>, b: Dict<K, V>)
    ensures Keys(a + b) == Keys(a) + Keys(b)
  {
  }

  /** In a dict without repeated keys, the i-th item is what `Get` finds. */
  lemma {:induction false} GetAt<K(!new), V>(d: Dict<K, V>, i: nat)
    requires DistinctKeys(d) && i < |d|
    ensures Get(d, d[i].0) == Some(d[i].1)
  {
    if i > 0 {
      assert d[0].0 != d[i].0 by { assert Keys(d)[0] != Keys(d)[i]; }
      assert DistinctKeys(d[1..]) by {
        forall a, b | 0 <= a < b < |d| - 1 ensures Keys(d[1..])[a] != Keys(d[1..])[b] {
          assert Keys(d)[a + 1] != Keys(d)[b + 1];
        }
      }
      GetAt(d[1..], i - 1);
    }
  }

  /** An assignment to a key `d` does not hold appends the item. */
  lemma {:induction false} SetFresh<K(!new), V>(d: Dict<K, V>, k: K, v: V)
    requires k !in Keys(d)
    ensures Set(d, k, v) == d + [(k, v)]
  {
    if d != [] {
      KeysCons(d);
      SetFresh(d[1..], k, v);
    }
  }

  /**
   * Updating with items whose keys are pairwise distinct and new to `d`
   * appends them, in order.
   */
  lemma {:induction false} UpdateAllFresh<K(!new), V>(d: Dict<K, V>, ps: seq<(K, V)>)
    requires DistinctKeys(ps)
    requires forall k :: k in Keys(ps) ==> k !in Keys(d)
    ensures UpdateAll(d, ps) == d + ps
    decreases ps
  {
    if ps != [] {
      var p, rest := ps[0], ps[1..];
      KeysCons(ps);
      DistinctTail(ps);
      SetFresh(d, p.0, p.1);
      KeysAppend(d, [p]);
      assert Keys([p]) == [p.0];
      FreshAfterFirst(d, ps);
      calc {
        UpdateAll(d, ps);
        UpdateAll(Set(d, p.0, p.1), rest);
        UpdateAll(d + [p], rest);
        { UpdateAllFresh(d + [p], rest); }
        d + [p] + rest;
        d + ps;
      }
    }
  }

  lemma FreshAfterFirst<K(!new), V>(d: Dict<K, V>, ps: seq<(K, V)>)
    requires ps != [] && DistinctKeys(ps)
    requires forall k :: k in Keys(ps) ==> k !in Keys(d)
    ensures forall k :: k in Keys(ps[1..]) ==> k !in Keys(d) + [ps[0].0]
  {
    KeysCons(ps);
    DistinctTail(ps);
  }

  lemma DistinctTail<K(!new), V>(d: Dict<K, V>)
    requires d != [] && DistinctKeys(d)
    ensures DistinctKeys(d[1..]) && d[0].0 !in Keys(d[1..])
  {
    KeysCons(d);
    DistinctCons(Keys(d));
  }

  lemma DistinctCons<T>(s: seq<T>)
    requires s != []
    ensures Distinct(s) <==> s[0] !in s[1..] && Distinct(s[1..])
  {
    if s[0] !in s[1..] && Distinct(s[1..]) {
      forall i, j | 0 <= i < j < |s| ensures s[i] != s[j] {
        if i > 0 {
          assert s[1..][i - 1] != s[1..][j - 1];
        } else {
          assert s[j] == s[1..][j - 1];
        }
      }
    }
    if Distinct(s) {
      forall i, j | 0 <= i < j < |s| - 1 ensures s[1..][i] != s[1..][j] {
        assert s[i + 1] != s[j + 1];
      }
    }
  }

  /**
   * The value stored under a key is that of the last pair for the key:
   * if no later pair of `ps` has the key of `ps[i]`, its value is the one
   * the updated dict holds.
   */
  lemma {:induction false} UpdateAllLastWins<K(!new), V>(d: Dict<K, V>, ps: seq<(K, V)>, i: nat)
    requires i < |ps|
    requires forall j :: i < j < |ps| ==> ps[j].0 != ps[i].0
    ensures Get(UpdateAll(d, ps), ps[i].0) == Some(ps[i].1)
    decreases ps
  {
    KeysCons(ps);
    if i == 0 {
      assert ps[0].0 !in Keys(ps[1..]);
      SetSpec(d, ps[0].0, ps[0].1);
      UpdateAllFrame(Set(d, ps[0].0, ps[0].1), ps[1..]);
    } else {
      UpdateAllLastWins(Set(d, ps[0].0, ps[0].1), ps[1..], i - 1);
    }
  }

  /** With pairwise distinct keys in `ps`, the updated dict holds `ps`'s value for each of its keys. */
  lemma UpdateAllDistinct<K(!new), V>(d: Dict<K, V>, ps: seq<(K, V)>, k: K)
    requires DistinctKeys(ps)
    ensures Get(UpdateAll(d, ps), k) == if k in Keys(ps) then Get(ps, k) else Get(d, k)
  {
    UpdateAllFrame(d, ps);
    if k in Keys(ps) {
      var i :| 0 <= i < |ps| && Keys(ps)[i] == k;
      forall j | i < j < |ps| ensures ps[j].0 != ps[i].0 {
        assert Keys(ps)[i] != Keys(ps)[j];
      }
      UpdateAllLastWins(d, ps, i);
      GetAt(ps, i);
    }
  }

  /** The same, for every key at once. */
  lemma UpdateAllGet<K(!new), V>(d: Dict<K, V>, ps: seq<(K, V)>)
    requires DistinctKeys(ps)
    ensures forall k :: Get(UpdateAll(d, ps), k) == if k in Keys(ps) then Get(ps, k) else Get(d, k)
  {
    forall k ensures Get(UpdateAll(d, ps), k) == if k in Keys(ps) then Get(ps, k) else Get(d, k) {
      UpdateAllDistinct(d, ps, k);
    }
  }

  lemma UpdateAllCons<K(!new), V>(d: Dict<K, V>, ps: seq<(K, V)>)
    requires ps != []
    ensures UpdateAll(d, ps) == UpdateAll(Set(d, ps[0].0, ps[0].1), ps[1..])
  {
  }
}

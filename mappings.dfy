/**
 * The mapping helpers of recipes.py: inverting, removing a key, reverse
 * lookup, filtering by key or by value, copy-and-update, and building an
 * ordered dict from a flat argument list.
 *
 * A Python mapping never holds a key twice; the requires clauses
 * `DistinctKeys(m)` below state that property of the argument's type.
 */
module Mappings {
  import opened Wrappers
  import opened PyDict

  /** The values of `d`, in iteration order (`d.values()`). */
  function Values<K, V>(d: Dict<K, V>): seq<V>
  {
    seq(|d|, i requires 0 <= i < |d| => d[i].1)
  }

  /** The items of `m`, each with its key and value exchanged. */
  function Swapped<K, V>(m: Dict<K, V>): Dict<V, K>
  {
    seq(|m|, i requires 0 <= i < |m| => (m[i].1, m[i].0))
  }

  /**
   * `inverse_mapping`: `{v: k for k, v in m.items()}`. Every value of `m`
   * becomes a key; where several keys share a value, the later one wins.
   */
  function InverseMapping<K, V(==, !new)>(m: Dict<K, V>): (r: Dict<V, K>)
    ensures DistinctKeys(r)
    ensures forall v :: v in Keys(r) <==> v in Values(m)
  {
    assert Keys(Swapped(m)) == Values(m);
    UpdateAllKeys([], Swapped(m));
    UpdateAllDistinctKeys([], Swapped(m));
    UpdateAll([], Swapped(m))
  }

  /**
   * The inverse maps each value to the key of its LAST occurrence in `m`:
   * a value held by no later item is mapped back to this item's key.
   */
  lemma InverseMappingLastWins<K, V(!new)>(m: Dict<K, V>, i: nat)
    requires i < |m|
    requires forall j :: i < j < |m| ==> m[j].1 != m[i].1
    ensures Get(InverseMapping(m), m[i].1) == Some(m[i].0)
  {
    var s := Swapped(m);
    assert s[i] == (m[i].1, m[i].0);
    UpdateAllLastWins([], s, i);
  }

  /** Inverting a one-to-one mapping twice gives back the same dict, order included. */
  lemma InverseMappingRoundTrip<K(!new), V(!new)>(m: Dict<K, V>)
    requires DistinctKeys(m) && Distinct(Values(m))
    ensures InverseMapping(InverseMapping(m)) == m
  {
    var s := Swapped(m);
    assert Keys(s) == Values(m);
    UpdateAllFresh([], s);
    assert InverseMapping(m) == s;
    assert Swapped(s) == m;
    UpdateAllFresh([], m);
  }

  /**
   * `get_mapping_without_key`: the items of `m` whose key is not `key`, in
   * their order.
   */
  function WithoutKey<K(==, !new), V>(m: Dict<K, V>, key: K): (r: Dict<K, V>)
    ensures forall k :: Get(r, k) == if k == key then None else Get(m, k)
    ensures r == FilterItems(m, (kv: (K, V)) => kv.0 != key)
  {
    if m == [] then []
    else
      var rest := WithoutKey(m[1..], key);
      KeysCons(m);
      if m[0].0 == key then rest
      else
        var r := [m[0]] + rest;
        assert r[1..] == rest;
        KeysCons(r);
        r
  }

  /** Dropping a key not in `m` from `m` with that key appended leaves `m`. */
  lemma {:induction false} WithoutAppendedKey<K(!new), V>(m: Dict<K, V>, k: K, v: V)
    requires k !in Keys(m)
    ensures WithoutKey(m + [(k, v)], k) == m
  {
    if m != [] {
      KeysCons(m);
      assert (m + [(k, v)])[1..] == m[1..] + [(k, v)];
      WithoutAppendedKey(m[1..], k, v);
    }
  }

  /** Removing a key just added to a dict undoes the addition, order included. */
  lemma WithoutKeyUndoesSet<K(!new), V>(m: Dict<K, V>, k: K, v: V)
    requires k !in Keys(m)
    ensures WithoutKey(Set(m, k, v), k) == m
  {
    SetFresh(m, k, v);
    WithoutAppendedKey(m, k, v);
  }

  /**
   * `get_any_key_with_this_value`: the first key in iteration order whose
   * value equals `value`, or `default` when there is none.
   */
  function AnyKeyWithValue<K, V(==)>(m: Dict<K, V>, value: V, default: Option<K>): (r: Option<K>)
    ensures (forall i :: 0 <= i < |m| ==> m[i].1 != value) ==> r == default
    ensures forall i :: 0 <= i < |m| && m[i].1 == value && (forall j :: 0 <= j < i ==> m[j].1 != value) ==>
      r == Some(m[i].0)
  {
    if m == [] then default
    else if m[0].1 == value then Some(m[0].0)
    else
      var r := AnyKeyWithValue(m[1..], value, default);
      assert forall i :: 1 <= i < |m| ==> m[i] == m[1..][i - 1];
      r
  }

  /** The items of `m` that `keep` accepts, in order. */
  function FilterItems<K, V>(m: Dict<K, V>, keep: ((K, V)) -> bool): (r: Dict<K, V>)
    ensures forall i :: 0 <= i < |r| ==> r[i] in m && keep(r[i])
    ensures forall i :: 0 <= i < |m| && keep(m[i]) ==> m[i] in r
  {
    if m == [] then []
    else
      var rest := FilterItems(m[1..], keep);
      assert m == [m[0]] + m[1..];
      if keep(m[0]) then [m[0]] + rest else rest
  }

  /** Filtering the halves of a dict and joining the results filters the whole: order is kept. */
  lemma {:induction false} FilterItemsAppend<K, V>(a: Dict<K, V>, b: Dict<K, V>, keep: ((K, V)) -> bool)
    ensures FilterItems(a + b, keep) == FilterItems(a, keep) + FilterItems(b, keep)
  {
    if a != [] {
      assert (a + b)[1..] == a[1..] + b;
      FilterItemsAppend(a[1..], b, keep);
    } else {
      assert a + b == b;
    }
  }

  /** What a filter keeps and what its negation keeps make up the whole dict. */
  lemma {:induction false} FilterItemsSplit<K, V>(m: Dict<K, V>, keep: ((K, V)) -> bool, drop: ((K, V)) -> bool)
    requires forall p :: drop(p) == !keep(p)
    ensures multiset(FilterItems(m, keep)) + multiset(FilterItems(m, drop)) == multiset(m)
  {
    if m != [] {
      FilterItemsSplit(m[1..], keep, drop);
      assert m == [m[0]] + m[1..];
    }
  }

  /** `filter_by_keys`: the items whose key satisfies `cond`, or fails it when `negate` is set. */
  function FilterByKeys<K, V>(m: Dict<K, V>, cond: K -> bool, negate: bool): (r: Dict<K, V>)
    ensures forall i :: 0 <= i < |r| ==> r[i] in m && cond(r[i].0) != negate
    ensures forall i :: 0 <= i < |m| && cond(m[i].0) != negate ==> m[i] in r
  {
    FilterItems(m, (kv: (K, V)) => cond(kv.0) != negate)
  }

  /** `filter_by_values`: the items whose value satisfies `cond`, or fails it when `negate` is set. */
  function FilterByValues<K, V>(m: Dict<K, V>, cond: V -> bool, negate: bool): (r: Dict<K, V>)
    ensures forall i :: 0 <= i < |r| ==> r[i] in m && cond(r[i].1) != negate
    ensures forall i :: 0 <= i < |m| && cond(m[i].1) != negate ==> m[i] in r
  {
    FilterItems(m, (kv: (K, V)) => cond(kv.1) != negate)
  }

  /** Each item of `m` is produced by exactly one of the two filters by key. */
  lemma FilterByKeysPartition<K, V>(m: Dict<K, V>, cond: K -> bool)
    ensures multiset(FilterByKeys(m, cond, false)) + multiset(FilterByKeys(m, cond, true)) == multiset(m)
  {
    FilterItemsSplit(m, (kv: (K, V)) => cond(kv.0) != false, (kv: (K, V)) => cond(kv.0) != true);
  }

  /** Each item of `m` is produced by exactly one of the two filters by value. */
  lemma FilterByValuesPartition<K, V>(m: Dict<K, V>, cond: V -> bool)
    ensures multiset(FilterByValues(m, cond, false)) + multiset(FilterByValues(m, cond, true)) == multiset(m)
  {
    FilterItemsSplit(m, (kv: (K, V)) => cond(kv.1) != false, (kv: (K, V)) => cond(kv.1) != true);
  }

  /**
   * `copy_and_update`: a copy of `m` updated with the keyword arguments.
   * The keys of `m` keep their places, new keys follow, and a keyword wins
   * over `m`'s value for the same key.
   */
  function CopyAndUpdate<V>(m: Dict<string, V>, kwargs: Dict<string, V>): (r: Dict<string, V>)
    requires DistinctKeys(kwargs)
    ensures forall k :: k in Keys(r) <==> k in Keys(m) || k in Keys(kwargs)
    ensures |m| <= |r| && Keys(r)[..|m|] == Keys(m)
    ensures forall k :: Get(r, k) == if k in Keys(kwargs) then Get(kwargs, k) else Get(m, k)
    ensures DistinctKeys(m) ==> DistinctKeys(r)
  {
    UpdateAllKeys(m, kwargs);
    UpdateAllGet(m, kwargs);
    if DistinctKeys(m) then UpdateAllDistinctKeys(m, kwargs); UpdateAll(m, kwargs)
    else UpdateAll(m, kwargs)
  }

  /** The flat argument list `a0, b0, a1, b1, ...` read as pairs `(a0, b0), (a1, b1), ...`. */
  function Pairs<T>(args: seq<T>): seq<(T, T)>
  {
    if |args| < 2 then [] else [(args[0], args[1])] + Pairs(args[2..])
  }

  /** `Pairs(args)` has one pair per two arguments; the i-th pair is `(args[2 * i], args[2 * i + 1])`. */
  lemma {:induction false} PairsAt<T>(args: seq<T>)
    ensures |Pairs(args)| == |args| / 2
    ensures forall i :: 0 <= i < |args| / 2 ==> Pairs(args)[i] == (args[2 * i], args[2 * i + 1])
  {
    if |args| >= 2 {
      PairsAt(args[2..]);
      forall i | 1 <= i < |args| / 2 ensures Pairs(args)[i] == (args[2 * i], args[2 * i + 1]) {
        assert Pairs(args)[i] == Pairs(args[2..])[i - 1];
      }
    }
  }

  /**
   * `ordered_dict(k, v, *args)`: ValueError when `args` has odd length,
   * otherwise `k: v` followed by the pairs of `args`, assigned in order.
   */
  function OrderedDict<T(==, !new)>(k: T, v: T, args: seq<T>): Result<Dict<T, T>, PyError>
  {
    if |args| % 2 == 1 then Failure(ValueError("odd number of arguments"))
    else Success(UpdateAll([(k, v)], Pairs(args)))
  }

  /** The loop of `ordered_dict`: assigns the pairs of `args` one after another. */
  method BuildOrderedDict<T(==, !new)>(k: T, v: T, args: seq<T>) returns (r: Result<Dict<T, T>, PyError>)
    ensures r == OrderedDict(k, v, args)
  {
    if |args| % 2 == 1 {
      return Failure(ValueError("odd number of arguments"));
    }
    var odi: Dict<T, T> := [];
    odi := Set(odi, k, v);
    var i := 0;
    while i < |args|
      invariant 0 <= i <= |args| && i % 2 == 0
      invariant UpdateAll(odi, Pairs(args[i..])) == UpdateAll([(k, v)], Pairs(args))
    {
      ghost var ps := Pairs(args[i..]);
      assert args[i..][2..] == args[i + 2..];
      assert ps == [(args[i], args[i + 1])] + Pairs(args[i + 2..]);
      UpdateAllCons(odi, ps);
      assert ps[1..] == Pairs(args[i + 2..]);
      odi := Set(odi, args[i], args[i + 1]);
      i := i + 2;
    }
    return Success(odi);
  }

  /** `ordered_dict` fails exactly when the arguments after the first pair are odd in number. */
  lemma OrderedDictFails<T(!new)>(k: T, v: T, args: seq<T>)
    ensures OrderedDict(k, v, args).Failure? <==> |args| % 2 == 1
    ensures OrderedDict(k, v, args).Failure? ==> OrderedDict(k, v, args).error == ValueError("odd number of arguments")
  {
  }

  /** With pairwise distinct keys, the dict is `(k, v)` followed by the pairs of `args`, in argument order. */
  lemma OrderedDictInOrder<T(!new)>(k: T, v: T, args: seq<T>)
    requires |args| % 2 == 0
    requires DistinctKeys([(k, v)] + Pairs(args))
    ensures OrderedDict(k, v, args) == Success([(k, v)] + Pairs(args))
  {
    var ps := Pairs(args);
    KeysCons([(k, v)] + ps);
    assert ([(k, v)] + ps)[1..] == ps;
    DistinctTail([(k, v)] + ps);
    assert Keys([(k, v)]) == [k];
    UpdateAllFresh([(k, v)], ps);
  }

  /**
   * With repeated keys the last assignment wins: the value of the key
   * `args[2 * i]` is `args[2 * i + 1]` unless a later pair reuses the key.
   */
  lemma OrderedDictLastWins<T(!new)>(k: T, v: T, args: seq<T>, i: nat)
    requires |args| % 2 == 0 && 2 * i < |args|
    requires forall j :: i < j < |args| / 2 ==> args[2 * j] != args[2 * i]
    ensures OrderedDict(k, v, args).Success?
    ensures Get(OrderedDict(k, v, args).value, args[2 * i]) == Some(args[2 * i + 1])
  {
    PairsAt(args);
    UpdateAllLastWins([(k, v)], Pairs(args), i);
  }

  /** The first pair's value stays under its key unless a pair of `args` reuses the key. */
  lemma OrderedDictFirstKeyKept<T(!new)>(k: T, v: T, args: seq<T>)
    requires |args| % 2 == 0
    requires forall j :: 0 <= j < |args| / 2 ==> args[2 * j] != k
    ensures OrderedDict(k, v, args).Success?
    ensures Get(OrderedDict(k, v, args).value, k) == Some(v)
  {
    PairsAt(args);
    var ps := Pairs(args);
    forall j | 0 <= j < |ps| ensures Keys(ps)[j] != k {
      assert ps[j] == (args[2 * j], args[2 * j + 1]);
    }
    UpdateAllFrame([(k, v)], ps);
  }

  /**
   * The docstring's examples: `ordered_dict(2, "b", 1, "a", 3, "c")`, and a
   * call with three arguments in all, which raises ValueError.
   */
  lemma OrderedDictExample()
    ensures OrderedDict(PyInt(2), PyStr("b"), [PyInt(1), PyStr("a"), PyInt(3), PyStr("c")])
      == Success([(PyInt(2), PyStr("b")), (PyInt(1), PyStr("a")), (PyInt(3), PyStr("c"))])
    ensures OrderedDict(PyStr("f"), PyStr("closure"), [PyStr("g")]) == Failure(ValueError("odd number of arguments"))
  {
    var args := [PyInt(1), PyStr("a"), PyInt(3), PyStr("c")];
    assert args[2..][2..] == [];
    assert Pairs(args) == [(PyInt(1), PyStr("a")), (PyInt(3), PyStr("c"))];
    var d := [(PyInt(2), PyStr("b")), (PyInt(1), PyStr("a")), (PyInt(3), PyStr("c"))];
    assert Keys(d) == [PyInt(2), PyInt(1), PyInt(3)];
    assert DistinctKeys(d);
    assert [(PyInt(2), PyStr("b"))] + Pairs(args) == d;
    OrderedDictInOrder(PyInt(2), PyStr("b"), args);
  }
}

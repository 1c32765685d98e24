/**
 * The argument reconstruction of the `log_arguments` decorator in
 * recipes.py.
 *
 * At decoration time the decorator reads the function's signature and
 * builds a default state: every positional parameter name mapped to None,
 * then the positional defaults zipped onto `argnames[len(defaults):]`, then
 * the keyword-only defaults. On every call it copies that state, stores the
 * i-th positional argument under the i-th parameter name and applies the
 * keyword arguments last; the resulting dict is what gets logged.
 *
 * Python's None is the value parameter `none`: a parameter that the
 * default state leaves None and no argument supplies is reported as
 * `none`, exactly like an argument that was passed as None. With the
 * intended default state that is every parameter neither passed nor
 * defaulted; the slice as written can instead give such a parameter the
 * default of another one.
 */
module ArgumentLog {
  import opened Wrappers
  import opened PyDict

  /**
   * The signature as introspection sees it: `co_varnames[:co_argcount]`
   * (the positional parameter names, in order), `__defaults__` (empty when
   * None) and `__kwdefaults__` (empty when None).
   */
  datatype Signature<V> = Signature(
    argNames: seq<string>,
    positionalDefaults: seq<V>,
    kwonlyDefaults: Dict<string, V>)

  /** What Python guarantees of a function's signature. */
  predicate WellFormed<V>(sig: Signature<V>)
  {
    && Distinct(sig.argNames)
    && |sig.positionalDefaults| <= |sig.argNames|
    && DistinctKeys(sig.kwonlyDefaults)
    && (forall n :: n in Keys(sig.kwonlyDefaults) ==> n !in sig.argNames)
  }

  function Min(a: int, b: int): int
  {
    if a <= b then a else b
  }

  /** Python's `zip`: pairs up the two sequences and stops at the shorter one. */
  function Zip<A, B>(xs: seq<A>, ys: seq<B>): seq<(A, B)>
  {
    seq(Min(|xs|, |ys|), i requires 0 <= i < Min(|xs|, |ys|) => (xs[i], ys[i]))
  }

  /** `names_of_positional_w_defaults` as written: `argnames[len(defaults):]`, or nothing without defaults. */
  function NamesWithDefaults<V>(sig: Signature<V>): seq<string>
  {
    var k := |sig.positionalDefaults|;
    if k == 0 then [] else sig.argNames[Min(k, |sig.argNames|)..]
  }

  /** The parameters Python binds the positional defaults to: the last `len(defaults)` ones. */
  function TrailingNames<V>(sig: Signature<V>): seq<string>
  {
    var n := |sig.argNames|;
    sig.argNames[n - Min(|sig.positionalDefaults|, n)..]
  }

  /**
   * `dict.fromkeys(argnames)`, then the positional defaults zipped onto
   * `defaulted`, then the keyword-only defaults when there are any.
   */
  function BuildDefaultState<V>(sig: Signature<V>, none: V, defaulted: seq<string>): Dict<string, V>
  {
    var declared := FromKeys(sig.argNames, none);
    var withDefaults := UpdateAll(declared, Zip(defaulted, sig.positionalDefaults));
    if |sig.kwonlyDefaults| > 0 then UpdateAll(withDefaults, sig.kwonlyDefaults) else withDefaults
  }

  /** `default_args_state`, as written. */
  function DefaultState<V>(sig: Signature<V>, none: V): Dict<string, V>
  {
    BuildDefaultState(sig, none, NamesWithDefaults(sig))
  }

  /** The default state with each positional default on the parameter Python binds it to. */
  function IntendedDefaultState<V>(sig: Signature<V>, none: V): Dict<string, V>
  {
    BuildDefaultState(sig, none, TrailingNames(sig))
  }

  lemma DistinctSlice<T>(s: seq<T>, a: nat)
    requires Distinct(s) && a <= |s|
    ensures Distinct(s[a..])
  {
    forall i, j | 0 <= i < j < |s| - a ensures s[a..][i] != s[a..][j] {
      assert s[a + i] != s[a + j];
    }
  }

  lemma ZipKeys<A, B>(xs: seq<A>, ys: seq<B>)
    ensures Keys(Zip(xs, ys)) == xs[..Min(|xs|, |ys|)]
  {
  }

  /**
   * The default state holds the parameter names in order, then the
   * keyword-only names; a keyword-only name has its default, a name the
   * positional defaults were zipped onto has the zipped value, and every
   * other parameter name is None.
   */
  lemma {:induction false} BuildDefaultStateSpec<V>(sig: Signature<V>, none: V, defaulted: seq<string>)
    requires WellFormed(sig)
    requires Distinct(defaulted) && forall n :: n in defaulted ==> n in sig.argNames
    ensures DistinctKeys(BuildDefaultState(sig, none, defaulted))
    ensures Keys(BuildDefaultState(sig, none, defaulted)) == sig.argNames + Keys(sig.kwonlyDefaults)
    ensures forall k ::
              Get(BuildDefaultState(sig, none, defaulted), k) ==
              if k in Keys(sig.kwonlyDefaults) then Get(sig.kwonlyDefaults, k)
              else if k in Keys(Zip(defaulted, sig.positionalDefaults)) then Get(Zip(defaulted, sig.positionalDefaults), k)
              else if k in sig.argNames then Some(none)
              else None
  {
    var declared := FromKeys(sig.argNames, none);
    var zipped := Zip(defaulted, sig.positionalDefaults);
    var withDefaults := UpdateAll(declared, zipped);
    FromKeysSpec(sig.argNames, none);
    ZipKeys(defaulted, sig.positionalDefaults);
    assert defaulted == defaulted[..Min(|defaulted|, |sig.positionalDefaults|)] + defaulted[Min(|defaulted|, |sig.positionalDefaults|)..];
    DistinctPrefix(defaulted, Min(|defaulted|, |sig.positionalDefaults|));
    UpdateAllKeys(declared, zipped);
    UpdateAllGet(declared, zipped);
    UpdateAllDistinctKeys(declared, zipped);
    if |sig.kwonlyDefaults| > 0 {
      var kw := sig.kwonlyDefaults;
      UpdateAllFresh(withDefaults, kw);
      KeysAppend(withDefaults, kw);
      UpdateAllGet(withDefaults, kw);
      UpdateAllDistinctKeys(withDefaults, kw);
    } else {
      assert sig.argNames + Keys(sig.kwonlyDefaults) == sig.argNames;
    }
  }

  lemma DistinctPrefix<T>(s: seq<T>, a: nat)
    requires Distinct(s) && a <= |s|
    ensures Distinct(s[..a])
  {
    forall i, j | 0 <= i < j < a ensures s[..a][i] != s[..a][j] {
      assert s[i] != s[j];
    }
  }

  /** In a zip of distinct names, the i-th name is paired with the i-th value. */
  lemma ZipGet<V>(names: seq<string>, values: seq<V>, i: nat)
    requires Distinct(names) && i < |names| && i < |values|
    ensures Get(Zip(names, values), names[i]) == Some(values[i])
  {
    ZipKeys(names, values);
    DistinctPrefix(names, Min(|names|, |values|));
    GetAt(Zip(names, values), i);
  }

  /**
   * The default state as written: with K positional defaults, parameter i
   * holds `defaults[i - K]` when K <= i < 2K, and None otherwise; so it
   * matches Python's binding only when half the parameters have defaults.
   */
  lemma DefaultStateAt<V>(sig: Signature<V>, none: V, i: nat)
    requires WellFormed(sig) && i < |sig.argNames|
    ensures
      var k := |sig.positionalDefaults|;
      Get(DefaultState(sig, none), sig.argNames[i]) ==
        if k <= i < 2 * k then Some(sig.positionalDefaults[i - k]) else Some(none)
  {
    var k := |sig.positionalDefaults|;
    var names := NamesWithDefaults(sig);
    DistinctSlice(sig.argNames, k);
    BuildDefaultStateSpec(sig, none, names);
    var zipped := Zip(names, sig.positionalDefaults);
    ZipKeys(names, sig.positionalDefaults);
    assert sig.argNames[i] !in Keys(sig.kwonlyDefaults);
    if k <= i < 2 * k {
      ZipGet(names, sig.positionalDefaults, i - k);
    } else {
      assert sig.argNames[i] !in Keys(zipped);
    }
  }

  /**
   * The default state Python's binding calls for: parameter i holds its
   * default when it is one of the last K parameters, and None otherwise.
   */
  lemma IntendedDefaultStateAt<V>(sig: Signature<V>, none: V, i: nat)
    requires WellFormed(sig) && i < |sig.argNames|
    ensures
      var first := |sig.argNames| - |sig.positionalDefaults|;
      Get(IntendedDefaultState(sig, none), sig.argNames[i]) ==
        if first <= i then Some(sig.positionalDefaults[i - first]) else Some(none)
  {
    var first := |sig.argNames| - |sig.positionalDefaults|;
    var names := TrailingNames(sig);
    assert names == sig.argNames[first..];
    DistinctSlice(sig.argNames, first);
    BuildDefaultStateSpec(sig, none, names);
    var zipped := Zip(names, sig.positionalDefaults);
    ZipKeys(names, sig.positionalDefaults);
    assert sig.argNames[i] !in Keys(sig.kwonlyDefaults);
    if first <= i {
      ZipGet(names, sig.positionalDefaults, i - first);
    } else {
      assert sig.argNames[i] !in Keys(zipped);
    }
  }

  /**
   * Both default states list every positional parameter name, in order,
   * then the keyword-only names, each holding its keyword-only default.
   */
  lemma DefaultStateKeys<V>(sig: Signature<V>, none: V)
    requires WellFormed(sig)
    ensures Keys(DefaultState(sig, none)) == sig.argNames + Keys(sig.kwonlyDefaults)
    ensures Keys(IntendedDefaultState(sig, none)) == sig.argNames + Keys(sig.kwonlyDefaults)
    ensures forall n :: n in Keys(sig.kwonlyDefaults) ==>
      Get(DefaultState(sig, none), n) == Get(sig.kwonlyDefaults, n) &&
      Get(IntendedDefaultState(sig, none), n) == Get(sig.kwonlyDefaults, n)
  {
    var k := |sig.positionalDefaults|;
    var n := |sig.argNames|;
    DistinctSlice(sig.argNames, Min(k, n));
    DistinctSlice(sig.argNames, n - Min(k, n));
    BuildDefaultStateSpec(sig, none, NamesWithDefaults(sig));
    BuildDefaultStateSpec(sig, none, TrailingNames(sig));
  }

  /** When exactly half the parameters have defaults, the slice as written is the right one. */
  lemma DefaultStateWhenHalf<V>(sig: Signature<V>, none: V)
    requires 2 * |sig.positionalDefaults| == |sig.argNames|
    ensures DefaultState(sig, none) == IntendedDefaultState(sig, none)
  {
    assert NamesWithDefaults(sig) == TrailingNames(sig);
  }

  /** The per-call state: positional arguments by index, then keyword arguments by name. */
  function Overlay<V>(state: Dict<string, V>, argNames: seq<string>, args: seq<V>, kwargs: Dict<string, V>): Dict<string, V>
  {
    UpdateAll(UpdateAll(state, Zip(argNames, args)), kwargs)
  }

  lemma ZipCons<A, B>(xs: seq<A>, ys: seq<B>)
    requires xs != [] && ys != []
    ensures Zip(xs, ys) == [(xs[0], ys[0])] + Zip(xs[1..], ys[1..])
  {
  }

  /**
   * The wrapper's body: copies the default state, stores each positional
   * argument under the parameter name at its index and applies the keyword
   * arguments. More positional arguments than parameter names (a function
   * taking `*args`) make `argnames[pos]` raise IndexError.
   */
  method Reconstruct<V>(state: Dict<string, V>, argNames: seq<string>, args: seq<V>, kwargs: Dict<string, V>)
    returns (r: Result<Dict<string, V>, PyError>)
    ensures |args| <= |argNames| ==> r == Success(Overlay(state, argNames, args, kwargs))
    ensures |argNames| < |args| ==> r == Failure(IndexError("tuple index out of range"))
  {
    var arguments := state;
    var pos := 0;
    while pos < |args|
      invariant 0 <= pos <= |args| && pos <= |argNames|
      invariant UpdateAll(arguments, Zip(argNames[pos..], args[pos..])) == UpdateAll(state, Zip(argNames, args))
    {
      if pos == |argNames| {
        return Failure(IndexError("tuple index out of range"));
      }
      ZipCons(argNames[pos..], args[pos..]);
      assert argNames[pos..][1..] == argNames[pos + 1..];
      assert args[pos..][1..] == args[pos + 1..];
      UpdateAllCons(arguments, Zip(argNames[pos..], args[pos..]));
      arguments := Set(arguments, argNames[pos], args[pos]);
      pos := pos + 1;
    }
    assert Zip(argNames[pos..], args[pos..]) == [];
    arguments := UpdateAll(arguments, kwargs);
    return Success(arguments);
  }

  /** A keyword argument overrides defaults and positional values. */
  lemma OverlayKeywordWins<V>(state: Dict<string, V>, argNames: seq<string>, args: seq<V>, kwargs: Dict<string, V>, k: string)
    requires DistinctKeys(kwargs) && k in Keys(kwargs)
    ensures Get(Overlay(state, argNames, args, kwargs), k) == Get(kwargs, k)
  {
    UpdateAllDistinct(UpdateAll(state, Zip(argNames, args)), kwargs, k);
  }

  /** The i-th positional argument is stored under the i-th parameter name, unless a keyword names it. */
  lemma OverlayPositional<V>(state: Dict<string, V>, argNames: seq<string>, args: seq<V>, kwargs: Dict<string, V>, i: nat)
    requires Distinct(argNames) && i < |args| && i < |argNames|
    requires argNames[i] !in Keys(kwargs)
    ensures Get(Overlay(state, argNames, args, kwargs), argNames[i]) == Some(args[i])
  {
    var zipped := Zip(argNames, args);
    UpdateAllFrame(UpdateAll(state, zipped), kwargs);
    ZipKeys(argNames, args);
    DistinctPrefix(argNames, Min(|argNames|, |args|));
    UpdateAllDistinct(state, zipped, argNames[i]);
    ZipGet(argNames, args, i);
  }

  /** A name that neither a positional nor a keyword argument supplies keeps its value from the state. */
  lemma OverlayUntouched<V>(state: Dict<string, V>, argNames: seq<string>, args: seq<V>, kwargs: Dict<string, V>, k: string)
    requires k !in argNames[..Min(|argNames|, |args|)] && k !in Keys(kwargs)
    ensures Get(Overlay(state, argNames, args, kwargs), k) == Get(state, k)
  {
    var zipped := Zip(argNames, args);
    UpdateAllFrame(UpdateAll(state, zipped), kwargs);
    ZipKeys(argNames, args);
    UpdateAllFrame(state, zipped);
  }

  /**
   * No key of the state is removed and all keep their places; the only new
   * keys are those of extra keyword arguments (and of positional arguments
   * whose name the state lacks).
   */
  lemma OverlayKeys<V>(state: Dict<string, V>, argNames: seq<string>, args: seq<V>, kwargs: Dict<string, V>)
    ensures |state| <= |Overlay(state, argNames, args, kwargs)|
    ensures Keys(Overlay(state, argNames, args, kwargs))[..|state|] == Keys(state)
    ensures forall k :: k in Keys(Overlay(state, argNames, args, kwargs)) <==>
      k in Keys(state) || k in argNames[..Min(|argNames|, |args|)] || k in Keys(kwargs)
  {
    var zipped := Zip(argNames, args);
    var positional := UpdateAll(state, zipped);
    ZipKeys(argNames, args);
    UpdateAllKeys(state, zipped);
    UpdateAllKeys(positional, kwargs);
    assert Keys(Overlay(state, argNames, args, kwargs))[..|state|] == Keys(Overlay(state, argNames, args, kwargs))[..|positional|][..|state|];
  }

  /** The decorated function: the function itself, or the argument-logging wrapper around it. */
  datatype Decorated<V> =
    | Undecorated
    | ArgumentLogger(argNames: seq<string>, defaultState: Dict<string, V>)

  /**
   * `log_arguments`: under `python -O` (`debug` false) the function itself;
   * otherwise a wrapper holding the parameter names and the default state,
   * both computed once, here.
   */
  function LogArguments<V>(sig: Signature<V>, none: V, debug: bool): (w: Decorated<V>)
    ensures !debug <==> w == Undecorated
    ensures debug ==> w.argNames == sig.argNames && w.defaultState == DefaultState(sig, none)
  {
    if !debug then Undecorated else ArgumentLogger(sig.argNames, DefaultState(sig, none))
  }

  /** `log_arguments` with each positional default bound to the parameter Python binds it to. */
  function IntendedLogArguments<V>(sig: Signature<V>, none: V, debug: bool): (w: Decorated<V>)
    ensures !debug <==> w == Undecorated
    ensures debug ==> w.argNames == sig.argNames && w.defaultState == IntendedDefaultState(sig, none)
  {
    if !debug then Undecorated else ArgumentLogger(sig.argNames, IntendedDefaultState(sig, none))
  }

  /** What one call of the decorated function does before the function body runs. */
  datatype Invocation<V> =
    | CalledDirectly
    | LoggedThenCalled(arguments: Dict<string, V>)
    | Raised(error: PyError)

  /**
   * One call: the undecorated function is called as is; the wrapper logs
   * the reconstructed arguments and then calls the function, or raises
   * before logging when the positional arguments outnumber the names.
   */
  method Invoke<V>(w: Decorated<V>, args: seq<V>, kwargs: Dict<string, V>) returns (outcome: Invocation<V>)
    ensures w.Undecorated? ==> outcome == CalledDirectly
    ensures w.ArgumentLogger? && |args| <= |w.argNames| ==>
      outcome == LoggedThenCalled(Overlay(w.defaultState, w.argNames, args, kwargs))
    ensures w.ArgumentLogger? && |w.argNames| < |args| ==>
      outcome == Raised(IndexError("tuple index out of range"))
  {
    match w
    case Undecorated =>
      outcome := CalledDirectly;
    case ArgumentLogger(argNames, defaultState) =>
      var r := Reconstruct(defaultState, argNames, args, kwargs);
      outcome := if r.Success? then LoggedThenCalled(r.value) else Raised(r.error);
  }

  /**
   * Every declared positional parameter name appears in the logged
   * arguments, in declaration order, at the front.
   */
  lemma DeclaredNamesLogged<V>(sig: Signature<V>, none: V, args: seq<V>, kwargs: Dict<string, V>)
    requires WellFormed(sig)
    ensures |sig.argNames| <= |Overlay(DefaultState(sig, none), sig.argNames, args, kwargs)|
    ensures Keys(Overlay(DefaultState(sig, none), sig.argNames, args, kwargs))[..|sig.argNames|] == sig.argNames
    ensures DistinctKeys(Overlay(DefaultState(sig, none), sig.argNames, args, kwargs))
    ensures DistinctKeys(Overlay(IntendedDefaultState(sig, none), sig.argNames, args, kwargs))
    ensures |sig.argNames| <= |Overlay(IntendedDefaultState(sig, none), sig.argNames, args, kwargs)|
    ensures Keys(Overlay(IntendedDefaultState(sig, none), sig.argNames, args, kwargs))[..|sig.argNames|] == sig.argNames
  {
    var state := DefaultState(sig, none);
    DefaultStateKeys(sig, none);
    OverlayKeys(state, sig.argNames, args, kwargs);
    assert Keys(state)[..|sig.argNames|] == sig.argNames;
    var k := |sig.positionalDefaults|;
    var n := |sig.argNames|;
    var zipped := Zip(sig.argNames, args);
    DistinctSlice(sig.argNames, Min(k, n));
    DistinctSlice(sig.argNames, n - Min(k, n));
    BuildDefaultStateSpec(sig, none, NamesWithDefaults(sig));
    BuildDefaultStateSpec(sig, none, TrailingNames(sig));
    UpdateAllDistinctKeys(state, zipped);
    UpdateAllDistinctKeys(UpdateAll(state, zipped), kwargs);
    var intended := IntendedDefaultState(sig, none);
    OverlayKeys(intended, sig.argNames, args, kwargs);
    assert Keys(intended)[..|sig.argNames|] == sig.argNames;
    UpdateAllDistinctKeys(intended, zipped);
    UpdateAllDistinctKeys(UpdateAll(intended, zipped), kwargs);
  }

  /**
   * A parameter that no argument supplies and that the default state as
   * written leaves without a default is logged as None.
   */
  lemma UnsuppliedIsNone<V>(sig: Signature<V>, none: V, args: seq<V>, kwargs: Dict<string, V>, i: nat)
    requires WellFormed(sig) && |args| <= i < |sig.argNames|
    requires sig.argNames[i] !in Keys(kwargs)
    requires !(|sig.positionalDefaults| <= i < 2 * |sig.positionalDefaults|)
    ensures Get(Overlay(DefaultState(sig, none), sig.argNames, args, kwargs), sig.argNames[i]) == Some(none)
  {
    DefaultStateAt(sig, none, i);
    NotInPrefix(sig.argNames, i, Min(|sig.argNames|, |args|));
    OverlayUntouched(DefaultState(sig, none), sig.argNames, args, kwargs, sig.argNames[i]);
  }

  /**
   * With the intended default state, a parameter without a declared default
   * that no argument supplies is logged as None.
   */
  lemma IntendedUnsuppliedIsNone<V>(sig: Signature<V>, none: V, args: seq<V>, kwargs: Dict<string, V>, i: nat)
    requires WellFormed(sig) && |args| <= i < |sig.argNames| - |sig.positionalDefaults|
    requires sig.argNames[i] !in Keys(kwargs)
    ensures Get(Overlay(IntendedDefaultState(sig, none), sig.argNames, args, kwargs), sig.argNames[i]) == Some(none)
  {
    IntendedDefaultStateAt(sig, none, i);
    NotInPrefix(sig.argNames, i, Min(|sig.argNames|, |args|));
    OverlayUntouched(IntendedDefaultState(sig, none), sig.argNames, args, kwargs, sig.argNames[i]);
  }

  lemma NotInPrefix<T>(s: seq<T>, i: nat, a: nat)
    requires Distinct(s) && a <= i < |s|
    ensures s[i] !in s[..a]
  {
  }

  /**
   * With the intended default state, a call that passes fewer positional
   * arguments and no keywords logs each omitted trailing parameter with its
   * declared default.
   */
  lemma OmittedTrailingGetDefaults<V>(sig: Signature<V>, none: V, args: seq<V>, i: nat)
    requires WellFormed(sig) && |args| <= i < |sig.argNames|
    requires |sig.argNames| - |sig.positionalDefaults| <= i
    ensures Get(Overlay(IntendedDefaultState(sig, none), sig.argNames, args, []), sig.argNames[i])
      == Some(sig.positionalDefaults[i - (|sig.argNames| - |sig.positionalDefaults|)])
  {
    IntendedDefaultStateAt(sig, none, i);
    NotInPrefix(sig.argNames, i, Min(|sig.argNames|, |args|));
    OverlayUntouched(IntendedDefaultState(sig, none), sig.argNames, args, [], sig.argNames[i]);
  }

  /** `greet(name, greeting="Hi")` called as `greet("Sam")` logs `{name: "Sam", greeting: "Hi"}`. */
  lemma GreetExample()
    ensures
      var sig := Signature(["name", "greeting"], [PyStr("Hi")], []);
      Overlay(DefaultState(sig, PyNone), sig.argNames, [PyStr("Sam")], [])
        == [("name", PyStr("Sam")), ("greeting", PyStr("Hi"))]
  {
    var sig := Signature(["name", "greeting"], [PyStr("Hi")], []);
    var state := DefaultState(sig, PyNone);
    assert NamesWithDefaults(sig) == ["greeting"];
    assert Zip(["greeting"], [PyStr("Hi")]) == [("greeting", PyStr("Hi"))];
    assert ["name", "greeting"][..1] == ["name"] && ["name"][..0] == [];
    assert FromKeys(["name"], PyNone) == [("name", PyNone)];
    assert [("name", PyNone)][1..] == [];
    assert Set([("name", PyNone)], "greeting", PyNone) == [("name", PyNone), ("greeting", PyNone)];
    assert FromKeys(["name", "greeting"], PyNone) == [("name", PyNone), ("greeting", PyNone)];
    assert state == [("name", PyNone), ("greeting", PyStr("Hi"))];
    assert Zip(["name", "greeting"], [PyStr("Sam")]) == [("name", PyStr("Sam"))];
  }

  /** `add(a, b=2, *, c=3)` called as `add(1, c=9)` logs `{a: 1, b: 2, c: 9}`. */
  lemma AddExample()
    ensures
      var sig := Signature(["a", "b"], [PyInt(2)], [("c", PyInt(3))]);
      Overlay(DefaultState(sig, PyNone), sig.argNames, [PyInt(1)], [("c", PyInt(9))])
        == [("a", PyInt(1)), ("b", PyInt(2)), ("c", PyInt(9))]
  {
    var sig := Signature(["a", "b"], [PyInt(2)], [("c", PyInt(3))]);
    var state := DefaultState(sig, PyNone);
    assert NamesWithDefaults(sig) == ["b"];
    assert Zip(["b"], [PyInt(2)]) == [("b", PyInt(2))];
    assert ["a", "b"][..1] == ["a"] && ["a"][..0] == [];
    assert FromKeys(["a"], PyNone) == [("a", PyNone)];
    assert [("a", PyNone)][1..] == [];
    assert Set([("a", PyNone)], "b", PyNone) == [("a", PyNone), ("b", PyNone)];
    assert FromKeys(["a", "b"], PyNone) == [("a", PyNone), ("b", PyNone)];
    assert state == [("a", PyNone), ("b", PyInt(2)), ("c", PyInt(3))];
    assert Zip(["a", "b"], [PyInt(1)]) == [("a", PyInt(1))];
  }

  /**
   * `f(a, b, c=3)` called as `f(1, 2)`: the slice as written zips the default
   * onto `b`, which the call overwrites, so `c` is logged as None although
   * the function receives 3; the intended state logs 3.
   */
  lemma TrailingDefaultLost()
    ensures
      var sig := Signature(["a", "b", "c"], [PyInt(3)], []);
      var args := [PyInt(1), PyInt(2)];
      && Get(Overlay(DefaultState(sig, PyNone), sig.argNames, args, []), "c") == Some(PyNone)
      && Get(Overlay(IntendedDefaultState(sig, PyNone), sig.argNames, args, []), "c") == Some(PyInt(3))
  {
    var sig := Signature(["a", "b", "c"], [PyInt(3)], []);
    var args := [PyInt(1), PyInt(2)];
    assert WellFormed(sig);
    UnsuppliedIsNone(sig, PyNone, args, [], 2);
    OmittedTrailingGetDefaults(sig, PyNone, args, 2);
  }

  /**
   * `f(a, b, c, d=4)` called as `f(1)`: the slice as written zips the default
   * onto `b`, which has no default, so `b` is logged as 4 although it was
   * neither passed nor defaulted; the intended state logs None.
   */
  lemma NonDefaultedGetsDefault()
    ensures
      var sig := Signature(["a", "b", "c", "d"], [PyInt(4)], []);
      var args := [PyInt(1)];
      && Get(Overlay(DefaultState(sig, PyNone), sig.argNames, args, []), "b") == Some(PyInt(4))
      && Get(Overlay(IntendedDefaultState(sig, PyNone), sig.argNames, args, []), "b") == Some(PyNone)
  {
    var sig := Signature(["a", "b", "c", "d"], [PyInt(4)], []);
    var args := [PyInt(1)];
    assert WellFormed(sig);
    DefaultStateAt(sig, PyNone, 1);
    NotInPrefix(sig.argNames, 1, 1);
    OverlayUntouched(DefaultState(sig, PyNone), sig.argNames, args, [], "b");
    IntendedUnsuppliedIsNone(sig, PyNone, args, [], 1);
  }

  /**
   * `f(a, b=1, c=2)` called as `f(1)`, a call Python accepts: the slice as
   * written zips the first default onto `c` and leaves `b` None, while the
   * function receives `b=1, c=2`; the intended state logs those.
   */
  lemma DefaultsShifted()
    ensures
      var sig := Signature(["a", "b", "c"], [PyInt(1), PyInt(2)], []);
      var args := [PyInt(1)];
      && Get(Overlay(DefaultState(sig, PyNone), sig.argNames, args, []), "b") == Some(PyNone)
      && Get(Overlay(DefaultState(sig, PyNone), sig.argNames, args, []), "c") == Some(PyInt(1))
      && Get(Overlay(IntendedDefaultState(sig, PyNone), sig.argNames, args, []), "b") == Some(PyInt(1))
      && Get(Overlay(IntendedDefaultState(sig, PyNone), sig.argNames, args, []), "c") == Some(PyInt(2))
  {
    var sig := Signature(["a", "b", "c"], [PyInt(1), PyInt(2)], []);
    var args := [PyInt(1)];
    assert WellFormed(sig);
    UnsuppliedIsNone(sig, PyNone, args, [], 1);
    DefaultStateAt(sig, PyNone, 2);
    NotInPrefix(sig.argNames, 2, 1);
    OverlayUntouched(DefaultState(sig, PyNone), sig.argNames, args, [], "c");
    OmittedTrailingGetDefaults(sig, PyNone, args, 1);
    OmittedTrailingGetDefaults(sig, PyNone, args, 2);
  }
}

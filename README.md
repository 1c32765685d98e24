# recipes.py in Dafny

A Dafny model of the helper module `recipes.py`. It covers:

- the argument reconstruction of the `log_arguments` debugging decorator;
- the mapping helpers (`inverse_mapping`, `get_mapping_without_key`,
  `get_any_key_with_this_value`, `filter_by_keys`, `filter_by_values`,
  `copy_and_update`, `ordered_dict`);
- the string helpers `remove_blank_lines` and `quoted_comma_separated`;
- the sequence helpers `daterange`, `append_if` and `prepend_if`.

Files, one module each:

- `wrappers.dfy` (`Wrappers`): Option and Result, the Python exceptions
  raised (ValueError, IndexError) and a small Python value type for worked
  examples.
- `pydict.dfy` (`PyDict`): Python's insertion-ordered `dict` as the
  sequence of its items.
  - `Get` is `d.get(k)`.
  - `Set` is `d[k] = v`. It replaces the value of a key already present,
    in its place, and appends a new key.
  - `UpdateAll` is `d.update(pairs)`, the pairs assigned one after the
    other.
  - `FromKeys` is `dict.fromkeys`.
  - `DistinctKeys` says that no key occurs twice. Every dict built with
    these operations has this property, and Python guarantees it for any
    mapping. Where a contract needs it of an argument (a `**kwargs` dict,
    a mapping argument), it appears as a `requires`.
- `mappings.dfy` (`Mappings`): the mapping helpers and `ordered_dict`.
- `argument_log.dfy` (`ArgumentLog`): `log_arguments`.
  - At decoration time it builds the default state from the signature.
    The signature is the parameter names `co_varnames[:co_argcount]`, the
    positional defaults and the keyword-only defaults.
  - On each call the wrapper copies the default state, stores the i-th
    positional argument under the i-th name, then applies the keyword
    arguments.
  - Python's `None` is the value parameter `none`. A parameter is logged
    as `none` when the default state leaves it None and no argument
    supplies it, just like an argument passed as None. This ambiguity is
    kept. With `ArgumentLog.IntendedDefaultState` that holds for every
    parameter neither passed nor defaulted. As written, the
    `argnames[len(defaults):]` slice can give such a parameter another
    parameter's default (see Findings).
  - Under `python -O` (`__debug__` false) the decorator returns the
    function unchanged. This is the `debug` parameter.
- `strings.dfy` (`Strings`): `str.split`, `str.join`, `remove_blank_lines`
  and `quoted_comma_separated`.
- `sequences.dfy` (`Sequences`): `daterange` with dates as day numbers,
  `append_if` and `prepend_if`.

The loops of the source are methods proved against the functions that
specify them:

- the pair-reading loop of `ordered_dict` is `Mappings.BuildOrderedDict`;
- the positional loop of the wrapper is `ArgumentLog.Reconstruct`.

Generator expressions and comprehensions that build a new value in one
step are functions. `append_if`, `prepend_if` and `daterange` are
generators; they are modelled by the finite sequence they yield.

The docstring of `log_arguments` (recipes.py:139-140) promises that
functions with default argument values are handled correctly. Python binds
`__defaults__` to the last `len(__defaults__)` positional parameters, but
the code zips the defaults onto `argnames[len(defaults):]`. The model
follows the code in `ArgumentLog.DefaultState` and records the difference
under Findings. `ArgumentLog.IntendedDefaultState` binds the defaults to
the last parameters, and the trailing-default and unsupplied-is-None
properties are proved for it. `ArgumentLog.Invoke` works for either
default state.

## Model

| member | source | states |
|---|---|---|
| PyDict.SetSpec | recipes.py:124-129 | `odi[k] = v` replaces the value of a present key in its place and appends a new key; no other key's value changes; no key is ever held twice |
| PyDict.FromKeysSpec | recipes.py:156 | `dict.fromkeys(argnames)` maps exactly the names to None, without repeated keys, keys in name order when the names are distinct |
| PyDict.UpdateAllKeys | recipes.py:157-159 | `dict.update` keeps the old keys in their places, adds only the new keys of the pairs, and adds nothing when all keys were present |
| PyDict.UpdateAllFrame | recipes.py:157-159 | a key the update does not mention keeps its value |
| PyDict.UpdateAllLastWins | recipes.py:157-159 | after an update a key holds the value of the last pair that names it |
| PyDict.UpdateAllDistinctKeys | recipes.py:157-159 | an update never produces a repeated key |
| PyDict.UpdateAllFresh | recipes.py:157-159 | updating with new, pairwise distinct keys appends the pairs in order |
| Mappings.InverseMapping | recipes.py:59-60 | the inverse has no repeated key, and its keys are exactly the values of the mapping |
| Mappings.InverseMappingLastWins | recipes.py:59-60 | each value maps back to the key of its last occurrence in iteration order |
| Mappings.InverseMappingRoundTrip | recipes.py:59-60 | inverting a one-to-one mapping twice gives back the mapping, order included |
| Mappings.WithoutKey | recipes.py:63-64 | looking up the removed key gives nothing; every other key gives what the mapping gives; the remaining items keep their order (the result is the mapping filtered on the key) |
| Mappings.WithoutKeyUndoesSet | recipes.py:63-64 | removing a key just added to the mapping gives back the mapping, order included |
| Mappings.AnyKeyWithValue | recipes.py:67-72 | the result is the first key in iteration order whose value equals the one sought, or the default when no value does |
| Mappings.FilterItemsAppend | recipes.py:75-94 | filtering keeps iteration order: filtering a concatenation is concatenating the filtered parts |
| Mappings.FilterByKeys | recipes.py:75-83 | every item produced is an item of the mapping whose key passes the condition (fails it when negated), and every such item is produced |
| Mappings.FilterByValues | recipes.py:86-94 | every item produced is an item of the mapping whose value passes the condition (fails it when negated), and every such item is produced |
| Mappings.FilterByKeysPartition | recipes.py:75-83 | the plain and the negated filter by key together produce each item of the mapping exactly once |
| Mappings.FilterByValuesPartition | recipes.py:86-94 | the plain and the negated filter by value together produce each item of the mapping exactly once |
| Mappings.CopyAndUpdate | recipes.py:97-100 | the copy has the keys of the mapping in their places, then the new keyword keys; a keyword wins over the mapping's value; no key is repeated |
| Mappings.PairsAt | recipes.py:125-129 | the flat argument list is read as consecutive (key, value) pairs |
| Mappings.BuildOrderedDict | recipes.py:121-132 | the loop raises ValueError for an odd number of extra arguments and otherwise yields the dict `OrderedDict` specifies |
| Mappings.OrderedDictFails | recipes.py:121-122 | the call fails exactly when the number of extra arguments is odd, with "odd number of arguments" |
| Mappings.OrderedDictInOrder | recipes.py:123-132 | with distinct keys the dict is the first pair then the argument pairs, in argument order |
| Mappings.OrderedDictLastWins | recipes.py:123-132 | with repeated keys the last assignment of a key given in the arguments wins |
| Mappings.OrderedDictFirstKeyKept | recipes.py:123-132 | the first pair's key keeps the first value unless a later pair assigns the key again |
| Mappings.OrderedDictExample | recipes.py:104-119 | the two docstring examples: the ordered result, and ValueError for an odd count |
| ArgumentLog.BuildDefaultStateSpec | recipes.py:146-159 | the default state lists the parameter names then the keyword-only names; each name holds its keyword-only default, its zipped positional default, or None |
| ArgumentLog.DefaultStateAt | recipes.py:150-157 | as written, with K positional defaults, parameter i holds default i-K when K <= i < 2K, and None otherwise |
| ArgumentLog.IntendedDefaultStateAt | recipes.py:146-159 | with the defaults bound to the last K parameters, each of those holds its default and every other parameter holds None |
| ArgumentLog.DefaultStateKeys | recipes.py:146-159 | both default states hold every parameter name in order, then the keyword-only names with their defaults |
| ArgumentLog.DefaultStateWhenHalf | recipes.py:150-151 | when exactly half the parameters have defaults, the slice as written binds them correctly |
| ArgumentLog.Reconstruct | recipes.py:164-167 | the wrapper's loop gives the default state overlaid with the positional arguments by index and then the keywords, or IndexError when there are more positional arguments than names |
| ArgumentLog.OverlayKeywordWins | recipes.py:167 | a keyword argument overrides both the default and a positional value |
| ArgumentLog.OverlayPositional | recipes.py:165-166 | the i-th positional argument is logged under the i-th parameter name unless a keyword names it |
| ArgumentLog.OverlayUntouched | recipes.py:164-167 | a name no argument supplies keeps its value from the default state |
| ArgumentLog.OverlayKeys | recipes.py:164-167 | no key is removed or moved; the only new keys come from the arguments |
| ArgumentLog.LogArguments | recipes.py:142-160 | the function comes back unchanged exactly when optimisation is on; otherwise the wrapper holds the names and the default state computed once |
| ArgumentLog.IntendedLogArguments | recipes.py:142-160 | the same, with the corrected default state |
| ArgumentLog.Invoke | recipes.py:142-167 | a call of the undecorated function is direct; a call of the wrapper logs the reconstructed arguments, or raises IndexError before logging |
| ArgumentLog.DeclaredNamesLogged | recipes.py:156-167 | every declared parameter name is logged, in declaration order, at the front, and the logged arguments hold no name twice, for both default states |
| ArgumentLog.UnsuppliedIsNone | recipes.py:154-167 | a parameter neither supplied nor defaulted by the state as written is logged as None |
| ArgumentLog.IntendedUnsuppliedIsNone | recipes.py:154-167 | with the corrected state, a parameter without a declared default that no argument supplies is logged as None |
| ArgumentLog.OmittedTrailingGetDefaults | recipes.py:135-167 | with the corrected state, each omitted trailing parameter is logged with its declared default |
| ArgumentLog.GreetExample | recipes.py:146-167 | `greet(name, greeting="Hi")` called as `greet("Sam")` logs both names with "Sam" and "Hi" |
| ArgumentLog.AddExample | recipes.py:146-167 | `add(a, b=2, *, c=3)` called as `add(1, c=9)` logs a=1, b=2, c=9 |
| ArgumentLog.TrailingDefaultLost | recipes.py:150-151 | `f(a, b, c=3)` called as `f(1, 2)` logs c as None as written, and as 3 when corrected |
| ArgumentLog.DefaultsShifted | recipes.py:150-157 | `f(a, b=1, c=2)` called as `f(1)` logs b as None and c as 1 as written, and b=1, c=2 when corrected |
| ArgumentLog.NonDefaultedGetsDefault | recipes.py:150-157 | `f(a, b, c, d=4)` called as `f(1)` logs b, which has no default, as 4 as written, and as None when corrected |
| Strings.JoinSplit | recipes.py:289-296 | joining the pieces of a split with the same separator gives back the string |
| Strings.SplitJoin | recipes.py:289-296 | with a one-character separator, splitting undoes joining pieces that do not contain it |
| Strings.KeptLinesAppend | recipes.py:292-294 | the line filter keeps the order of lines |
| Strings.RemoveBlankLines | recipes.py:289-296 | the call fails with ValueError exactly when the separator is empty |
| Strings.RemoveBlankLinesLines | recipes.py:289-296 | with a one-character separator the lines of the result are exactly the non-empty, non-blank lines of the input in order, and the result is empty when every line is blank |
| Strings.QuotedCommaSeparated | recipes.py:272-280 | an empty input renders as the empty string, a single string as that string inside the quotes |
| Strings.QuotedCommaSeparatedAppend | recipes.py:272-280 | rendering a concatenation gives the two renderings joined by ", " |
| Strings.QuotedCommaSeparatedExample | recipes.py:273-279 | the docstring example renders `'a', 'b', 'c'` |
| Sequences.DateRange | recipes.py:49-52 | the range has end-start days, one more with the end included, and none when that count is negative; it starts at `start` and is strictly increasing |
| Sequences.DateRangeMembers | recipes.py:49-52 | a day is in the range exactly when it lies between start and end, with the end included only when asked for |
| Sequences.DateRangeIncludeEnd | recipes.py:49-52 | including the end day is the same as ending one day later |
| Sequences.DateRangeSplit | recipes.py:49-52 | two consecutive ranges concatenate into the range that spans both |
| Sequences.AppendIf | recipes.py:322-330 | the input comes first, unchanged; one item more exactly when the condition holds, and that item is the value |
| Sequences.PrependIf | recipes.py:333-339 | the input comes last, unchanged; one item more exactly when the condition holds, and that item is the value, first |
| Sequences.PrependIfMirrorsAppendIf | recipes.py:322-339 | prepending is appending to the reversed input, reversed |

## Left out

- Logging itself: `log_on_behalf_of_func`, the log level and the message
  text. `ArgumentLog.Invoke` records what would be logged. It does not
  model the emission or the call of the wrapped function.
- `ExecutionTimeLogger`: it depends on a clock and on logging.
- Introspection: `__code__`, `__defaults__`, `__kwdefaults__` and
  `functools.wraps`. Dafny cannot inspect a function object, so the
  signature is the explicit value `ArgumentLog.Signature`.
- `MappingProxyType`: the default state is an immutable value, so the
  read-only view adds nothing.
- `hex_hash` (MD5), `to_date` (strptime), `days_ago` (today's date) and
  `date_to_datetime`: hashing, date parsing and the clock are outside the
  model.
- `read_string_from_file`, `read_json_from_file` and
  `read_jsonlines_from_file`: file I/O and JSON parsing.
- `suppress_warnings` and `suppress`: they depend on Python's exception and
  warning machinery.
- `join_format` and `format_if`: `str.format` templates are not modelled.
- Sequences.AppendIf and Sequences.PrependIf: the condition is a total
  function parameter. The default `bool` (Python truthiness) and a
  condition that raises are not modelled.
- Sequences.DateRange: dates are day numbers, so calendar dates and
  `timedelta` are not modelled.
- Strings.RemoveBlankLinesLines: stated for one-character separators such
  as the default newline. For longer separators only the round trip
  `Strings.JoinSplit` is proved.
- Mappings.InverseMapping, Mappings.FilterByKeys and Mappings.FilterByValues:
  the results are finite sequences. The laziness of the filter generators
  is not modelled.
- Mappings.CopyAndUpdate: the keyword arguments are a dict without repeated
  names, as Python guarantees for `**kwargs`.
- Mappings.OrderedDict: keys and values share one type parameter. Hashing
  (an unhashable key raising TypeError) is not modelled.
- ArgumentLog.Invoke: Python's binding errors when the wrapped function is
  called (missing, repeated or unexpected arguments) come after logging
  and are not modelled.

## Findings

| source | as written | input that shows it | evidently intended | confidence | as-written member | corrected member |
|---|---|---|---|---|---|---|
| recipes.py:150-151 | the positional defaults are zipped onto `argnames[len(defaults):]`, which starts at index K instead of n-K | `f(a, b, c=3)` called as `f(1, 2)`: the default 3 is put on `b`, which the call overwrites, so `c` is logged as None although the function receives 3; likewise `f(a, b=1, c=2)` called as `f(1)` logs `b=None, c=1` while the function receives `b=1, c=2` (ArgumentLog.DefaultsShifted) | the last K parameters hold the K defaults (`argnames[-len(defaults):]`) | high, not executed | ArgumentLog.TrailingDefaultLost | ArgumentLog.OmittedTrailingGetDefaults |
| recipes.py:150-157 | the same slice zips a default onto a parameter that has none | `f(a, b, c, d=4)` called as `f(1)`: the default 4 is put on `b`, so `b` is logged as 4 although it was neither passed nor defaulted; Python then rejects such a call with TypeError for the missing arguments, after the wrong log line is written | a parameter without a declared default that no argument supplies is logged as None, as the comment at recipes.py:154-155 says | high, not executed | ArgumentLog.NonDefaultedGetsDefault | ArgumentLog.IntendedUnsuppliedIsNone |

# Indexed ordered dictionaries of triad, in Dafny

This project models `triad/collections/dict.py`, which holds two classes.

- `IndexedOrderedDict` is an insertion-ordered dictionary (a Python `OrderedDict`) that also answers
  positional queries. It keeps an index cache beside the entries:
  - `_index_key`: position -> key;
  - `_key_index`: key -> position;
  - `_need_reindex`: a stale flag.

  Positional accessors rebuild the cache first, but only when the flag is set. Structural mutators set the flag.
- `ParamDict` is an `IndexedOrderedDict` whose keys must be strings. It adds:
  - `update`, a merge under a duplicate-key policy (OVERWRITE = 0, THROW = 1, IGNORE = 2);
  - three lookups that coerce the stored value to an expected type: `get`, `get_or_none` and `get_or_throw`.

Files and modules:

- `ordered_store.dfy`, module `OrderedStore`: the dictionary state as a value. It defines
  `Store(keys, vals, stale)`, the exceptions as an `Error` datatype, and the pure operations the classes are
  specified by:
  - `Put` is `d[k] = v`, including its effect on the flag;
  - `Remove` and `MoveKey` change the key order;
  - `IndexMap` is the `{x: i for i, x in enumerate(keys)}` cache;
  - `ListIndex` is Python list indexing;
  - `Items`, `PutAll`, `FromPairs` and `LastWins` model `items()`, `OrderedDict(pairs)` and `dict(pairs)`.

  The module also holds the lemmas about these operations.
- `indexed_dict.dfy`, module `IndexedDict`: the class `IndexedOrderedDict` with the fields `keys`, `vals`,
  `needReindex`, `indexKey` and `keyIndex`. Each method's postcondition states the whole new state.
- `param_dict.dfy`, module `ParamDicts`: the key type `Key = Str(s) | Other(id)`, where `Other` stands for any
  non-string hashable. It also holds:
  - `Merge`, the specification of `update`, built from `Step` (one pass of the loop) and `Assign` (the
    string-key check), with lemmas for each policy;
  - the class `ParamDict`, which owns an `IndexedOrderedDict<Key, V>` in the field `dict`.

Dafny has no class inheritance here, so ParamDict's "is-a IndexedOrderedDict" becomes ownership. The inherited
operations are those of `dict`. `Valid()` adds the invariant that every key is a string, in the entries and
in the index cache.

How the cache behaves, as the code has it:

- **Assignment sets the flag to "the key was new".** `__setitem__` assigns `_need_reindex = key not in self`,
  so overwriting an existing key *clears* the flag even when the cache was stale. After `d[k] = 1; d[k] = 2`
  on a fresh dictionary, the flag is clear and `_index_key` is empty. `get_key_by_index(0)` then raises
  `IndexError` (`IndexedDict.OverwriteBeforeIndexing`).
  A `ParamDict` built from pairs that repeat a key is in the same state: for `ParamDict([("a", 1), ("a", 2)])`,
  `get_key_by_index(0)` raises `IndexError` and `index_of_key("a")` raises `KeyError`
  (`ParamDicts.DuplicateBeforeIndexing`). `ParamDicts.ParamDict.Create` states the empty cache it leaves.
- **"Flag clear implies cache consistent" is therefore not an invariant.** The model names the weaker
  property `CacheSound()`: the flag is set, or the cache equals what a rebuild would compute. The model
  proves three things about it:
  - every index-using accessor leaves a consistent cache when `CacheSound()` held before (`IndexBuilt`);
  - assigning to an existing key keeps a consistent cache consistent;
  - every structural mutation sets the flag.

  Each accessor's result is stated against the cache as it is. A separate clause restates it against the
  key order when `CacheSound()` held.
- **A stale cache with a clear flag can name a key the dictionary no longer holds.** Then
  `get_value_by_index` and `pop_by_index` raise `KeyError`, and `set_value_by_index` inserts that key again.
  The model follows each of these paths.

What the code does beyond what its docstrings say, which the model follows:

- The `ParamDict` docstring (dict.py:147) says only that keys must be strings. `__setitem__` enforces it with an
  `assert` (dict.py:163), so a non-string key raises `AssertionError` (`NonStringKey`). Under `python -O` the
  assert is stripped and non-string keys are accepted; the model covers the default interpreter only.
- The `update` docstring (dict.py:232-233) says `ValueError` is raised when `on_dup` is invalid. The code raises
  it only when the loop reaches a key that is already present. Pairs with new keys before that point are
  inserted, as under THROW (`ParamDicts.MergeInvalidPolicy`), and an update whose keys are all new succeeds.
- The same docstring says THROW raises `KeyError` when `other` contains existing keys. The code checks each
  pair against the dictionary as already updated, so a key repeated within `other` raises too, and the
  pairs before the failing one stay applied (`ParamDicts.MergeThrow`, `ParamDicts.MergeFailsAt`).
- Assigning to an existing key does not leave the flag as it was; it clears it (see above).
- `__delitem__`, `pop`, `popitem` and `move_to_end` set the flag before calling the `OrderedDict` operation.
  The flag is set even when that operation raises `KeyError`.
- Positions follow Python list indexing, so `-len <= i < 0` counts from the end.

## Model

| member | source | states |
|---|---|---|
| OrderedStore.Put | triad/collections/dict.py:94-98 | assignment keeps the dictionary well formed (distinct keys, order lists exactly the keys) and never reorders or drops existing keys; the new value is stored under the key |
| OrderedStore.Remove | triad/collections/dict.py:100-104 | removing a key from the order leaves exactly the other keys, keeps them distinct and shortens the order by one when the key was present |
| OrderedStore.MoveKey | triad/collections/dict.py:124-128 | move_to_end keeps the same distinct keys and puts the key last (or first when not last) |
| OrderedStore.MoveKeyAt | triad/collections/dict.py:124-128 | moving the key at position i takes it out of its place and puts it at the end (or the front); the other keys keep their relative order |
| OrderedStore.IndexMap | triad/collections/dict.py:139-143 | the cache built by enumerate has exactly the keys of the order, and maps each key to a position holding that key |
| OrderedStore.ListIndex | triad/collections/dict.py:37-38 | a Python list position is valid exactly when -n <= i < n, and a negative one counts from the end |
| OrderedStore.Items | triad/collections/dict.py:83-86 | the items list has one pair per key, in key order, each with the key's value |
| OrderedStore.LastWins | triad/collections/dict.py:88-89 | dict(pairs) has exactly the keys of the pairs |
| OrderedStore.PutAll | triad/collections/dict.py:16-17 | assigning pairs in order keeps the dictionary well formed, keeps the existing order as a prefix, and ends with the old keys plus the pairs' keys |
| OrderedStore.FromPairs | triad/collections/dict.py:86 | OrderedDict(pairs) is a well-formed ordered dictionary |
| OrderedStore.IndexMapAt | triad/collections/dict.py:139-143 | for distinct keys the rebuilt cache maps the key at position i back to i |
| OrderedStore.IndexRoundTrip | triad/collections/dict.py:22-38 | index_of_key(get_key_by_index(i)) == i for every 0 <= i < len (a negative i names the same key as i + len, whose index is i + len), and get_key_by_index(index_of_key(k)) == k for every present k, on a rebuilt cache |
| OrderedStore.RemoveAt | triad/collections/dict.py:67-74 | popping the key at position i of a distinct order deletes exactly position i and keeps the others in order |
| OrderedStore.ItemsInjective | triad/collections/dict.py:83-86 | two dictionaries have equal item lists exactly when they have the same key order and the same entries |
| OrderedStore.PutAllLastWins | triad/collections/dict.py:236-238 | assigning pairs left to right leaves each key with the value of its last pair and other keys unchanged |
| OrderedStore.FromItems | triad/collections/dict.py:84-86 | OrderedDict(d.items()) has d's key order and entries, so comparing with an OrderedDict is comparing with its items |
| OrderedStore.ItemsLastWins | triad/collections/dict.py:88-89 | dict(d.items()) has exactly d's entries |
| OrderedStore.MoveEquality | triad/collections/dict.py:124-128 | moving a present key keeps the dictionary well formed and keeps the key -> value relation of its items; moving a key that is not last to the end gives an order different from OrderedDict(old items) |
| IndexedDict.IndexedOrderedDict.constructor | triad/collections/dict.py:16-20 | construction assigns the pairs in order, marks the index stale and empties both caches |
| IndexedDict.IndexedOrderedDict.BuildIndex | triad/collections/dict.py:139-143 | the rebuild runs only when the flag is set, leaves the entries untouched and clears the flag; a rebuilt cache equals the key order and its inverse map |
| IndexedDict.IndexedOrderedDict.IndexOfKey | triad/collections/dict.py:22-29 | the position the rebuilt cache holds, KeyError when it lacks the key; on a sound cache it succeeds exactly for present keys and names the key's position |
| IndexedDict.IndexedOrderedDict.GetKeyByIndex | triad/collections/dict.py:31-38 | the cached key at the Python position, IndexError out of range; on a sound cache it succeeds exactly for -len <= i < len, returns the key at that position, and for 0 <= i < len it returns keys[i] and keyIndex maps that key back to i |
| IndexedDict.IndexedOrderedDict.GetValueByIndex | triad/collections/dict.py:40-47 | the value under the cached key, errors propagated; entries unchanged; on a sound cache the value of the i-th key |
| IndexedDict.IndexedOrderedDict.GetItemByIndex | triad/collections/dict.py:49-56 | the cached key with its value, errors propagated; entries unchanged; on a sound cache the i-th pair |
| IndexedDict.IndexedOrderedDict.SetItem | triad/collections/dict.py:94-98 | a new key is appended and sets the flag; an existing key keeps the order and clears the flag; the cache is untouched and stays fresh if it was fresh |
| IndexedDict.IndexedOrderedDict.SetValueByIndex | triad/collections/dict.py:58-65 | assigns to the cached key; on a sound cache and 0 <= i < len, only the i-th key's value changes, and keys and a fresh index stay as they were |
| IndexedDict.IndexedOrderedDict.Pop | triad/collections/dict.py:133-137 | sets the flag, then removes and returns the entry; an absent key gives the default, or KeyError without one |
| IndexedDict.IndexedOrderedDict.PopByIndex | triad/collections/dict.py:67-74 | pops the cached key; on a sound cache and a valid position it returns the j-th pair and deletes exactly position j, keeping the other keys in order |
| IndexedDict.IndexedOrderedDict.DelItem | triad/collections/dict.py:100-104 | sets the flag even when it raises; removes exactly that key, or KeyError with the entries unchanged |
| IndexedDict.IndexedOrderedDict.Clear | triad/collections/dict.py:106-108 | empties the dictionary and sets the flag |
| IndexedDict.IndexedOrderedDict.PopItem | triad/collections/dict.py:118-122 | sets the flag; removes and returns the last (or first) entry, KeyError when empty |
| IndexedDict.IndexedOrderedDict.MoveToEnd | triad/collections/dict.py:124-128 | sets the flag, KeyError for an absent key, otherwise reorders only; afterwards the entries are dict(old items), and once a key that was not last moved to the end the order differs from OrderedDict(old items) |
| IndexedDict.MoveToEndEquals | triad/collections/dict.py:124-128 | after move_to_end, equals(old items, with_order=False) holds, and equals(old items, with_order=True) fails once a key that was not last moved to the end |
| IndexedDict.IndexedOrderedDict.Copy | triad/collections/dict.py:110-116 | a fresh dictionary with the same entries in the same order and the same flag and caches (no rebuild), order-sensitively equal to the original |
| OrderedStore.ComparedWith | triad/collections/dict.py:83-89 | the items of a dictionary and of OrderedDict(other) are the same list exactly when order and entries agree, and OrderedDict(other) holds dict(other) |
| IndexedDict.EqualsOwnItems | triad/collections/dict.py:76-90 | a dictionary equals, with and without order, the items of anything with its order and entries, so a copy equals the original's items |
| IndexedDict.IndexedOrderedDict.Equals | triad/collections/dict.py:76-90 | with order: same key order and values as OrderedDict(other); without order: same key -> value relation as dict(other), last pair winning |
| IndexedDict.OverwriteBeforeIndexing | triad/collections/dict.py:97 | overwriting a key of a fresh dictionary clears the flag with an empty cache, so get_key_by_index(0) raises IndexError |
| ParamDicts.Assign | triad/collections/dict.py:160-164 | a ParamDict assignment succeeds exactly for string keys and keeps the dictionary well formed with string keys |
| ParamDicts.Step | triad/collections/dict.py:237-244 | one pass of update's loop keeps the string-key dictionary well formed and never reorders or drops keys |
| ParamDicts.Merge | triad/collections/dict.py:222-245 | update keeps the dictionary well formed with string keys and keeps the existing order as a prefix |
| ParamDicts.MergeAppend | triad/collections/dict.py:236-245 | updating with a + b is updating with a, then, unless that failed, with b |
| ParamDicts.MergeFailsAt | triad/collections/dict.py:236-245 | a failed update stopped at some pair j whose check failed against the state left by the pairs before it, all of which were applied |
| ParamDicts.MergeOverwrite | triad/collections/dict.py:237-238 | OVERWRITE with string keys succeeds, assigns every pair in turn and leaves each key with its last value |
| ParamDicts.FirstWins | triad/collections/dict.py:241-242 | the entries left when present keys are skipped have exactly the keys of the pairs |
| ParamDicts.FirstWinsAt | triad/collections/dict.py:241-242 | a key's entry there is the value of the first pair carrying that key |
| ParamDicts.MergeIgnore | triad/collections/dict.py:237-242 | IGNORE with string keys succeeds, never changes a present key's value, and gives each new key the value of its first pair |
| ParamDicts.MergeThrow | triad/collections/dict.py:237-240 | THROW succeeds exactly when all keys are strings, none is present and none repeats within the pairs (a key added earlier in the same call counts as present); then it assigns all pairs |
| ParamDicts.MergeInvalidPolicy | triad/collections/dict.py:243-244 | an unknown on_dup leaves the same state as THROW, raising ValueError exactly where THROW raises KeyError |
| ParamDicts.OverwriteExample | triad/collections/dict.py:237-238 | {a:1, b:2} updated with [(b,9), (c,3)] under OVERWRITE is {a:1, b:9, c:3} |
| ParamDicts.IgnoreExample | triad/collections/dict.py:241-242 | the same update under IGNORE is {a:1, b:2, c:3} |
| ParamDicts.ThrowExample | triad/collections/dict.py:239-244 | under THROW the update raises KeyError at b with the base unchanged and c never reached; an unknown policy raises ValueError there |
| ParamDicts.ParamDict.constructor | triad/collections/dict.py:156-157 | a ParamDict starts as an empty dictionary with a stale index |
| ParamDicts.ParamDict.Create | triad/collections/dict.py:156-158 | ParamDict(data) is the empty dictionary updated with the pairs under OVERWRITE, and fails exactly when that update fails; on success the cached key list and index are still empty |
| ParamDicts.DuplicateBeforeIndexing | triad/collections/dict.py:97 | ParamDict([("a", v1), ("a", v2)]) has a clear flag and an empty cache, so get_key_by_index(0) raises IndexError and index_of_key("a") raises KeyError |
| ParamDicts.ParamDict.SetItem | triad/collections/dict.py:160-164 | a non-string key raises before any change; a string key is the IndexedOrderedDict assignment |
| ParamDicts.ParamDict.SetValueByIndex | triad/collections/dict.py:58-65 | the inherited set_value_by_index through the string-checked assignment: IndexError exactly when the rebuilt cache has no such position, with nothing changed and the flag clear; otherwise the cached key is assigned; all keys, cached keys included, stay strings |
| ParamDicts.ParamDict.Update | triad/collections/dict.py:222-245 | the loop leaves exactly the state Merge describes and returns the dictionary itself, or the first exception with the earlier pairs applied |
| ParamDicts.ParamDict.GetOr | triad/collections/dict.py:247-252 | a present key gives the coerced value, or TypeError exactly when coercion fails; an absent key gives None, or KeyError when throw is set |
| ParamDicts.ParamDict.GetOrNone | triad/collections/dict.py:182-193 | the "not found" result exactly when the key is absent; for a present key the coerced stored value, or TypeError exactly when coercion fails |
| ParamDicts.ParamDict.GetOrThrow | triad/collections/dict.py:195-209 | KeyError exactly when the key is absent; otherwise the coerced stored value, or TypeError exactly when coercion fails |
| ParamDicts.ParamDict.Get | triad/collections/dict.py:166-180 | NoneArgumentError for a None default; the default when the key is absent; otherwise the value coerced to the default's type, or TypeError exactly when coercion fails |
| ParamDicts.LookupsAgree | triad/collections/dict.py:166-209 | get_or_throw succeeds exactly where get_or_none finds the key and coerces its value; get with a default answers like get_or_none, with the default in place of "not found" |

## Left out

- `to_json_str` (dict.py:211-220) is not modelled. It is a thin wrapper over `json.dumps`, and its output depends on that library's formatting and value encoding.
- `as_type`, the type coercion, is a parameter `asType: (V, T) -> Option<V>` of the lookups. Nothing about it is assumed beyond success or failure. The Python `type(default)` is a parameter `typeOf`.
- `to_kv_iterable`, the input normalizer, is not modelled. `ParamDict`'s `update` and constructor and `equals` take the pair sequence it would produce. The `IndexedOrderedDict` constructor does not go through it: its pair sequence stands for the positional argument that `OrderedDict` itself consumes (dict.py:16-17). Keyword arguments to that constructor are not modelled. An `OrderedDict` passed to `equals` is given as its items; `OrderedStore.FromItems` shows that comparing with its items is the same comparison.
- `copy.deepcopy` and the `deep` flag of `update` and `ParamDict.__init__` are not modelled. Values are opaque, so a deep copy is the identity.
- `__sizeof__` (dict.py:130-131) is not modelled. It is memory accounting through `sys.getsizeof`.
- The `None` check on `get`'s default uses `assert_arg_not_none`, which is not part of this model. It is modelled as the `NoneArgument` error.
- Positions given to the positional accessors are integers. The model does not cover Python slices or non-integer indexes, nor `on_dup` values that are not integers.
- ParamDict's inherited methods (positional accessors, `pop`, `equals`, ...) are those of the owned `dict`; they are not repeated on `ParamDict`. The exception is `set_value_by_index`, the one method in dict.py:12-143 whose own body assigns through `self[key]` (dict.py:65); it is modelled as `ParamDicts.ParamDict.SetValueByIndex`. `ParamDict.Valid` keeps the cached keys strings, so the string check never fails there.
- Methods that `OrderedDict` itself implements through `__setitem__` are not modelled on `ParamDict`. On a `ParamDict`, `setdefault(1, x)` raises `AssertionError` through the string check at dict.py:163. `copy()` (dict.py:110-116) starts from `OrderedDict.copy`, which in CPython creates an empty instance of the subclass and assigns each item through `__setitem__`; on a `ParamDict` every key therefore passes the string check at dict.py:163, and the copy shares the original's value objects rather than deep copies of them; the model's `IndexedOrderedDict.Copy` covers only the `IndexedOrderedDict` case.
- Key hashing and equality are Dafny equality on the key type. Python objects whose `__eq__` and `__hash__` disagree are not modelled.
- Concurrency is not modelled; the source is single-threaded.
- ParamDicts.ParamDict.GetOrNone: the model's `Ok(None)` ("not found") and `Ok(Some(v))` ("found, coerced to v") are distinct results. In Python both are plain values, so when `as_type` yields `None` for a present key (a stored `None`, say), `get_or_none` returns the same `None` as for an absent key. Then `get_or_throw` succeeds where `get_or_none` looks like "not found". The "exactly when the key is absent" statements of `GetOrNone` and `LookupsAgree` hold of the model's results, not of the Python return values, in that case.

/** ParamDict: an IndexedOrderedDict whose keys must be strings, with a merge (`update`)
    under a duplicate-key policy and lookups that coerce the stored value to an expected
    type. The coercion (`as_type`) is a parameter: it either yields a value or fails. */
module ParamDicts {
  import opened OrderedStore
  import opened IndexedDict

  /** A Python dictionary key: a string, or any other hashable object, told apart by an identity. */
  datatype Key = Str(s: string) | Other(id: int)

  /** The duplicate-key policies of update: ParamDict.OVERWRITE, THROW and IGNORE. */
  const OVERWRITE: int := 0
  const THROW: int := 1
  const IGNORE: int := 2

  ghost predicate AllStr<V>(s: Store<Key, V>)
  {
    forall k | k in s.keys :: k.Str?
  }

  predicate StrPairs<V>(pairs: seq<(Key, V)>)
  {
    forall i | 0 <= i < |pairs| :: pairs[i].0.Str?
  }

  /** `self[key] = value` on a ParamDict: a non-string key fails before anything changes. */
  function Assign<V>(s: Store<Key, V>, key: Key, value: V): (r: Result<Store<Key, V>, Error<Key>>)
    ensures r.Ok? <==> key.Str?
    ensures WellFormed(s) && AllStr(s) && r.Ok? ==> WellFormed(r.value) && AllStr(r.value)
  {
    if key.Str? then Ok(Put(s, key, value)) else Err(NonStringKey)
  }

  /** One pass of update's loop body for the pair (key, value), checked against the current state. */
  function Step<V>(s: Store<Key, V>, key: Key, value: V, onDup: int): (r: Result<Store<Key, V>, Error<Key>>)
    ensures WellFormed(s) && AllStr(s) && r.Ok? ==> WellFormed(r.value) && AllStr(r.value)
    ensures r.Ok? ==> s.keys <= r.value.keys
  {
    if onDup == OVERWRITE || key !in s.vals then Assign(s, key, value)
    else if onDup == THROW then Err(KeyExists(key))
    else if onDup == IGNORE then Ok(s)
    else Err(UnsupportedPolicy(onDup))
  }

  /** The state update leaves and the exception it raises, if any. */
  datatype Merged<V> = Merged(store: Store<Key, V>, error: Option<Error<Key>>)

  /** `update(pairs, on_dup)`: the pairs processed left to right, stopping at the first failure
      with the earlier pairs already applied. */
  function Merge<V>(s: Store<Key, V>, pairs: seq<(Key, V)>, onDup: int): (r: Merged<V>)
    ensures WellFormed(s) && AllStr(s) ==> WellFormed(r.store) && AllStr(r.store)
    ensures s.keys <= r.store.keys
    decreases |pairs|
  {
    if pairs == [] then Merged(s, None)
    else
      match Step(s, pairs[0].0, pairs[0].1, onDup)
      case Ok(t) => Merge(t, pairs[1..], onDup)
      case Err(e) => Merged(s, Some(e))
  }

  // ---------------------------------------------------------------- merge lemmas

  /** One step of Merge, spelled out for callers that walk the pairs themselves. */
  lemma MergeUnfold<V>(s: Store<Key, V>, pairs: seq<(Key, V)>, onDup: int)
    requires pairs != []
    ensures Step(s, pairs[0].0, pairs[0].1, onDup).Ok? ==>
      Merge(s, pairs, onDup) == Merge(Step(s, pairs[0].0, pairs[0].1, onDup).value, pairs[1..], onDup)
    ensures Step(s, pairs[0].0, pairs[0].1, onDup).Err? ==>
      Merge(s, pairs, onDup) == Merged(s, Some(Step(s, pairs[0].0, pairs[0].1, onDup).error))
  {
  }

  /** Merging a + b is merging a, then (unless a failed) merging b into the result. */
  lemma {:induction false} MergeAppend<V>(s: Store<Key, V>, a: seq<(Key, V)>, b: seq<(Key, V)>, onDup: int)
    ensures Merge(s, a + b, onDup) ==
      (var m := Merge(s, a, onDup); if m.error.Some? then m else Merge(m.store, b, onDup))
    decreases |a|
  {
    if a == [] {
      assert a + b == b;
    } else {
      assert (a + b)[0] == a[0];
      assert (a + b)[1..] == a[1..] + b;
      match Step(s, a[0].0, a[0].1, onDup)
      case Ok(t) => MergeAppend(t, a[1..], b, onDup);
      case Err(e) =>
    }
  }

  /** Fail-fast per pair: a failed update stopped at some pair j, whose step failed with the
      reported error against the state left by the pairs before it, all of which were applied. */
  lemma {:induction false} MergeFailsAt<V>(s: Store<Key, V>, pairs: seq<(Key, V)>, onDup: int)
    requires Merge(s, pairs, onDup).error.Some?
    ensures var r := Merge(s, pairs, onDup);
      exists j | 0 <= j < |pairs| ::
        && Merge(s, pairs[..j], onDup) == Merged(r.store, None)
        && Step(r.store, pairs[j].0, pairs[j].1, onDup) == Err(r.error.value)
    decreases |pairs|
  {
    var r := Merge(s, pairs, onDup);
    MergeUnfold(s, pairs, onDup);
    var step := Step(s, pairs[0].0, pairs[0].1, onDup);
    if step.Err? {
      assert pairs[..0] == [];
      assert Merge(s, pairs[..0], onDup) == Merged(r.store, None);
    } else {
      var rest := pairs[1..];
      MergeFailsAt(step.value, rest, onDup);
      var j :| 0 <= j < |rest| &&
        Merge(step.value, rest[..j], onDup) == Merged(r.store, None) &&
        Step(r.store, rest[j].0, rest[j].1, onDup) == Err(r.error.value);
      var prefix := pairs[..j + 1];
      assert prefix[0] == pairs[0] && prefix[1..] == rest[..j];
      MergeUnfold(s, prefix, onDup);
      assert Merge(s, prefix, onDup) == Merged(r.store, None);
      assert pairs[j + 1] == rest[j];
    }
  }

  /** OVERWRITE with string keys always succeeds, assigns every pair in turn, and leaves each
      key of the pairs holding its last value and every other key as it was. */
  lemma {:induction false} MergeOverwrite<V>(s: Store<Key, V>, pairs: seq<(Key, V)>)
    requires StrPairs(pairs)
    ensures Merge(s, pairs, OVERWRITE) == Merged(PutAll(s, pairs), None)
    ensures Merge(s, pairs, OVERWRITE).store.vals == s.vals + LastWins(pairs)
    decreases |pairs|
  {
    if pairs != [] {
      assert pairs[0].0.Str?;
      MergeOverwrite(Put(s, pairs[0].0, pairs[0].1), pairs[1..]);
    }
    PutAllLastWins(s, pairs);
  }

  /** The entries the pairs leave when a key already present is skipped: for a repeated key the
      first pair wins. */
  function FirstWins<V>(pairs: seq<(Key, V)>): (m: map<Key, V>)
    ensures m.Keys == set k | k in KeysOf(pairs)
  {
    if pairs == [] then map[] else FirstWins(pairs[1..])[pairs[0].0 := pairs[0].1]
  }

  /** A key's value in FirstWins is the value of the first pair that carries it. */
  lemma {:induction false} FirstWinsAt<V>(pairs: seq<(Key, V)>, j: int)
    requires 0 <= j < |pairs|
    requires forall i | 0 <= i < j :: pairs[i].0 != pairs[j].0
    ensures pairs[j].0 in FirstWins(pairs) && FirstWins(pairs)[pairs[j].0] == pairs[j].1
  {
    if j > 0 {
      FirstWinsAt(pairs[1..], j - 1);
    }
  }

  /** IGNORE with string keys always succeeds, never changes the value of a key already present,
      and gives every new key the value of its first pair. */
  lemma {:induction false} MergeIgnore<V>(s: Store<Key, V>, pairs: seq<(Key, V)>)
    requires StrPairs(pairs)
    ensures var r := Merge(s, pairs, IGNORE);
      && r.error == None
      && r.store.vals == FirstWins(pairs) + s.vals
      && (forall k | k in s.vals :: k in r.store.vals && r.store.vals[k] == s.vals[k])
      && r.store.vals.Keys == s.vals.Keys + set k | k in KeysOf(pairs)
    decreases |pairs|
  {
    if pairs != [] {
      var (k, v) := pairs[0];
      assert k.Str?;
      var t := if k in s.vals then s else Put(s, k, v);
      assert Step(s, k, v, IGNORE) == Ok(t);
      MergeIgnore(t, pairs[1..]);
      assert KeysOf(pairs) == [k] + KeysOf(pairs[1..]);
      SkipOrAdd(FirstWins(pairs[1..]), s.vals, k, v);
    }
  }

  /** Skipping a present key, or adding a new one, then laying the later pairs' entries under the
      result is laying this pair and the later ones under the old entries. */
  lemma SkipOrAdd<V>(rest: map<Key, V>, m: map<Key, V>, k: Key, v: V)
    ensures rest + (if k in m then m else m[k := v]) == rest[k := v] + m
  {
    var a, b := rest + (if k in m then m else m[k := v]), rest[k := v] + m;
    assert a.Keys == b.Keys;
  }

  /** A THROW update succeeds exactly when every key is a string, no key is already present and no
      key repeats within the pairs; then it is the plain assignment of all pairs. */
  lemma {:induction false} MergeThrow<V>(s: Store<Key, V>, pairs: seq<(Key, V)>)
    ensures Merge(s, pairs, THROW).error.None? <==>
      StrPairs(pairs) && Distinct(KeysOf(pairs)) && forall i | 0 <= i < |pairs| :: pairs[i].0 !in s.vals
    ensures Merge(s, pairs, THROW).error.None? ==> Merge(s, pairs, THROW).store == PutAll(s, pairs)
    decreases |pairs|
  {
    if pairs != [] {
      var (k, v) := pairs[0];
      if k in s.vals || !k.Str? {
        assert Merge(s, pairs, THROW).error.Some?;
      } else {
        MergeThrow(Put(s, k, v), pairs[1..]);
        ThrowConditionCons(s, pairs);
      }
    }
  }

  /** The THROW success condition, split at a first pair that is a new string key. */
  lemma {:induction false} ThrowConditionCons<V>(s: Store<Key, V>, pairs: seq<(Key, V)>)
    requires pairs != [] && pairs[0].0.Str? && pairs[0].0 !in s.vals
    ensures var rest := pairs[1..];
      (StrPairs(pairs) && Distinct(KeysOf(pairs)) && forall i | 0 <= i < |pairs| :: pairs[i].0 !in s.vals)
      <==>
      (StrPairs(rest) && Distinct(KeysOf(rest)) &&
       forall i | 0 <= i < |rest| :: rest[i].0 !in Put(s, pairs[0].0, pairs[0].1).vals)
  {
    var k, v := pairs[0].0, pairs[0].1;
    var rest := pairs[1..];
    assert KeysOf(pairs) == [k] + KeysOf(rest);
    DistinctCons(k, KeysOf(rest));
    StrPairsCons(pairs);
    AbsentCons(s.vals, pairs);
    AbsentAfterPut(s.vals, k, v, rest);
  }

  lemma StrPairsCons<V>(pairs: seq<(Key, V)>)
    requires pairs != []
    ensures StrPairs(pairs) <==> pairs[0].0.Str? && StrPairs(pairs[1..])
  {
    if pairs[0].0.Str? && StrPairs(pairs[1..]) {
      forall i | 0 < i < |pairs| ensures pairs[i].0.Str? {
        assert pairs[i] == pairs[1..][i - 1];
      }
    }
  }

  lemma AbsentCons<V>(m: map<Key, V>, pairs: seq<(Key, V)>)
    requires pairs != []
    ensures (forall i | 0 <= i < |pairs| :: pairs[i].0 !in m) <==>
      pairs[0].0 !in m && forall i | 0 <= i < |pairs[1..]| :: pairs[1..][i].0 !in m
  {
    if pairs[0].0 !in m && forall i | 0 <= i < |pairs[1..]| :: pairs[1..][i].0 !in m {
      forall i | 0 < i < |pairs| ensures pairs[i].0 !in m {
        assert pairs[i] == pairs[1..][i - 1];
      }
    }
  }

  lemma AbsentAfterPut<V>(m: map<Key, V>, k: Key, v: V, rest: seq<(Key, V)>)
    ensures (forall i | 0 <= i < |rest| :: rest[i].0 !in m[k := v]) <==>
      k !in KeysOf(rest) && forall i | 0 <= i < |rest| :: rest[i].0 !in m
  {
    if k in KeysOf(rest) {
      var i :| 0 <= i < |rest| && KeysOf(rest)[i] == k;
      assert rest[i].0 in m[k := v];
    }
  }

  /** An on_dup outside OVERWRITE, THROW and IGNORE behaves as THROW except for the exception:
      new keys are still inserted, and ValueError is raised only where THROW would raise KeyError. */
  lemma {:induction false} MergeInvalidPolicy<V>(s: Store<Key, V>, pairs: seq<(Key, V)>, onDup: int)
    requires onDup != OVERWRITE && onDup != THROW && onDup != IGNORE
    ensures var a, b := Merge(s, pairs, onDup), Merge(s, pairs, THROW);
      && a.store == b.store
      && (a.error == None <==> b.error == None)
      && (a.error == Some(NonStringKey) <==> b.error == Some(NonStringKey))
      && (a.error == Some(UnsupportedPolicy(onDup)) <==> b.error.Some? && b.error.value.KeyExists?)
    decreases |pairs|
  {
    if pairs != [] {
      var (k, v) := pairs[0];
      if k !in s.vals && k.Str? {
        MergeInvalidPolicy(Put(s, k, v), pairs[1..], onDup);
      }
    }
  }

  /** The base {a: 1, b: 2} and the pairs [(b, 9), (c, 3)] of the policy examples below. */
  function ExampleBase(): Store<Key, int>
  {
    Store([Str("a"), Str("b")], map[Str("a") := 1, Str("b") := 2], false)
  }

  function ExamplePairs(): seq<(Key, int)>
  {
    [(Str("b"), 9), (Str("c"), 3)]
  }

  lemma OverwriteExample()
    ensures Merge(ExampleBase(), ExamplePairs(), OVERWRITE) ==
      Merged(Store([Str("a"), Str("b"), Str("c")], map[Str("a") := 1, Str("b") := 9, Str("c") := 3], true), None)
  {
    var a, b, c := Str("a"), Str("b"), Str("c");
    assert a != b && b != c && a != c;
    var s1 := Put(ExampleBase(), b, 9);
    assert s1 == Store([a, b], map[a := 1, b := 9], false);
    assert Merge(ExampleBase(), ExamplePairs(), OVERWRITE) == Merge(s1, ExamplePairs()[1..], OVERWRITE);
    var s2 := Put(s1, c, 3);
    assert s2 == Store([a, b, c], map[a := 1, b := 9, c := 3], true);
    assert Merge(s1, ExamplePairs()[1..], OVERWRITE) == Merge(s2, ExamplePairs()[2..], OVERWRITE);
  }

  lemma IgnoreExample()
    ensures Merge(ExampleBase(), ExamplePairs(), IGNORE) ==
      Merged(Store([Str("a"), Str("b"), Str("c")], map[Str("a") := 1, Str("b") := 2, Str("c") := 3], true), None)
  {
    var a, b, c := Str("a"), Str("b"), Str("c");
    assert a != b && b != c && a != c;
    assert Merge(ExampleBase(), ExamplePairs(), IGNORE) == Merge(ExampleBase(), ExamplePairs()[1..], IGNORE);
    var s2 := Put(ExampleBase(), c, 3);
    assert s2 == Store([a, b, c], map[a := 1, b := 2, c := 3], true);
    assert Merge(ExampleBase(), ExamplePairs()[1..], IGNORE) == Merge(s2, ExamplePairs()[2..], IGNORE);
  }

  /** THROW stops at b, before c is reached; an unknown policy stops there too, with ValueError. */
  lemma ThrowExample()
    ensures Merge(ExampleBase(), ExamplePairs(), THROW) == Merged(ExampleBase(), Some(KeyExists(Str("b"))))
    ensures Merge(ExampleBase(), ExamplePairs(), 7) == Merged(ExampleBase(), Some(UnsupportedPolicy(7)))
  {
  }

  /** An optional lookup result read as a required one: no value is a KeyError for the key. */
  function Required<V>(found: Result<Option<V>, Error<Key>>, key: Key): Result<V, Error<Key>>
  {
    match found
    case Ok(Some(x)) => Ok(x)
    case Ok(None) => Err(KeyNotFound(key))
    case Err(e) => Err(e)
  }

  // ---------------------------------------------------------------- the class

  class ParamDict<V(==)> {
    /** The IndexedOrderedDict this ParamDict is; Python's subclassing becomes ownership. */
    const dict: IndexedOrderedDict<Key, V>

    /** The IndexedOrderedDict invariant, and every key a string, in the entries and in the cache. */
    ghost predicate Valid()
      reads dict
    {
      dict.Valid() && AllStr(dict.Snapshot()) && (forall k | k in dict.indexKey :: k.Str?)
    }

    /** `ParamDict()` before its initial update: an empty dictionary with a stale index. */
    constructor ()
      ensures Valid() && fresh(dict)
      ensures dict.Snapshot() == Empty() && dict.indexKey == [] && dict.keyIndex == map[]
    {
      assert FromPairs<Key, V>([]) == Empty();
      dict := new IndexedOrderedDict([]);
    }

    /** `ParamDict(data)`: an empty ParamDict updated with the pairs under OVERWRITE. */
    static method Create(pairs: seq<(Key, V)>) returns (r: Result<ParamDict<V>, Error<Key>>)
      ensures var m := Merge(Empty(), pairs, OVERWRITE);
        && (r.Ok? <==> m.error.None?)
        && (r.Err? ==> r.error == m.error.value)
        && (r.Ok? ==>
              && fresh(r.value) && fresh(r.value.dict) && r.value.Valid() && r.value.dict.Snapshot() == m.store
              && r.value.dict.indexKey == [] && r.value.dict.keyIndex == map[])
    {
      var p := new ParamDict();
      var u := p.Update(pairs, OVERWRITE);
      r := if u.Ok? then Ok(p) else Err(u.error);
    }

    /** `self[key] = value`: rejects a non-string key before any change, else the IndexedOrderedDict assignment. */
    method SetItem(key: Key, value: V) returns (r: Result<(), Error<Key>>)
      requires Valid()
      modifies dict
      ensures Valid()
      ensures r.Ok? <==> Assign(old(dict.Snapshot()), key, value).Ok?
      ensures r.Ok? ==> dict.Snapshot() == Assign(old(dict.Snapshot()), key, value).value
      ensures r.Err? ==> r.error == NonStringKey && unchanged(dict)
      ensures dict.indexKey == old(dict.indexKey) && dict.keyIndex == old(dict.keyIndex)
    {
      if !key.Str? {
        return Err(NonStringKey);
      }
      dict.SetItem(key, value);
      r := Ok(());
    }

    /** set_value_by_index on a ParamDict: the inherited method, whose assignment dispatches to the
        string-checked `self[key] = value` above. The cache holds only string keys, so that check
        never fails here. */
    method SetValueByIndex(i: int, value: V) returns (r: Result<(), Error<Key>>)
      requires Valid()
      modifies dict
      ensures Valid() && dict.CacheRebuilt()
      ensures r.Err? <==> dict.CachedKey(i).Err?
      ensures r.Err? ==> r.error == dict.CachedKey(i).error && dict.keys == old(dict.keys) && dict.vals == old(dict.vals) && !dict.needReindex
      ensures r.Ok? ==> dict.Snapshot() == Put(Store(old(dict.keys), old(dict.vals), false), dict.CachedKey(i).value, value)
    {
      var kr := dict.GetKeyByIndex(i);
      if kr.Err? {
        return Err(kr.error);
      }
      r := SetItem(kr.value, value);
    }

    /** update(pairs, on_dup): each pair checked against the current state, in order; returns the
        dictionary itself, or the first exception with the earlier pairs left applied. */
    method Update(pairs: seq<(Key, V)>, onDup: int) returns (r: Result<ParamDict<V>, Error<Key>>)
      requires Valid()
      modifies dict
      ensures Valid()
      ensures dict.Snapshot() == Merge(old(dict.Snapshot()), pairs, onDup).store
      ensures r == (var m := Merge(old(dict.Snapshot()), pairs, onDup);
                    if m.error.None? then Ok(this) else Err(m.error.value))
      ensures dict.indexKey == old(dict.indexKey) && dict.keyIndex == old(dict.keyIndex)
    {
      ghost var total := Merge(dict.Snapshot(), pairs, onDup);
      var i := 0;
      assert pairs[0..] == pairs;
      while i < |pairs|
        invariant 0 <= i <= |pairs|
        invariant Valid()
        invariant Merge(dict.Snapshot(), pairs[i..], onDup) == total
        invariant dict.indexKey == old(dict.indexKey) && dict.keyIndex == old(dict.keyIndex)
      {
        var (k, v) := pairs[i];
        ghost var before := dict.Snapshot();
        ghost var step := Step(before, k, v, onDup);
        assert pairs[i..][0] == (k, v) && pairs[i..][1..] == pairs[i + 1..];
        MergeUnfold(before, pairs[i..], onDup);
        if onDup == OVERWRITE || k !in dict.vals {
          var outcome := SetItem(k, v);
          if outcome.Err? {
            assert step == Err(NonStringKey) && total == Merged(before, Some(NonStringKey));
            return Err(outcome.error);
          }
          assert dict.Snapshot() == step.value;
        } else if onDup == THROW {
          assert step == Err(KeyExists(k)) && total == Merged(before, Some(KeyExists(k)));
          return Err(KeyExists(k));
        } else if onDup == IGNORE {
          // the present key keeps its value
          assert step == Ok(before);
        } else {
          assert step == Err(UnsupportedPolicy(onDup)) && total == Merged(before, Some(UnsupportedPolicy(onDup)));
          return Err(UnsupportedPolicy(onDup));
        }
        i := i + 1;
      }
      assert pairs[i..] == [];
      r := Ok(this);
    }

    /** _get_or: the coerced value when the key is present (TypeError if it cannot be coerced);
        for an absent key None, or KeyError when throw is set. */
    function GetOr<T>(key: Key, expectedType: T, throw: bool, asType: (V, T) -> Option<V>): (r: Result<Option<V>, Error<Key>>)
      reads dict
      ensures key !in dict.vals ==> r == if throw then Err(KeyNotFound(key)) else Ok(None)
      ensures key in dict.vals ==> (r.Ok? <==> asType(dict.vals[key], expectedType).Some?)
      ensures key in dict.vals && r.Ok? ==> r.value == asType(dict.vals[key], expectedType)
      ensures key in dict.vals && r.Err? ==> r.error == NotCoercible
    {
      if key in dict.vals then
        match asType(dict.vals[key], expectedType)
        case Some(x) => Ok(Some(x))
        case None => Err(NotCoercible)
      else if throw then Err(KeyNotFound(key))
      else Ok(None)
    }

    /** get_or_none: None exactly when the key is absent. */
    function GetOrNone<T>(key: Key, expectedType: T, asType: (V, T) -> Option<V>): (r: Result<Option<V>, Error<Key>>)
      reads dict
      ensures r == Ok(None) <==> key !in dict.vals
      ensures key in dict.vals ==> (r.Err? <==> asType(dict.vals[key], expectedType).None?)
      ensures r.Err? ==> key in dict.vals && r.error == NotCoercible
      ensures r.Ok? && r.value.Some? ==> key in dict.vals && asType(dict.vals[key], expectedType) == r.value
    {
      GetOr(key, expectedType, false, asType)
    }

    /** get_or_throw: KeyError exactly when the key is absent. */
    function GetOrThrow<T>(key: Key, expectedType: T, asType: (V, T) -> Option<V>): (r: Result<V, Error<Key>>)
      reads dict
      ensures r == Err(KeyNotFound(key)) <==> key !in dict.vals
      ensures key in dict.vals ==> (r.Ok? <==> asType(dict.vals[key], expectedType).Some?)
      ensures key in dict.vals && r.Err? ==> r.error == NotCoercible
      ensures r.Ok? ==> key in dict.vals && asType(dict.vals[key], expectedType) == Some(r.value)
    {
      Required(GetOr(key, expectedType, true, asType), key)
    }

    /** get(key, default): NoneArgumentError for a None default; the default itself when the key is
        absent; otherwise the stored value coerced to the default's type, or TypeError. */
    function Get<T>(key: Key, default: Option<V>, typeOf: V -> T, asType: (V, T) -> Option<V>): (r: Result<V, Error<Key>>)
      reads dict
      ensures default.None? ==> r == Err(NoneArgument)
      ensures default.Some? && key !in dict.vals ==> r == Ok(default.value)
      ensures default.Some? && key in dict.vals ==>
        (r.Ok? <==> asType(dict.vals[key], typeOf(default.value)).Some?)
      ensures default.Some? && key in dict.vals && r.Ok? ==>
        asType(dict.vals[key], typeOf(default.value)) == Some(r.value)
      ensures default.Some? && key in dict.vals && r.Err? ==> r.error == NotCoercible
    {
      if default.None? then Err(NoneArgument)
      else if key in dict.vals then
        match asType(dict.vals[key], typeOf(default.value))
        case Some(x) => Ok(x)
        case None => Err(NotCoercible)
      else Ok(default.value)
    }
  }

  /** The three lookups agree: get_or_throw succeeds exactly where get_or_none finds a value, and
      get with a default of the expected type answers like get_or_none, the default standing in for None. */
  lemma LookupsAgree<V, T>(p: ParamDict<V>, key: Key, d: V, typeOf: V -> T, asType: (V, T) -> Option<V>)
    ensures var t := typeOf(d);
      && (p.GetOrThrow(key, t, asType).Ok? <==> p.GetOrNone(key, t, asType).Ok? && p.GetOrNone(key, t, asType).value.Some?)
      && (p.GetOrThrow(key, t, asType).Ok? ==> p.GetOrNone(key, t, asType) == Ok(Some(p.GetOrThrow(key, t, asType).value)))
      && (p.GetOrNone(key, t, asType) == Ok(None) ==> p.Get(key, Some(d), typeOf, asType) == Ok(d))
      && (p.GetOrNone(key, t, asType).Ok? && p.GetOrNone(key, t, asType).value.Some? ==>
            p.Get(key, Some(d), typeOf, asType) == Ok(p.GetOrNone(key, t, asType).value.value))
      && (p.GetOrNone(key, t, asType).Err? <==> p.Get(key, Some(d), typeOf, asType).Err?)
  {
  }

  /** `ParamDict([("a", v1), ("a", v2)])`: the repeated key clears the flag before any lookup has
      built the cache, so both positional lookups fail on a dictionary that holds "a". */
  method DuplicateBeforeIndexing<V(==)>(v1: V, v2: V) returns (byIndex: Result<Key, Error<Key>>, byKey: Result<int, Error<Key>>)
    ensures byIndex == Err(IndexOutOfRange(0)) && byKey == Err(KeyNotFound(Str("a")))
  {
    var pairs := [(Str("a"), v1), (Str("a"), v2)];
    MergeUnfold(Empty(), pairs, OVERWRITE);
    MergeUnfold(Put(Empty(), Str("a"), v1), pairs[1..], OVERWRITE);
    var r := ParamDict.Create(pairs);
    assert r.Ok?;
    var p := r.value;
    assert p.dict.keys == [Str("a")] && !p.dict.needReindex;
    byIndex := p.dict.GetKeyByIndex(0);
    byKey := p.dict.IndexOfKey(Str("a"));
  }
}

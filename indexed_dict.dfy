/** IndexedOrderedDict: an insertion-ordered dictionary that also answers positional
    queries through an index cache. The cache (indexKey, keyIndex) is rebuilt from the
    key order only when needReindex is set, and every accessor by position rebuilds it
    first. Every structural mutation sets the flag; assignment sets it to "the key was
    new", which also clears it when an existing key is overwritten. */
module IndexedDict {
  import opened OrderedStore

  class IndexedOrderedDict<K(==), V(==)> {
    var keys: seq<K>             // the OrderedDict's key order
    var vals: map<K, V>          // the OrderedDict's entries
    var needReindex: bool        // _need_reindex
    var indexKey: seq<K>         // _index_key: position -> key
    var keyIndex: map<K, int>    // _key_index: key -> position

    /** The OrderedDict part is well formed; the cache may be anything. */
    ghost predicate Valid()
      reads this
    {
      WellFormed(Snapshot())
    }

    function Snapshot(): Store<K, V>
      reads this
    {
      Store(keys, vals, needReindex)
    }

    /** The cache is exactly what _build_index would compute from the current key order. */
    ghost predicate IndexFresh()
      reads this
    {
      indexKey == keys && keyIndex == IndexMap(keys)
    }

    /** The cache can be trusted after the next rebuild: either it will be rebuilt, or it is fresh. */
    ghost predicate CacheSound()
      reads this
    {
      needReindex || IndexFresh()
    }

    /** What _build_index does to the cache: rebuild it from the key order if it was marked stale. */
    twostate predicate CacheRebuilt()
      reads this
    {
      if old(needReindex) then indexKey == old(keys) && keyIndex == IndexMap(old(keys))
      else indexKey == old(indexKey) && keyIndex == old(keyIndex)
    }

    /** The state every index-using accessor leaves: entries untouched, flag clear, cache rebuilt. */
    twostate predicate IndexBuilt()
      reads this
    {
      && Valid() && keys == old(keys) && vals == old(vals) && !needReindex
      && CacheRebuilt()
      && (old(CacheSound()) ==> IndexFresh())
    }

    /** The key the cache holds at Python list position i, or IndexError. */
    function CachedKey(i: int): (r: Result<K, Error<K>>)
      reads this
      ensures r.Ok? <==> -|indexKey| <= i < |indexKey|
    {
      match ListIndex(|indexKey|, i)
      case Some(j) => Ok(indexKey[j])
      case None => Err(IndexOutOfRange(i))
    }

    /** `IndexedOrderedDict(pairs)`: the pairs assigned left to right, the index marked stale. */
    constructor (pairs: seq<(K, V)>)
      ensures Valid()
      ensures keys == FromPairs(pairs).keys && vals == FromPairs(pairs).vals
      ensures needReindex && indexKey == [] && keyIndex == map[]
    {
      var s := Empty();
      var i := 0;
      assert pairs[0..] == pairs;
      while i < |pairs|
        invariant 0 <= i <= |pairs|
        invariant PutAll(s, pairs[i..]) == FromPairs(pairs)
      {
        assert pairs[i..][1..] == pairs[i + 1..];
        s := Put(s, pairs[i].0, pairs[i].1);
        i := i + 1;
      }
      assert pairs[i..] == [];
      keys, vals := s.keys, s.vals;
      needReindex, indexKey, keyIndex := true, [], map[];
    }

    /** _build_index. */
    method BuildIndex()
      requires Valid()
      modifies this
      ensures IndexBuilt()
    {
      if needReindex {
        indexKey := keys;
        var m: map<K, int> := map[];
        var i := 0;
        while i < |indexKey|
          invariant 0 <= i <= |indexKey|
          invariant m == IndexMap(indexKey[..i])
        {
          assert indexKey[..i + 1][..i] == indexKey[..i];
          m := m[indexKey[i] := i];
          i := i + 1;
        }
        assert indexKey[..i] == indexKey;
        keyIndex := m;
        needReindex := false;
      }
    }

    /** index_of_key: the key's position in the rebuilt cache, KeyError when the cache lacks it. */
    method IndexOfKey(key: K) returns (r: Result<int, Error<K>>)
      requires Valid()
      modifies this
      ensures IndexBuilt()
      ensures r == if key in keyIndex then Ok(keyIndex[key]) else Err(KeyNotFound(key))
      ensures old(CacheSound()) ==> (r.Ok? <==> key in vals)
      ensures old(CacheSound()) && r.Ok? ==> 0 <= r.value < |keys| && keys[r.value] == key
    {
      BuildIndex();
      r := if key in keyIndex then Ok(keyIndex[key]) else Err(KeyNotFound(key));
    }

    /** get_key_by_index: `_index_key[index]` after the rebuild, with Python list indexing. */
    method GetKeyByIndex(i: int) returns (r: Result<K, Error<K>>)
      requires Valid()
      modifies this
      ensures IndexBuilt()
      ensures r == CachedKey(i)
      ensures old(CacheSound()) ==> (r.Ok? <==> -|keys| <= i < |keys|)
      ensures old(CacheSound()) && r.Ok? ==> r.value == keys[ListIndex(|keys|, i).value]
      ensures old(CacheSound()) && 0 <= i < |keys| ==> r == Ok(keys[i]) && keyIndex[keys[i]] == i
    {
      BuildIndex();
      r := CachedKey(i);
      if CacheSound() && 0 <= i < |keys| {
        IndexMapAt(keys, i);
      }
    }

    /** get_value_by_index: the value under the cached key; KeyError if the cache names a key the dict lacks. */
    method GetValueByIndex(i: int) returns (r: Result<V, Error<K>>)
      requires Valid()
      modifies this
      ensures IndexBuilt()
      ensures CachedKey(i).Err? ==> r == Err(CachedKey(i).error)
      ensures CachedKey(i).Ok? ==> r == (var k := CachedKey(i).value; if k in vals then Ok(vals[k]) else Err(KeyNotFound(k)))
      ensures old(CacheSound()) ==> (r.Ok? <==> ListIndex(|keys|, i).Some?)
      ensures old(CacheSound()) && r.Ok? ==> r.value == vals[keys[ListIndex(|keys|, i).value]]
    {
      var kr := GetKeyByIndex(i);
      if kr.Err? {
        return Err(kr.error);
      }
      var k := kr.value;
      r := if k in vals then Ok(vals[k]) else Err(KeyNotFound(k));
    }

    /** get_item_by_index: the cached key with its value. */
    method GetItemByIndex(i: int) returns (r: Result<(K, V), Error<K>>)
      requires Valid()
      modifies this
      ensures IndexBuilt()
      ensures CachedKey(i).Err? ==> r == Err(CachedKey(i).error)
      ensures CachedKey(i).Ok? ==> r == (var k := CachedKey(i).value; if k in vals then Ok((k, vals[k])) else Err(KeyNotFound(k)))
      ensures old(CacheSound()) ==> (r.Ok? <==> ListIndex(|keys|, i).Some?)
      ensures old(CacheSound()) && r.Ok? ==>
        var j := ListIndex(|keys|, i).value; r.value == (keys[j], vals[keys[j]])
    {
      var kr := GetKeyByIndex(i);
      if kr.Err? {
        return Err(kr.error);
      }
      var k := kr.value;
      r := if k in vals then Ok((k, vals[k])) else Err(KeyNotFound(k));
    }

    /** `d[key] = value` (__setitem__). The flag becomes `key not in self`: a new key marks the
        index stale, an existing key CLEARS the flag even if the cache was stale before. */
    method SetItem(key: K, value: V)
      requires Valid()
      modifies this
      ensures Valid()
      ensures Snapshot() == Put(old(Snapshot()), key, value)
      ensures indexKey == old(indexKey) && keyIndex == old(keyIndex)
      ensures key !in old(vals) ==> needReindex && keys == old(keys) + [key]
      ensures key in old(vals) ==> !needReindex && keys == old(keys)
      ensures key in old(vals) && old(IndexFresh()) ==> IndexFresh()
    {
      needReindex := key !in vals;
      if key !in vals {
        keys := keys + [key];
      }
      vals := vals[key := value];
    }

    /** set_value_by_index: assigns to the cached key. On a sound cache and a position in range this
        changes only the value of the i-th key; keys, other values and the fresh index stay. */
    method SetValueByIndex(i: int, value: V) returns (r: Result<(), Error<K>>)
      requires Valid()
      modifies this
      ensures Valid() && CacheRebuilt()
      ensures r.Err? <==> CachedKey(i).Err?
      ensures r.Err? ==> r.error == CachedKey(i).error && keys == old(keys) && vals == old(vals) && !needReindex
      ensures r.Ok? ==> Snapshot() == Put(Store(old(keys), old(vals), false), CachedKey(i).value, value)
      ensures old(CacheSound()) && 0 <= i < |old(keys)| ==>
        && r.Ok? && keys == old(keys) && vals == old(vals)[old(keys)[i] := value]
        && !needReindex && IndexFresh()
    {
      var kr := GetKeyByIndex(i);
      if kr.Err? {
        return Err(kr.error);
      }
      SetItem(kr.value, value);
      r := Ok(());
    }

    /** pop(key[, default]): marks the index stale, then removes and returns the entry; an absent
        key gives the default when one is passed and KeyError otherwise. */
    method Pop(key: K, default: Option<V>) returns (r: Result<V, Error<K>>)
      requires Valid()
      modifies this
      ensures Valid() && needReindex
      ensures indexKey == old(indexKey) && keyIndex == old(keyIndex)
      ensures key in old(vals) ==>
        r == Ok(old(vals)[key]) && keys == Remove(old(keys), key) && vals == old(vals) - {key}
      ensures key !in old(vals) ==>
        && keys == old(keys) && vals == old(vals)
        && r == if default.Some? then Ok(default.value) else Err(KeyNotFound(key))
    {
      needReindex := true;
      if key in vals {
        r := Ok(vals[key]);
        keys := Remove(keys, key);
        vals := vals - {key};
      } else {
        r := if default.Some? then Ok(default.value) else Err(KeyNotFound(key));
      }
    }

    /** pop_by_index: pops the cached key. On a sound cache and a valid position this returns the
        j-th pair and deletes exactly position j, keeping the order of the rest. */
    method PopByIndex(i: int) returns (r: Result<(K, V), Error<K>>)
      requires Valid()
      modifies this
      ensures Valid() && CacheRebuilt()
      ensures CachedKey(i).Err? ==>
        r == Err(CachedKey(i).error) && keys == old(keys) && vals == old(vals) && !needReindex
      ensures CachedKey(i).Ok? ==> needReindex
      ensures CachedKey(i).Ok? && CachedKey(i).value in old(vals) ==>
        var k := CachedKey(i).value;
        r == Ok((k, old(vals)[k])) && keys == Remove(old(keys), k) && vals == old(vals) - {k}
      ensures CachedKey(i).Ok? && CachedKey(i).value !in old(vals) ==>
        r == Err(KeyNotFound(CachedKey(i).value)) && keys == old(keys) && vals == old(vals)
      ensures old(CacheSound()) && ListIndex(|old(keys)|, i).Some? ==>
        var j := ListIndex(|old(keys)|, i).value;
        && r == Ok((old(keys)[j], old(vals)[old(keys)[j]]))
        && keys == old(keys)[..j] + old(keys)[j + 1..]
        && vals == old(vals) - {old(keys)[j]}
    {
      var kr := GetKeyByIndex(i);
      if kr.Err? {
        return Err(kr.error);
      }
      if ListIndex(|keys|, i).Some? && keys == indexKey {
        RemoveAt(keys, ListIndex(|keys|, i).value);
      }
      var vr := Pop(kr.value, None);
      if vr.Err? {
        return Err(vr.error);
      }
      r := Ok((kr.value, vr.value));
    }

    /** `del d[key]` (__delitem__): the flag is set before the deletion is attempted, so even a
        KeyError leaves the index marked stale. */
    method DelItem(key: K) returns (r: Result<(), Error<K>>)
      requires Valid()
      modifies this
      ensures Valid() && needReindex
      ensures indexKey == old(indexKey) && keyIndex == old(keyIndex)
      ensures key in old(vals) ==> r.Ok? && keys == Remove(old(keys), key) && vals == old(vals) - {key}
      ensures key !in old(vals) ==> r == Err(KeyNotFound(key)) && keys == old(keys) && vals == old(vals)
    {
      needReindex := true;
      if key in vals {
        keys := Remove(keys, key);
        vals := vals - {key};
        r := Ok(());
      } else {
        r := Err(KeyNotFound(key));
      }
    }

    /** clear. */
    method Clear()
      requires Valid()
      modifies this
      ensures Valid() && needReindex && keys == [] && vals == map[]
      ensures indexKey == old(indexKey) && keyIndex == old(keyIndex)
    {
      needReindex := true;
      keys, vals := [], map[];
    }

    /** popitem(last): removes and returns the last (or, not last, the first) entry; KeyError when empty. */
    method PopItem(last: bool) returns (r: Result<(K, V), Error<K>>)
      requires Valid()
      modifies this
      ensures Valid() && needReindex
      ensures indexKey == old(indexKey) && keyIndex == old(keyIndex)
      ensures old(keys) == [] ==> r == Err(DictEmpty) && keys == [] && vals == old(vals)
      ensures old(keys) != [] ==>
        var n := |old(keys)|;
        var k := if last then old(keys)[n - 1] else old(keys)[0];
        && r == Ok((k, old(vals)[k]))
        && keys == (if last then old(keys)[..n - 1] else old(keys)[1..])
        && vals == old(vals) - {k}
    {
      needReindex := true;
      if keys == [] {
        return Err(DictEmpty);
      }
      var n := |keys|;
      var k := if last then keys[n - 1] else keys[0];
      r := Ok((k, vals[k]));
      keys := if last then keys[..n - 1] else keys[1..];
      vals := vals - {k};
    }

    /** move_to_end(key, last): reorders only. Afterwards the entries are the key -> value relation
        of the old items, so `equals(old items, False)` holds; once a key that was not last moved to
        the end the order differs from `OrderedDict(old items)`, so `equals(old items, True)` fails
        (see `Equals`). */
    method MoveToEnd(key: K, last: bool) returns (r: Result<(), Error<K>>)
      requires Valid()
      modifies this
      ensures Valid() && needReindex && vals == old(vals)
      ensures indexKey == old(indexKey) && keyIndex == old(keyIndex)
      ensures key in old(vals) ==> r.Ok? && keys == MoveKey(old(keys), key, last)
      ensures key !in old(vals) ==> r == Err(KeyNotFound(key)) && keys == old(keys)
      ensures vals == LastWins(Items(old(Snapshot())))
      ensures key in old(vals) && last && key != old(keys)[|old(keys)| - 1] ==>
        keys != FromPairs(Items(old(Snapshot()))).keys
    {
      ghost var before := Snapshot();
      MoveEquality(before, key, last);
      needReindex := true;
      if key in vals {
        keys := MoveKey(keys, key, last);
        assert Snapshot() == Store(MoveKey(before.keys, key, last), before.vals, true);
        r := Ok(());
      } else {
        r := Err(KeyNotFound(key));
      }
      assert Valid();
    }

    /** copy: a new dictionary with the same entries in the same order, carrying over the flag and
        the cache as they are (no rebuild). */
    method Copy() returns (other: IndexedOrderedDict<K, V>)
      requires Valid()
      ensures fresh(other) && other.Valid()
      ensures other.keys == keys && other.vals == vals
      ensures other.needReindex == needReindex && other.indexKey == indexKey && other.keyIndex == keyIndex
      ensures other.Equals(Items(Snapshot()), true)
    {
      ghost var s := Snapshot();
      var flag, cachedKeys, cachedIndex := needReindex, indexKey, keyIndex;
      FromItems(s);
      other := new IndexedOrderedDict(Items(Snapshot()));
      other.needReindex, other.indexKey, other.keyIndex := flag, cachedKeys, cachedIndex;
      assert other.Snapshot() == Store(s.keys, s.vals, flag) == s;
      EqualsOwnItems(other, s);
    }

    /** equals(other, with_order), `other` given as the pairs it normalizes to. In order: the same
        keys in the same order with the same values as `OrderedDict(other)`; without order: the same
        key -> value relation as `dict(other)`, where a repeated key keeps its last value. */
    function Equals(other: seq<(K, V)>, withOrder: bool): (r: bool)
      reads this
      requires Valid()
      ensures withOrder ==> (r <==> keys == FromPairs(other).keys && vals == FromPairs(other).vals)
      ensures !withOrder ==> (r <==> vals == LastWins(other))
    {
      ComparedWith(Snapshot(), other);
      if withOrder then Items(Snapshot()) == Items(FromPairs(other)) else vals == FromPairs(other).vals
    }
  }

  /** A dictionary equals, in order and ignoring order, the items of any store with its order and entries. */
  lemma EqualsOwnItems<K, V>(d: IndexedOrderedDict<K, V>, s: Store<K, V>)
    requires d.Valid() && WellFormed(s) && d.keys == s.keys && d.vals == s.vals
    ensures d.Equals(Items(s), true) && d.Equals(Items(s), false)
  {
    FromItems(s);
    ItemsLastWins(s);
  }

  /** After move_to_end the dictionary still equals its old items when order is ignored, and no
      longer equals them in order once a key that was not last moved to the end. */
  lemma MoveToEndEquals<K, V>(d: IndexedOrderedDict<K, V>, before: Store<K, V>, key: K, last: bool)
    requires d.Valid() && WellFormed(before) && d.vals == before.vals
    requires d.keys == if key in before.vals then MoveKey(before.keys, key, last) else before.keys
    ensures d.Equals(Items(before), false)
    ensures key in before.vals && last && key != before.keys[|before.keys| - 1] ==> !d.Equals(Items(before), true)
  {
    MoveEquality(before, key, last);
  }

  /** Overwriting a key of a fresh dictionary clears the flag while the cache is still empty, so
      the first positional lookup fails although the dictionary holds one key. */
  method OverwriteBeforeIndexing<K(==), V(==)>(k: K, v1: V, v2: V) returns (r: Result<K, Error<K>>)
    ensures r == Err(IndexOutOfRange(0))
  {
    var d := new IndexedOrderedDict<K, V>([]);
    d.SetItem(k, v1);
    d.SetItem(k, v2);
    assert d.keys == [k] && !d.needReindex && d.indexKey == [];
    r := d.GetKeyByIndex(0);
  }
}

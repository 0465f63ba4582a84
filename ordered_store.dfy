/** The state of an insertion-ordered dictionary (Python's OrderedDict) as a value:
    the key order, the key -> value map and the stale-index flag that
    IndexedOrderedDict keeps beside them, with the pure operations the two
    dictionary classes are specified by. */
module OrderedStore {

  datatype Option<+T> = None | Some(value: T)

  datatype Result<+T, +E> = Ok(value: T) | Err(error: E)

  /** The exceptions the dictionaries raise; the Python exception class is in the comment. */
  datatype Error<K> =
    | KeyNotFound(key: K)            // KeyError: the key is absent
    | IndexOutOfRange(index: int)    // IndexError: a position outside the cached key list
    | DictEmpty                      // KeyError: popitem on an empty dictionary
    | KeyExists(key: K)              // KeyError: update under THROW met a present key
    | UnsupportedPolicy(onDup: int)  // ValueError: update with an unknown on_dup
    | NonStringKey                   // AssertionError: ParamDict.__setitem__ with a non-string key
    | NotCoercible                   // TypeError: the stored value cannot be coerced
    | NoneArgument                   // NoneArgumentError: get with a None default

  predicate Distinct<K(==)>(s: seq<K>)
  {
    forall i, j | 0 <= i < j < |s| :: s[i] != s[j]
  }

  /** keys: the iteration order; vals: the entries; stale: IndexedOrderedDict's _need_reindex. */
  datatype Store<K, V> = Store(keys: seq<K>, vals: map<K, V>, stale: bool)

  /** The OrderedDict invariant: every key appears once in the order, and the order lists exactly the keys. */
  ghost predicate WellFormed<K, V>(s: Store<K, V>)
  {
    && Distinct(s.keys)
    && s.vals.Keys == set k | k in s.keys
  }

  /** A fresh dictionary: no entries and, as IndexedOrderedDict.__init__ leaves it, a stale index. */
  function Empty<K(==), V>(): (r: Store<K, V>)
    ensures WellFormed(r) && r.stale
  {
    Store([], map[], true)
  }

  /** `d[k] = v` on IndexedOrderedDict: a new key is appended at the end, a present key keeps its
      place; the flag becomes "the key was new", whatever it was before. */
  function Put<K(==), V>(s: Store<K, V>, k: K, v: V): (r: Store<K, V>)
    ensures WellFormed(s) ==> WellFormed(r)
    ensures s.keys <= r.keys
    ensures r.vals == s.vals[k := v]
  {
    Store(if k in s.vals then s.keys else s.keys + [k], s.vals[k := v], k !in s.vals)
  }

  /** The key order with `k` taken out, the others keeping their relative order. */
  function Remove<K(==)>(s: seq<K>, k: K): (r: seq<K>)
    ensures forall x | x in r :: x in s && x != k
    ensures forall x | x in s && x != k :: x in r
    ensures Distinct(s) ==> Distinct(r)
    ensures Distinct(s) && k in s ==> |r| == |s| - 1
    ensures k !in s ==> |r| == |s|
  {
    if s == [] then []
    else
      var rest := Remove(s[1..], k);
      if s[0] == k then
        assert Distinct(s) ==> k !in s[1..];
        rest
      else
        assert Distinct(s) ==> s[0] !in rest;
        [s[0]] + rest
  }

  /** OrderedDict.move_to_end(k, last): `k` goes to the end (last) or to the front (not last). */
  function MoveKey<K(==)>(s: seq<K>, k: K, last: bool): (r: seq<K>)
    requires Distinct(s) && k in s
    ensures Distinct(r) && |r| == |s|
    ensures forall x | x in r :: x in s
    ensures forall x | x in s :: x in r
    ensures if last then r[|r| - 1] == k else r[0] == k
  {
    if last then Remove(s, k) + [k] else [k] + Remove(s, k)
  }

  /** `{x: i for i, x in enumerate(s)}`: a later position of a repeated key overwrites an earlier one. */
  function IndexMap<K(==)>(s: seq<K>): (m: map<K, int>)
    ensures m.Keys == set k | k in s
    ensures forall k | k in m :: 0 <= m[k] < |s| && s[m[k]] == k
  {
    if s == [] then map[]
    else IndexMap(s[..|s| - 1])[s[|s| - 1] := |s| - 1]
  }

  /** Python list indexing `s[i]` on a list of length n: negative positions count from the end. */
  function ListIndex(n: nat, i: int): (r: Option<nat>)
    ensures r.Some? <==> -(n as int) <= i < n
    ensures r.Some? ==> r.value < n && (if i < 0 then r.value == n + i else r.value == i)
  {
    if 0 <= i < n then Some(i)
    else if -(n as int) <= i < 0 then Some(n + i)
    else None
  }

  /** The (key, value) pairs in iteration order: `list(d.items())`. */
  function Items<K(==), V>(s: Store<K, V>): (r: seq<(K, V)>)
    requires WellFormed(s)
    ensures |r| == |s.keys|
    ensures forall i | 0 <= i < |r| :: r[i].0 == s.keys[i] && r[i].1 == s.vals[s.keys[i]]
  {
    seq(|s.keys|, i requires 0 <= i < |s.keys| => (s.keys[i], s.vals[s.keys[i]]))
  }

  function KeysOf<K(==), V>(pairs: seq<(K, V)>): (r: seq<K>)
    ensures |r| == |pairs|
    ensures forall i | 0 <= i < |r| :: r[i] == pairs[i].0
  {
    if pairs == [] then [] else [pairs[0].0] + KeysOf(pairs[1..])
  }

  /** The entries `dict(pairs)` holds: for a repeated key the last pair wins. */
  function LastWins<K(==), V>(pairs: seq<(K, V)>): (m: map<K, V>)
    ensures m.Keys == set k | k in KeysOf(pairs)
  {
    if pairs == [] then map[] else map[pairs[0].0 := pairs[0].1] + LastWins(pairs[1..])
  }

  /** Assigning the pairs one after the other, left to right. */
  function PutAll<K(==), V>(s: Store<K, V>, pairs: seq<(K, V)>): (r: Store<K, V>)
    ensures WellFormed(s) ==> WellFormed(r)
    ensures s.keys <= r.keys
    ensures r.vals.Keys == s.vals.Keys + set k | k in KeysOf(pairs)
    decreases |pairs|
  {
    if pairs == [] then s else PutAll(Put(s, pairs[0].0, pairs[0].1), pairs[1..])
  }

  /** `OrderedDict(pairs)`. */
  function FromPairs<K(==), V>(pairs: seq<(K, V)>): (r: Store<K, V>)
    ensures WellFormed(r)
  {
    PutAll(Empty(), pairs)
  }

  // ---------------------------------------------------------------- lemmas

  /** The index cache is the inverse of the key order: position -> key -> the same position. */
  lemma {:induction false} IndexMapAt<K>(s: seq<K>, i: int)
    requires Distinct(s) && 0 <= i < |s|
    ensures s[i] in IndexMap(s) && IndexMap(s)[s[i]] == i
  {
    if i < |s| - 1 {
      var p := s[..|s| - 1];
      IndexMapAt(p, i);
      assert p[i] == s[i];
    }
  }

  /** Both round trips of the index cache built from a distinct key order. */
  lemma IndexRoundTrip<K>(s: seq<K>)
    requires Distinct(s)
    ensures forall i | 0 <= i < |s| :: s[i] in IndexMap(s) && IndexMap(s)[s[i]] == i
    ensures forall k | k in s :: 0 <= IndexMap(s)[k] < |s| && s[IndexMap(s)[k]] == k
  {
    forall i | 0 <= i < |s| ensures s[i] in IndexMap(s) && IndexMap(s)[s[i]] == i {
      IndexMapAt(s, i);
    }
  }

  lemma {:induction false} RemoveAbsent<K>(s: seq<K>, k: K)
    requires k !in s
    ensures Remove(s, k) == s
  {
    if s != [] {
      RemoveAbsent(s[1..], k);
      assert [s[0]] + s[1..] == s;
    }
  }

  /** Removing the key at position i of a distinct order deletes exactly that position. */
  lemma {:induction false} RemoveAt<K>(s: seq<K>, i: int)
    requires Distinct(s) && 0 <= i < |s|
    ensures Remove(s, s[i]) == s[..i] + s[i + 1..]
  {
    if i == 0 {
      RemoveAbsent(s[1..], s[0]);
    } else {
      RemoveAt(s[1..], i - 1);
      assert s[1..][i - 1] == s[i];
      assert s[1..][..i - 1] == s[1..i];
      assert s[1..][i..] == s[i + 1..];
      assert [s[0]] + s[1..i] == s[..i];
    }
  }

  /** A sequence with a new first element is distinct exactly when the rest is and lacks that element. */
  lemma DistinctCons<K>(k: K, rest: seq<K>)
    ensures Distinct([k] + rest) <==> Distinct(rest) && k !in rest
  {
    var s := [k] + rest;
    if Distinct(rest) && k !in rest {
      forall i, j | 0 <= i < j < |s| ensures s[i] != s[j] {
        assert s[j] == rest[j - 1];
        if i > 0 {
          assert s[i] == rest[i - 1];
        }
      }
    }
    if Distinct(s) {
      forall i, j | 0 <= i < j < |rest| ensures rest[i] != rest[j] {
        assert rest[i] == s[i + 1] && rest[j] == s[j + 1];
      }
      forall j | 0 <= j < |rest| ensures rest[j] != k {
        assert rest[j] == s[j + 1] && k == s[0];
      }
    }
  }

  /** Two well-formed stores list the same items exactly when they have the same order and entries. */
  lemma ItemsInjective<K, V>(a: Store<K, V>, b: Store<K, V>)
    requires WellFormed(a) && WellFormed(b)
    ensures Items(a) == Items(b) <==> a.keys == b.keys && a.vals == b.vals
  {
    if Items(a) == Items(b) {
      assert |a.keys| == |b.keys|;
      forall i | 0 <= i < |a.keys| ensures a.keys[i] == b.keys[i] {
        assert Items(a)[i] == Items(b)[i];
      }
      assert a.keys == b.keys;
      forall k | k in a.vals ensures k in b.vals && a.vals[k] == b.vals[k] {
        var i :| 0 <= i < |a.keys| && a.keys[i] == k;
        assert Items(a)[i] == Items(b)[i];
      }
      assert a.vals.Keys == b.vals.Keys;
    }
  }

  /** What `equals` compares: the items of a dictionary and of `OrderedDict(other)` are the same
      list exactly when order and entries agree, and `OrderedDict(other)` holds `dict(other)`. */
  lemma ComparedWith<K, V>(s: Store<K, V>, other: seq<(K, V)>)
    requires WellFormed(s)
    ensures Items(s) == Items(FromPairs(other)) <==>
      s.keys == FromPairs(other).keys && s.vals == FromPairs(other).vals
    ensures FromPairs(other).vals == LastWins(other)
  {
    ItemsInjective(s, FromPairs(other));
    PutAllLastWins(Empty(), other);
  }

  /** Assigning pairs left to right leaves each key holding the value of its last pair. */
  lemma {:induction false} PutAllLastWins<K, V>(s: Store<K, V>, pairs: seq<(K, V)>)
    ensures PutAll(s, pairs).vals == s.vals + LastWins(pairs)
    decreases |pairs|
  {
    if pairs != [] {
      var (k, v) := pairs[0];
      PutAllLastWins(Put(s, k, v), pairs[1..]);
      UpdateThenUnion(s.vals, k, v, LastWins(pairs[1..]));
    }
  }

  lemma UpdateThenUnion<K, V>(m: map<K, V>, k: K, v: V, t: map<K, V>)
    ensures m[k := v] + t == m + (map[k := v] + t)
  {
    var a, b := m[k := v] + t, m + (map[k := v] + t);
    assert a.Keys == b.Keys;
    forall x | x in a ensures a[x] == b[x] {
    }
  }

  /** The part of a well-formed store whose keys come first in the order, up to position j. */
  function Prefix<K(==), V>(s: Store<K, V>, j: nat, stale: bool): (r: Store<K, V>)
    requires WellFormed(s) && j <= |s.keys|
  {
    Store(s.keys[..j], map k | k in s.keys[..j] :: s.vals[k], stale)
  }

  lemma PrefixStep<K, V>(s: Store<K, V>, j: nat, stale: bool)
    requires WellFormed(s) && j < |s.keys|
    ensures Put(Prefix(s, j, stale), s.keys[j], s.vals[s.keys[j]]) == Prefix(s, j + 1, true)
  {
    var k := s.keys[j];
    assert s.keys[..j + 1] == s.keys[..j] + [k];
    assert k !in s.keys[..j];
    var m1 := Prefix(s, j, stale).vals[k := s.vals[k]];
    var m2 := Prefix(s, j + 1, true).vals;
    assert m1.Keys == m2.Keys;
  }

  lemma {:induction false} PutAllItemsFrom<K, V>(s: Store<K, V>, j: nat, stale: bool)
    requires WellFormed(s) && j <= |s.keys|
    ensures PutAll(Prefix(s, j, stale), Items(s)[j..]).keys == s.keys
    ensures PutAll(Prefix(s, j, stale), Items(s)[j..]).vals == s.vals
    decreases |s.keys| - j
  {
    var p := Prefix(s, j, stale);
    if j == |s.keys| {
      assert s.keys[..j] == s.keys;
      assert p.vals == s.vals;
    } else {
      var k := s.keys[j];
      var rest := Items(s)[j..];
      assert rest[0] == (k, s.vals[k]) && rest[1..] == Items(s)[j + 1..];
      assert PutAll(p, rest) == PutAll(Put(p, k, s.vals[k]), rest[1..]);
      PrefixStep(s, j, stale);
      PutAllItemsFrom(s, j + 1, true);
    }
  }

  /** Rebuilding an ordered dictionary from its own items gives it back, order included. */
  lemma FromItems<K, V>(s: Store<K, V>)
    requires WellFormed(s)
    ensures FromPairs(Items(s)).keys == s.keys && FromPairs(Items(s)).vals == s.vals
  {
    assert Prefix(s, 0, true) == Empty();
    assert Items(s)[0..] == Items(s);
    PutAllItemsFrom(s, 0, true);
  }

  /** The key -> value relation of a dictionary's own items is the dictionary's entries. */
  lemma ItemsLastWins<K, V>(s: Store<K, V>)
    requires WellFormed(s)
    ensures LastWins(Items(s)) == s.vals
  {
    FromItems(s);
    PutAllLastWins(Empty(), Items(s));
  }

  /** Moving a key keeps the dictionary well formed and keeps the key -> value relation its
      items describe; moving a key that is not last to the end gives an order that differs from
      the one its items describe. */
  lemma MoveEquality<K, V>(s: Store<K, V>, k: K, last: bool)
    requires WellFormed(s)
    ensures LastWins(Items(s)) == s.vals
    ensures k in s.vals ==> WellFormed(Store(MoveKey(s.keys, k, last), s.vals, true))
    ensures k in s.vals && last && k != s.keys[|s.keys| - 1] ==> MoveKey(s.keys, k, last) != FromPairs(Items(s)).keys
  {
    ItemsLastWins(s);
    FromItems(s);
    if k in s.vals {
      var t := MoveKey(s.keys, k, last);
      assert (set x | x in t) == (set x | x in s.keys);
    }
  }

  /** move_to_end keeps the other keys in their order: the key at position i leaves its place and
      goes to the end (last) or to the front (not last). */
  lemma MoveKeyAt<K>(s: seq<K>, i: int, last: bool)
    requires Distinct(s) && 0 <= i < |s|
    ensures MoveKey(s, s[i], last) == if last then s[..i] + s[i + 1..] + [s[i]] else [s[i]] + s[..i] + s[i + 1..]
  {
    RemoveAt(s, i);
  }
}

/**
 * `FromEntries`, `Entries` and `KeyUnion` of src/index.d.ts: conversions
 * between lists of key-value pairs, objects and key unions. An object type
 * with literal keys is a `map`; since `FromEntries` keeps every value given
 * for a key, its result maps each key to the set of those values.
 */
module Objects {
  import opened Collections
  import Decimal

  /** A literal property key: a string or a number (symbols are not modelled). */
  datatype PropertyKey = Name(name: string) | Index(index: int)

  /** What `Entries` and `KeyUnion` accept: a tuple or an object with literal keys. */
  datatype Indexable<V> =
    | TupleValue(items: seq<V>)
    | ObjectValue(fields: map<PropertyKey, V>)

  /** The keys that occur in a list of entries. */
  function EntryKeys<K(==), V>(kv: seq<(K, V)>): set<K> {
    set i | 0 <= i < |kv| :: kv[i].0
  }

  /**
   * `FromEntries<KV>`: a mapped type over the positions of `kv` that files
   * the value of each entry under its key; entries with one key merge into
   * the union of their values.
   */
  function FromEntries<K(==), V(==)>(kv: seq<(K, V)>): (m: map<K, set<V>>)
    ensures forall i :: 0 <= i < |kv| ==> kv[i].0 in m && kv[i].1 in m[kv[i].0]
    ensures forall k <- m.Keys :: m[k] != {} && forall v <- m[k] :: (k, v) in kv
  {
    map k | k in EntryKeys(kv) :: set i | 0 <= i < |kv| && kv[i].0 == k :: kv[i].1
  }

  /** The value stored under `k`, or nothing. */
  function Lookup<K(==), V>(m: map<K, set<V>>, k: K): set<V> {
    if k in m then m[k] else {}
  }

  /** The values paired with `k` in `kv`. */
  ghost function ValuesOf<K, V>(kv: seq<(K, V)>, k: K): set<V> {
    set p | p in kv && p.0 == k :: p.1
  }

  /** Two maps whose values are all non-empty sets agree when their lookups agree. */
  lemma LookupExtensional<K, V>(m1: map<K, set<V>>, m2: map<K, set<V>>)
    requires forall k <- m1.Keys :: m1[k] != {}
    requires forall k <- m2.Keys :: m2[k] != {}
    requires forall k :: Lookup(m1, k) == Lookup(m2, k)
    ensures m1 == m2
  {
    forall k | k in m1 ensures k in m2 && m1[k] == m2[k] {
      assert Lookup(m1, k) == Lookup(m2, k);
    }
    forall k | k in m2 ensures k in m1 {
      assert Lookup(m1, k) == Lookup(m2, k);
    }
  }

  /** The keys of `FromEntries(kv)` are exactly the keys occurring in `kv`. */
  lemma FromEntriesKeys<K, V>(kv: seq<(K, V)>)
    ensures FromEntries(kv).Keys == EntryKeys(kv)
  {
    var m := FromEntries(kv);
    forall k | k in m ensures k in EntryKeys(kv) {
      var v :| v in m[k];
      var i :| 0 <= i < |kv| && kv[i] == (k, v);
    }
  }

  /** The value under a key is the set of all values paired with it in `kv`. */
  lemma FromEntriesValues<K, V>(kv: seq<(K, V)>, k: K)
    ensures Lookup(FromEntries(kv), k) == ValuesOf(kv, k)
  {
    var m := FromEntries(kv);
    var vs := ValuesOf(kv, k);
    forall v | v in Lookup(m, k) ensures v in vs {
      assert (k, v) in kv;
    }
    forall v | v in vs ensures v in Lookup(m, k) {
      var p :| p in kv && p.0 == k && p.1 == v;
      var i :| 0 <= i < |kv| && kv[i] == p;
    }
  }

  /** No entries give the empty object. */
  lemma FromEntriesEmpty<K, V>()
    ensures FromEntries<K, V>([]) == map[]
  {
    FromEntriesKeys<K, V>([]);
  }

  /** Only the set of entries matters, not their order or repetition. */
  lemma FromEntriesOrder<K, V>(kv1: seq<(K, V)>, kv2: seq<(K, V)>)
    requires T2U(kv1) == T2U(kv2)
    ensures FromEntries(kv1) == FromEntries(kv2)
  {
    forall k ensures Lookup(FromEntries(kv1), k) == Lookup(FromEntries(kv2), k) {
      FromEntriesValues(kv1, k);
      FromEntriesValues(kv2, k);
      forall p ensures p in kv1 <==> p in kv2 {
        assert p in kv1 <==> p in T2U(kv1);
        assert p in kv2 <==> p in T2U(kv2);
      }
    }
    LookupExtensional(FromEntries(kv1), FromEntries(kv2));
  }

  /** The values paired with `j` after one more entry. */
  lemma ValuesOfSnoc<K, V>(kv: seq<(K, V)>, k: K, v: V, j: K)
    ensures ValuesOf(kv + [(k, v)], j) == ValuesOf(kv, j) + (if j == k then {v} else {})
  {
    var kv' := kv + [(k, v)];
    forall p ensures p in kv' <==> p in kv || p == (k, v) {
      if p in kv' {
        var i :| 0 <= i < |kv'| && kv'[i] == p;
        if i < |kv| { assert kv[i] == p; }
      }
      if p in kv {
        var i :| 0 <= i < |kv| && kv[i] == p;
        assert kv'[i] == p;
      }
      assert kv'[|kv|] == (k, v);
    }
  }

  /** A later entry adds its value to those already under its key and leaves the other keys alone. */
  lemma FromEntriesSnoc<K, V>(kv: seq<(K, V)>, k: K, v: V)
    ensures FromEntries(kv + [(k, v)]) == FromEntries(kv)[k := Lookup(FromEntries(kv), k) + {v}]
  {
    var m := FromEntries(kv);
    var expected := m[k := Lookup(m, k) + {v}];
    forall j ensures Lookup(FromEntries(kv + [(k, v)]), j) == Lookup(expected, j) {
      FromEntriesValues(kv, j);
      FromEntriesValues(kv + [(k, v)], j);
      ValuesOfSnoc(kv, k, v, j);
    }
    LookupExtensional(FromEntries(kv + [(k, v)]), expected);
  }

  /**
   * The name of the property a key denotes. A number key names the property
   * spelled by its decimal numeral, so `0` and `"0"` are one property.
   */
  function PropertyName(k: PropertyKey): string {
    match k
    case Name(s) => s
    case Index(n) => if n < 0 then "-" + Decimal.FromNat(-n) else Decimal.FromNat(n)
  }

  /** Number keys name different properties exactly when they are different numbers. */
  lemma PropertyNameIndex(m: int, n: int)
    ensures PropertyName(Index(m)) == PropertyName(Index(n)) <==> m == n
  {
    var a, b := PropertyName(Index(m)), PropertyName(Index(n));
    if a == b {
      if m < 0 && n < 0 {
        assert a[1..] == Decimal.FromNat(-m) && b[1..] == Decimal.FromNat(-n);
        Decimal.FromNatInjective(-m, -n);
      } else if m >= 0 && n >= 0 {
        Decimal.FromNatInjective(m, n);
      }
    }
  }

  /** The entries with each key replaced by the name of its property. */
  function Named<V>(kv: seq<(PropertyKey, V)>): seq<(string, V)> {
    seq(|kv|, i requires 0 <= i < |kv| => (PropertyName(kv[i].0), kv[i].1))
  }

  /**
   * `FromEntries<KV>` on property keys: the result's members are properties,
   * so entries whose keys name one property, such as `0` and `"0"`, merge.
   */
  function PropertyFromEntries<V(==)>(kv: seq<(PropertyKey, V)>): map<string, set<V>> {
    FromEntries(Named(kv))
  }

  /** The values paired in `kv` with a key that names property `n`. */
  ghost function ValuesNamed<V>(kv: seq<(PropertyKey, V)>, n: string): set<V> {
    set p | p in kv && PropertyName(p.0) == n :: p.1
  }

  /** The property named `n` holds every value whose key names `n`. */
  lemma PropertyFromEntriesValues<V>(kv: seq<(PropertyKey, V)>, n: string)
    ensures Lookup(PropertyFromEntries(kv), n) == ValuesNamed(kv, n)
  {
    var r := Named(kv);
    FromEntriesValues(r, n);
    forall v | v in ValuesOf(r, n) ensures v in ValuesNamed(kv, n) {
      var q :| q in r && q.0 == n && q.1 == v;
      var i :| 0 <= i < |r| && r[i] == q;
      assert kv[i] in kv;
    }
    forall v | v in ValuesNamed(kv, n) ensures v in ValuesOf(r, n) {
      var p :| p in kv && PropertyName(p.0) == n && p.1 == v;
      var i :| 0 <= i < |kv| && kv[i] == p;
      assert r[i] in r;
    }
  }

  /** The properties of the result are the names of the keys that occur in `kv`. */
  lemma PropertyFromEntriesKeys<V>(kv: seq<(PropertyKey, V)>)
    ensures PropertyFromEntries(kv).Keys == set p | p in kv :: PropertyName(p.0)
  {
    var r := Named(kv);
    FromEntriesKeys(r);
    forall n | n in EntryKeys(r) ensures n in set p | p in kv :: PropertyName(p.0) {
      var i :| 0 <= i < |r| && r[i].0 == n;
      assert kv[i] in kv;
    }
    forall n | n in set p | p in kv :: PropertyName(p.0) ensures n in EntryKeys(r) {
      var p :| p in kv && PropertyName(p.0) == n;
      var i :| 0 <= i < |kv| && kv[i] == p;
      assert r[i].0 == n;
    }
  }

  /**
   * `Entries` of a tuple: one entry per position, in order, keyed by the
   * position written in decimal; no two entries share a key.
   */
  function TupleEntries<V>(xs: seq<V>): (r: seq<(PropertyKey, V)>)
    ensures |r| == |xs|
    ensures forall i :: 0 <= i < |r| ==> r[i].1 == xs[i]
    ensures forall i :: 0 <= i < |r| ==> r[i].0 == PositionKey(i)
    ensures forall i :: 0 <= i < |r| ==>
      r[i].0.Name? && Decimal.IsNumeral(r[i].0.name) && Decimal.ToNat(r[i].0.name) == i
    ensures forall i, j :: 0 <= i < j < |r| ==> r[i].0 != r[j].0
  {
    var r := seq(|xs|, i requires 0 <= i < |xs| => (PositionKey(i), xs[i]));
    assert forall i :: 0 <= i < |r| ==> Decimal.ToNat(r[i].0.name) == i by {
      forall i | 0 <= i < |r| ensures Decimal.ToNat(r[i].0.name) == i {
        Decimal.ToNatFromNat(i);
      }
    }
    r
  }

  /**
   * `Entries` of an object: the object's key-value pairs, each once, in an
   * order the checker chooses (`U2T` of the union of pairs); no two entries
   * share a key.
   */
  ghost function ObjectEntries<V>(fields: map<PropertyKey, V>): (r: seq<(PropertyKey, V)>)
    ensures NoDup(r) && T2U(r) == fields.Items
    ensures forall i, j :: 0 <= i < j < |r| ==> r[i].0 != r[j].0
  {
    var r := U2T(fields.Items);
    assert forall i, j :: 0 <= i < j < |r| ==> r[i].0 != r[j].0 by {
      forall i, j | 0 <= i < j < |r| ensures r[i].0 != r[j].0 {
        assert r[i] in fields.Items && r[j] in fields.Items;
        assert r[i] != r[j];
      }
    }
    r
  }

  /** `Entries<O>`: tuples and objects are listed as above. */
  ghost function Entries<V>(o: Indexable<V>): seq<(PropertyKey, V)> {
    match o
    case TupleValue(xs) => TupleEntries(xs)
    case ObjectValue(fields) => ObjectEntries(fields)
  }

  /**
   * `KeyUnion<O>`: the positions "0" .. "n-1" of a tuple of length `n`, or
   * the keys of an object.
   */
  function KeyUnion<V>(o: Indexable<V>): (ks: set<PropertyKey>)
    ensures o.TupleValue? ==> ks == set i | 0 <= i < |o.items| :: PositionKey(i)
    ensures o.TupleValue? ==> |ks| == |o.items|
    ensures o.ObjectValue? ==> ks == o.fields.Keys
  {
    match o
    case TupleValue(xs) =>
      PositionKeysSize(|xs|);
      PositionKeys(|xs|)
    case ObjectValue(fields) => fields.Keys
  }

  /** The key of position `i` of a tuple: its decimal numeral, "0", "1", ... */
  function PositionKey(i: nat): PropertyKey {
    Name(Decimal.FromNat(i))
  }

  /** The keys of the positions below `n`. */
  function PositionKeys(n: nat): set<PropertyKey> {
    set i | 0 <= i < n :: PositionKey(i)
  }

  /** The positions below `n` have `n` distinct keys. */
  lemma {:induction false} PositionKeysSize(n: nat)
    ensures |PositionKeys(n)| == n
  {
    if n > 0 {
      PositionKeysSize(n - 1);
      assert PositionKeys(n) == PositionKeys(n - 1) + {PositionKey(n - 1)};
      assert PositionKey(n - 1) !in PositionKeys(n - 1) by {
        forall i | 0 <= i < n - 1 ensures PositionKey(i) != PositionKey(n - 1) {
          Decimal.FromNatInjective(i, n - 1);
        }
      }
    }
  }

  /** The key union of the empty tuple and the empty object is empty. */
  lemma KeyUnionEmpty<V>()
    ensures KeyUnion<V>(TupleValue([])) == {}
    ensures KeyUnion<V>(ObjectValue(map[])) == {}
  {
  }

  /** The key union is the set of keys of the entries list. */
  lemma KeyUnionOfEntries<V>(o: Indexable<V>)
    ensures KeyUnion(o) == EntryKeys(Entries(o))
  {
    match o
    case TupleValue(xs) =>
      var r := TupleEntries(xs);
      forall k | k in EntryKeys(r) ensures k in PositionKeys(|xs|) {
        var i :| 0 <= i < |r| && r[i].0 == k;
      }
      forall k | k in PositionKeys(|xs|) ensures k in EntryKeys(r) {
        var i :| 0 <= i < |xs| && k == PositionKey(i);
        assert r[i].0 == k;
      }
    case ObjectValue(fields) =>
      var r := ObjectEntries(fields);
      forall k | k in fields ensures k in EntryKeys(r) {
        assert (k, fields[k]) in fields.Items;
        var i :| 0 <= i < |r| && r[i] == (k, fields[k]);
      }
      forall k | k in EntryKeys(r) ensures k in fields {
        var i :| 0 <= i < |r| && r[i].0 == k;
        assert r[i] in fields.Items;
      }
  }

  /** The entries of the empty object are the empty list. */
  lemma EntriesEmptyObject<V>()
    ensures Entries<V>(ObjectValue(map[])) == []
  {
    T2UEmpty(ObjectEntries<V>(map[]));
  }

  /** In the entries of an object, the values paired with `k` are its field, if any. */
  lemma ObjectEntriesValues<V>(fields: map<PropertyKey, V>, k: PropertyKey)
    ensures ValuesOf(ObjectEntries(fields), k) == if k in fields then {fields[k]} else {}
  {
    var r := ObjectEntries(fields);
    forall v | v in ValuesOf(r, k) ensures k in fields && v == fields[k] {
      var p :| p in r && p.0 == k && p.1 == v;
      assert p in T2U(r);
    }
    if k in fields {
      assert (k, fields[k]) in T2U(r);
      assert fields[k] in ValuesOf(r, k);
    }
  }

  /** `FromEntries` undoes `Entries` on an object, each value becoming a one-member union. */
  lemma FromEntriesOfObjectEntries<V>(fields: map<PropertyKey, V>)
    ensures FromEntries(Entries(ObjectValue(fields))) == map k | k in fields :: {fields[k]}
  {
    var r := ObjectEntries(fields);
    forall k ensures Lookup(FromEntries(r), k) == Lookup(map k | k in fields :: {fields[k]}, k) {
      FromEntriesValues(r, k);
      ObjectEntriesValues(fields, k);
    }
    LookupExtensional(FromEntries(r), map k | k in fields :: {fields[k]});
  }

  /** In the entries of a tuple, the key of position `i` is paired with `xs[i]` alone. */
  lemma TupleEntriesValues<V>(xs: seq<V>, i: nat)
    requires i < |xs|
    ensures ValuesOf(TupleEntries(xs), PositionKey(i)) == {xs[i]}
  {
    var r := TupleEntries(xs);
    var k := PositionKey(i);
    Decimal.ToNatFromNat(i);
    assert r[i] == (k, xs[i]);
    forall v | v in ValuesOf(r, k) ensures v == xs[i] {
      var p :| p in r && p.0 == k && p.1 == v;
      var j :| 0 <= j < |r| && r[j] == p;
    }
  }

  /** `FromEntries` undoes `Entries` on a tuple: position `i` holds `{xs[i]}` under key "i". */
  lemma FromEntriesOfTupleEntries<V>(xs: seq<V>)
    ensures FromEntries(Entries(TupleValue(xs))).Keys == KeyUnion(TupleValue(xs))
    ensures forall i :: 0 <= i < |xs| ==>
      FromEntries(Entries(TupleValue(xs)))[PositionKey(i)] == {xs[i]}
  {
    var r := TupleEntries(xs);
    KeyUnionOfEntries(TupleValue(xs));
    FromEntriesKeys(r);
    forall i | 0 <= i < |xs| ensures Lookup(FromEntries(r), PositionKey(i)) == {xs[i]} {
      FromEntriesValues(r, PositionKey(i));
      TupleEntriesValues(xs, i);
    }
  }

  /** `FromEntries<[["a", 1], ["a", 2]]>` is `{ a: 1 | 2 }`. */
  lemma ExampleMergedKey()
    ensures FromEntries([("a", 1), ("a", 2)]) == map["a" := {1, 2}]
  {
    var none: seq<(string, int)> := [];
    var m0 := FromEntries(none);
    FromEntriesEmpty<string, int>();
    assert Lookup(m0, "a") == {};
    FromEntriesSnoc(none, "a", 1);
    assert [("a", 1)] == none + [("a", 1)];
    var m1 := FromEntries([("a", 1)]);
    assert m1 == m0["a" := Lookup(m0, "a") + {1}];
    assert Lookup(m0, "a") + {1} == {1};
    assert m0["a" := {1}] == map["a" := {1}];
    assert m1 == map["a" := {1}];
    FromEntriesSnoc([("a", 1)], "a", 2);
    assert [("a", 1), ("a", 2)] == [("a", 1)] + [("a", 2)];
    assert Lookup(m1, "a") + {2} == {1, 2};
  }

  /** `FromEntries<[[0, "a"], ["0", "b"]]>` is `{ 0: "a" | "b" }`: the number key and its numeral merge. */
  lemma ExampleIndexAndName()
    ensures PropertyFromEntries([(Index(0), "a"), (Name("0"), "b")]) == map["0" := {"a", "b"}]
  {
    var kv := [(Index(0), "a"), (Name("0"), "b")];
    var m := PropertyFromEntries(kv);
    assert PropertyName(Index(0)) == "0";
    PropertyFromEntriesKeys(kv);
    assert m.Keys == {"0"} by {
      forall n | n in m.Keys ensures n == "0" {
        var p :| p in kv && PropertyName(p.0) == n;
      }
      assert kv[0] in kv;
    }
    PropertyFromEntriesValues(kv, "0");
    assert m["0"] == {"a", "b"} by {
      assert kv[0] in kv && kv[1] in kv;
      forall v | v in ValuesNamed(kv, "0") ensures v == "a" || v == "b" {
        var p :| p in kv && PropertyName(p.0) == "0" && p.1 == v;
      }
    }
  }
}

/** The static two-level perfect hash map: a primary hash sends each key known ahead of time
    to one of `m` buckets, and each bucket is a secondary map without collisions. */
module PerfectHash {
  import opened Wrappers
  import opened MaskSearch
  import opened Secondary

  /** The keys that `h` sends to bucket `b`, in the order given. */
  ghost function Bucket<K>(keys: seq<K>, h: K -> nat, b: nat): (r: seq<K>)
    decreases |keys|
  {
    if keys == [] then []
    else
      var last := keys[|keys| - 1];
      Bucket(keys[..|keys| - 1], h, b) + (if h(last) == b then [last] else [])
  }

  /** A bucket holds exactly the keys hashed to it. */
  lemma {:induction false} BucketMembers<K>(keys: seq<K>, h: K -> nat, b: nat)
    ensures forall k :: k in Bucket(keys, h, b) ==> k in keys && h(k) == b
    ensures forall k :: k in keys && h(k) == b ==> k in Bucket(keys, h, b)
    decreases |keys|
  {
    if keys != [] {
      var init := keys[..|keys| - 1];
      BucketMembers(init, h, b);
      assert keys == init + [keys[|keys| - 1]];
    }
  }

  /** Masked codes that separate all keys separate the keys of one bucket. */
  lemma {:induction false} BucketDistinct<K>(keys: seq<K>, h: K -> nat, b: nat, hashCode: K -> int, w: nat)
    requires DistinctUnder(keys, hashCode, w)
    ensures DistinctUnder(Bucket(keys, h, b), hashCode, w)
    decreases |keys|
  {
    if keys != [] {
      var init, last := keys[..|keys| - 1], keys[|keys| - 1];
      assert keys == init + [last];
      DistinctSnoc(init, hashCode, w, last);
      BucketDistinct(init, h, b, hashCode, w);
      if h(last) == b {
        var bi := Bucket(init, h, b);
        DistinctSnoc(bi, hashCode, w, last);
        BucketMembers(init, h, b);
        assert forall k :: k in bi ==> k in init;
        forall j | 0 <= j < |bi|
          ensures Masked(hashCode(bi[j]), w) != Masked(hashCode(last), w)
        {
          assert bi[j] in bi;
          var i :| 0 <= i < |init| && init[i] == bi[j];
          assert Masked(hashCode(init[i]), w) in Codes(init, hashCode, w);
        }
      }
    }
  }

  /** The keys a lookup table finds, with what it finds for them. */
  ghost function Present<K, V>(l: map<K, Option<V>>): (r: map<K, V>)
  {
    map k | k in l && l[k].Some? :: l[k].value
  }

  /** Storing a value for a key stores it in the associations found. */
  lemma PresentStore<K, V>(l: map<K, Option<V>>, key: K, val: V)
    ensures Present(l[key := Some(val)]) == Present(l)[key := val]
  {
  }

  /** Clearing a key removes it from the associations found. */
  lemma PresentClear<K, V>(l: map<K, Option<V>>, key: K)
    ensures Present(ClearKey(l, key)) == Present(l) - {key}
  {
  }

  /** The lookup table after clearing `key`, if it has an entry for it. */
  function ClearKey<K, V>(l: map<K, Option<V>>, key: K): (r: map<K, Option<V>>)
    ensures r.Keys == l.Keys
    ensures forall k :: k in r ==> r[k] == if k == key then None else l[k]
  {
    if key in l then l[key := None] else l
  }

  /** Two lookup tables over the same keys that differ only in clearing `key`. */
  lemma ClearedLookups<K, V>(before: map<K, Option<V>>, after: map<K, Option<V>>, key: K)
    requires after.Keys == before.Keys
    requires forall k :: k in after ==> after[k] == if k == key then None else before[k]
    ensures after == ClearKey(before, key)
  {
  }

  /** Two lookup tables over the same keys that differ only in storing `val` for `key`. */
  lemma StoredLookups<K, V>(before: map<K, Option<V>>, after: map<K, Option<V>>, key: K, val: V)
    requires after.Keys == before.Keys && key in before
    requires forall k :: k in after ==> after[k] == if k == key then Some(val) else before[k]
    ensures after == before[key := Some(val)]
  {
  }

  /** No element occurs twice. */
  ghost predicate NoDuplicates<K>(s: seq<K>)
  {
    forall x, y :: 0 <= x < y < |s| ==> s[x] != s[y]
  }

  /** Joining two sequences without duplicates and without common elements gives none. */
  lemma DisjointConcat<K>(a: seq<K>, b: seq<K>)
    requires NoDuplicates(a) && NoDuplicates(b)
    requires forall k :: k in a ==> k !in b
    ensures NoDuplicates(a + b)
  {
    forall x, y | 0 <= x < y < |a + b|
      ensures (a + b)[x] != (a + b)[y]
    {
      if y < |a| {
        assert (a + b)[x] == a[x] && (a + b)[y] == a[y];
      } else if x >= |a| {
        assert (a + b)[x] == b[x - |a|] && (a + b)[y] == b[y - |a|];
      } else {
        assert (a + b)[x] == a[x] && (a + b)[y] == b[y - |a|];
        assert a[x] in a && b[y - |a|] in b;
      }
    }
  }

  /** The loop that adds each key to the bucket of its primary hash. */
  method Partition<K(!new)>(keys: seq<K>, primary: K -> nat) returns (counts: array<seq<K>>)
    requires |keys| > 0 ==> RangeBelow(primary, |keys|)
    ensures fresh(counts) && counts.Length == |keys|
    ensures forall b :: 0 <= b < |keys| ==> counts[b] == Bucket(keys, primary, b)
  {
    counts := new seq<K>[|keys|](_ => []);
    for i := 0 to |keys|
      invariant forall b :: 0 <= b < |keys| ==> counts[b] == Bucket(keys[..i], primary, b)
    {
      assert keys[..i + 1][..i] == keys[..i];
      counts[primary(keys[i])] := counts[primary(keys[i])] + [keys[i]];
    }
    assert keys[..|keys|] == keys;
  }

  /** The loop that builds one secondary map per bucket; `draws(i, r)` is the hash
      function the factory returns on its `r`-th call for bucket `i`. */
  method BuildSecondaries<K(==, !new), V>(buckets: seq<seq<K>>, hashCode: K -> int, draws: (nat, nat) -> (K -> nat))
    returns (secs: seq<SecondaryMap<K, V>>, ghost footprint: set<object>)
    requires forall i :: 0 <= i < |buckets| && |buckets[i]| > 0 ==>
      exists b :: 6 <= b <= 30 && DistinctUnder(buckets[i], hashCode, b)
    requires forall i :: 0 <= i < |buckets| && |buckets[i]| > 0 ==>
      forall r :: RangeBelow(draws(i, r), |buckets[i]| * |buckets[i]|)
    requires forall i :: 0 <= i < |buckets| && |buckets[i]| > 0 ==>
      exists r :: InjectiveOn(draws(i, r), buckets[i])
    ensures |secs| == |buckets|
    ensures forall j :: 0 <= j < |secs| ==>
      secs[j].Valid() && secs[j].bucket == buckets[j] && secs[j].Assoc() == map[] && fresh(secs[j].Repr)
    ensures forall j, j' :: 0 <= j < j' < |secs| ==> secs[j].Repr !! secs[j'].Repr
    ensures fresh(footprint) && forall j :: 0 <= j < |secs| ==> secs[j].Repr <= footprint
  {
    secs, footprint := [], {};
    for i := 0 to |buckets|
      invariant |secs| == i
      invariant forall j :: 0 <= j < i ==>
        secs[j].Valid() && secs[j].bucket == buckets[j] && secs[j].Assoc() == map[] && fresh(secs[j].Repr)
      invariant forall j, j' :: 0 <= j < j' < i ==> secs[j].Repr !! secs[j'].Repr
      invariant fresh(footprint) && forall j :: 0 <= j < i ==> secs[j].Repr <= footprint
    {
      var sm: SecondaryMap<K, V> := BuildOne(buckets[i], hashCode, draws, i);
      secs, footprint := secs + [sm], footprint + sm.Repr;
    }
  }

  /** One iteration of the loop: the secondary map of bucket `i`. */
  method BuildOne<K(==, !new), V>(bucket: seq<K>, hashCode: K -> int, draws: (nat, nat) -> (K -> nat), i: nat)
    returns (sm: SecondaryMap<K, V>)
    requires |bucket| > 0 ==> exists b :: 6 <= b <= 30 && DistinctUnder(bucket, hashCode, b)
    requires |bucket| > 0 ==> forall r :: RangeBelow(draws(i, r), |bucket| * |bucket|)
    requires |bucket| > 0 ==> exists r :: InjectiveOn(draws(i, r), bucket)
    ensures sm.Valid() && sm.bucket == bucket && sm.Assoc() == map[] && fresh(sm.Repr)
  {
    if |bucket| > 0 {
      ghost var r0: nat :| InjectiveOn(draws(i, r0), bucket);
      assert (r => draws(i, r))(r0) == draws(i, r0);
    }
    sm := new SecondaryMap(bucket, hashCode, r => draws(i, r));
  }

  /** The constructor's work before its fields are set: partitions the keys into buckets by
      the primary hash and builds one secondary map per bucket, in an array of its own. */
  method BuildTable<K(==, !new), V>(keys: seq<K>, hashCode: K -> int, primary: K -> nat,
                                    draws: (nat, nat) -> (K -> nat))
    returns (arr: array<SecondaryMap<K, V>>, ghost footprint: set<object>)
    requires exists b :: 6 <= b <= 30 && DistinctUnder(keys, hashCode, b)
    requires |keys| > 0 ==> RangeBelow(primary, |keys|)
    requires forall i :: 0 <= i < |keys| && |Bucket(keys, primary, i)| > 0 ==>
      forall r :: RangeBelow(draws(i, r), |Bucket(keys, primary, i)| * |Bucket(keys, primary, i)|)
    requires forall i :: 0 <= i < |keys| && |Bucket(keys, primary, i)| > 0 ==>
      exists r :: InjectiveOn(draws(i, r), Bucket(keys, primary, i))
    ensures fresh(arr) && arr.Length == |keys| && fresh(footprint) && arr !in footprint
    ensures forall j :: 0 <= j < arr.Length ==>
      arr[j].Valid() && arr[j].bucket == Bucket(keys, primary, j) && arr[j].Assoc() == map[] &&
      arr[j].Repr <= footprint
    ensures forall j, j' :: 0 <= j < j' < arr.Length ==> arr[j].Repr !! arr[j'].Repr
  {
    var n := |keys|;
    ghost var w :| 6 <= w <= 30 && DistinctUnder(keys, hashCode, w);
    var counts := Partition(keys, primary);
    forall i | 0 <= i < n
      ensures DistinctUnder(counts[i], hashCode, w)
    {
      BucketDistinct(keys, primary, i, hashCode, w);
    }
    var secs: seq<SecondaryMap<K, V>>;
    secs, footprint := BuildSecondaries(counts[..], hashCode, draws);
    arr := new SecondaryMap<K, V>[n](j requires 0 <= j < n => secs[j]);
    assert forall j :: 0 <= j < n ==> arr[j] == secs[j];
  }

  class PerfectHashMap<K(==, !new), V> {
    /** One secondary map per bucket. */
    const secondaries: array<SecondaryMap<K, V>>
    /** The greatest masked hash code of the keys, given to the hash factory. */
    const p: int
    /** The number of keys known ahead of time, which is also the number of buckets. */
    const m: nat
    /** The primary hash function. */
    const h: K -> nat
    /** The least mask `2^b - 1`, `b >= 6`, that separates the keys' hash codes. */
    const mask: int
    /** The keys known ahead of time. */
    ghost const Keys: seq<K>
    ghost const Repr: set<object>

    ghost predicate Valid()
      reads Repr
    {
      Separate() && Holds()
    }

    /** The secondary maps are valid and keep to pairwise disjoint parts of `Repr`. */
    ghost predicate Separate()
      reads Repr
    {
      && secondaries in Repr && secondaries.Length == m
      && (forall i :: 0 <= i < m ==>
            secondaries[i].Repr <= Repr && secondaries !in secondaries[i].Repr)
      && (forall i, j :: 0 <= i < j < m ==> secondaries[i].Repr !! secondaries[j].Repr)
      && (forall i :: 0 <= i < m ==> secondaries[i].Valid())
    }

    /** Secondary map `i` is built on bucket `i` of the primary hash. */
    ghost predicate Holds()
      reads Repr
    {
      && secondaries in Repr && secondaries.Length == m && m == |Keys|
      && (m > 0 ==> RangeBelow(h, m))
      && (forall i, k :: 0 <= i < m && k in secondaries[i].bucket ==> k in Keys && h(k) == i)
      && (forall k :: k in Keys ==> k in secondaries[h(k)].bucket)
    }

    /** What the secondary map of the key's bucket holds for a key known ahead of time. */
    ghost function Lookup(k: K): (r: Option<V>)
      reads Repr
      requires Valid() && k in Keys
    {
      secondaries[h(k)].Get(k)
    }

    /** What the secondary maps hold for each key known ahead of time. */
    ghost function Lookups(): (r: map<K, Option<V>>)
      reads Repr
      requires Valid()
      ensures forall k :: k in r <==> k in Keys
    {
      map k | k in Keys :: Lookup(k)
    }

    /** The associations of the map: those of the secondary map of each key's bucket. */
    ghost function Assoc(): (r: map<K, V>)
      reads Repr
      requires Valid()
    {
      Present(Lookups())
    }

    /** Builds the secondary maps: finds the mask, partitions the keys into buckets by the
        primary hash and builds one secondary map per bucket. `primary` is the hash function
        the factory returns for the primary level, and `draws(i, r)` the one it returns on
        the `r`-th draw for bucket `i`. */
    constructor (keys: seq<K>, hashCode: K -> int, primary: K -> nat, draws: (nat, nat) -> (K -> nat))
      requires exists b :: 6 <= b <= 30 && DistinctUnder(keys, hashCode, b)
      requires |keys| > 0 ==> RangeBelow(primary, |keys|)
      requires forall i :: 0 <= i < |keys| && |Bucket(keys, primary, i)| > 0 ==>
        forall r :: RangeBelow(draws(i, r), |Bucket(keys, primary, i)| * |Bucket(keys, primary, i)|)
      requires forall i :: 0 <= i < |keys| && |Bucket(keys, primary, i)| > 0 ==>
        exists r :: InjectiveOn(draws(i, r), Bucket(keys, primary, i))
      ensures Valid() && Keys == keys && m == |keys| && h == primary && Assoc() == map[]
      ensures forall i :: 0 <= i < m ==> secondaries[i].bucket == Bucket(keys, primary, i)
      ensures exists b :: (6 <= b <= 30 && mask == Pow2(b) - 1 && DistinctUnder(keys, hashCode, b) &&
        (forall b' :: 6 <= b' < b ==> !DistinctUnder(keys, hashCode, b')) &&
        p == GreatestMasked(keys, hashCode, b))
      ensures fresh(Repr)
    {
      var found := FindMaskAndGreatestKey(keys, hashCode);
      var arr: array<SecondaryMap<K, V>>;
      ghost var footprint: set<object>;
      arr, footprint := BuildTable(keys, hashCode, primary, draws);
      secondaries, p, m, h, mask := arr, found.greatest, |keys|, primary, found.mask;
      Keys := keys;
      Repr := {arr} + footprint;
      new;
      BuiltIsValid(footprint);
    }

    /** A map whose secondary maps are fresh, untouched and one per bucket is valid and
        holds no associations. */
    lemma BuiltIsValid(footprint: set<object>)
      requires secondaries.Length == m == |Keys|
      requires Repr == {secondaries} + footprint && secondaries !in footprint
      requires m > 0 ==> RangeBelow(h, m)
      requires forall j :: 0 <= j < m ==> secondaries[j].Repr <= footprint
      requires forall j, j' :: 0 <= j < j' < m ==> secondaries[j].Repr !! secondaries[j'].Repr
      requires forall j :: 0 <= j < m ==>
        secondaries[j].Valid() && secondaries[j].bucket == Bucket(Keys, h, j) && secondaries[j].Assoc() == map[]
      ensures Valid() && Assoc() == map[]
    {
      BuiltBuckets();
      forall k | k in Keys
        ensures Lookup(k) == None
      {
        assert secondaries[h(k)].Assoc() == map[];
      }
      assert forall k :: k in Lookups() ==> Lookups()[k].None?;
    }

    /** The secondary maps hold the buckets of the primary hash. */
    lemma BuiltBuckets()
      requires secondaries in Repr && secondaries.Length == m == |Keys|
      requires m > 0 ==> RangeBelow(h, m)
      requires forall j :: 0 <= j < m ==> secondaries[j].bucket == Bucket(Keys, h, j)
      ensures Holds()
    {
      forall b | 0 <= b < m {
        BucketMembers(Keys, h, b);
      }
      forall k | k in Keys {
        BucketMembers(Keys, h, h(k));
      }
    }

    /** `containsKey`: asks the secondary map of the key's bucket. */
    function ContainsKey(key: K): (r: bool)
      reads Repr
      requires Valid() && m > 0
      ensures r <==> key in Assoc()
    {
      secondaries[h(key)].ContainsKey(key)
    }

    /** `get`: asks the secondary map of the key's bucket. */
    function Get(key: K): (r: Option<V>)
      reads Repr
      requires Valid() && m > 0
      ensures r == if key in Assoc() then Some(Assoc()[key]) else None
    {
      secondaries[h(key)].Get(key)
    }

    /** A write that changed only the objects of the secondary map of bucket `i`, and left
        it valid, leaves the map valid and every key of another bucket as it was. */
    twostate lemma OneBucketChanged(i: nat)
      requires old(Valid()) && i < m && secondaries[i].Valid()
      requires unchanged(Repr - secondaries[i].Repr)
      ensures Valid()
      ensures forall k :: k in Keys && h(k) != i ==> Lookup(k) == old(Lookup(k))
    {
      var s := secondaries[i];
      forall j | 0 <= j < m && j != i
        ensures secondaries[j].Valid()
      {
        assert secondaries[j].Repr !! s.Repr;
      }
      forall k | k in Keys && h(k) != i
        ensures Lookup(k) == old(Lookup(k))
      {
        assert secondaries[h(k)].Repr !! s.Repr;
      }
    }

    /** A step that touched no object of the map leaves it valid, with the same keys to
        iterate over. */
    twostate lemma Untouched(i: nat)
      requires old(Valid()) && unchanged(Repr)
      ensures Valid() && KeysAfter(i) == old(KeysAfter(i))
    {
    }

    /** `put` of a key known ahead of time. */
    method Put(key: K, val: V)
      requires Valid() && key in Keys
      modifies secondaries[h(key)].Repr
      ensures Valid()
      ensures Assoc() == old(Assoc())[key := val]
    {
      var i := h(key);
      ghost var s := secondaries[i];
      secondaries[i].Put(key, val);
      OneBucketChanged(i);
      forall k | k in Keys && h(k) == i
        ensures s.Get(k) == if k == key then Some(val) else old(s.Get(k))
      {
      }
      assert forall k :: k in Keys ==> Lookup(k) == if k == key then Some(val) else old(Lookup(k));
      ghost var before, after := old(Lookups()), Lookups();
      assert forall k :: k in after ==> after[k] == Lookup(k);
      assert forall k :: k in before ==> before[k] == old(Lookup(k));
      StoredLookups(before, after, key, val);
      PresentStore(before, key, val);
    }

    /** `remove`: removes the key from the secondary map of its bucket. */
    method Remove(key: K)
      requires Valid() && m > 0
      modifies secondaries[h(key)].keys
      ensures Valid()
      ensures Assoc() == old(Assoc()) - {key}
    {
      var i := h(key);
      ghost var s := secondaries[i];
      assert s.keys == null || s.keys in s.Repr;
      secondaries[i].Remove(key);
      OneBucketChanged(i);
      forall k | k in Keys && h(k) == i
        ensures s.Get(k) == if k == key then None else old(s.Get(k))
      {
      }
      assert forall k :: k in Keys ==> Lookup(k) == if k == key then None else old(Lookup(k));
      ghost var before, after := old(Lookups()), Lookups();
      assert forall k :: k in after ==> after[k] == Lookup(k);
      assert forall k :: k in before ==> before[k] == old(Lookup(k));
      ClearedLookups(before, after, key);
      PresentClear(before, key);
    }

    /** What an iteration yields from secondary map `i` on: the keys of each secondary map
        in slot order, one secondary map after the other. */
    ghost function KeysAfter(i: nat): (r: seq<K>)
      reads Repr
      requires Valid()
      decreases m - i
    {
      if i >= m then [] else secondaries[i].SlotKeys() + KeysAfter(i + 1)
    }

    /** What an iteration over the whole map yields. */
    ghost function AllKeys(): (r: seq<K>)
      reads Repr
      requires Valid()
    {
      KeysAfter(0)
    }

    /** The keys yielded from secondary map `i` on are the present keys of buckets `i` and
        later. */
    lemma KeysAfterStored(i: nat)
      requires Valid()
      ensures forall k :: k in KeysAfter(i) <==> k in Assoc() && i <= h(k)
    {
      forall k
        ensures k in KeysAfter(i) <==> k in Assoc() && i <= h(k)
      {
        KeyAfterStored(i, k);
      }
    }

    /** Key `k` is yielded from secondary map `i` on exactly when it is present and its
        bucket is `i` or later. */
    lemma {:induction false} KeyAfterStored(i: nat, k: K)
      requires Valid()
      ensures k in KeysAfter(i) <==> k in Assoc() && i <= h(k)
      decreases m - i
    {
      if i < m {
        KeyAfterStored(i + 1, k);
        SlotKeyStored(i, k);
      } else {
        assert KeysAfter(i) == [];
        assert k in Assoc() ==> Lookup(k).Some?;
      }
    }

    /** Secondary map `i` yields `k`, ahead of the later secondary maps, exactly when `k`
        is present in bucket `i`. */
    lemma SlotKeyStored(i: nat, k: K)
      requires Valid() && i < m
      ensures k in KeysAfter(i) <==> k in secondaries[i].SlotKeys() || k in KeysAfter(i + 1)
      ensures k in secondaries[i].SlotKeys() <==> k in Assoc() && h(k) == i
    {
      var sm := secondaries[i];
      assert KeysAfter(i) == sm.SlotKeys() + KeysAfter(i + 1);
      sm.SlotKeysAreTheKeys();
      if k in sm.SlotKeys() {
        assert k in sm.Assoc();
        assert Lookup(k).Some?;
      }
      if k in Assoc() && h(k) == i {
        assert Lookup(k).Some?;
      }
    }

    /** The keys yielded from secondary map `i` on come each once. */
    lemma {:induction false} KeysAfterDistinct(i: nat)
      requires Valid()
      ensures NoDuplicates(KeysAfter(i))
      decreases m - i
    {
      if i < m {
        var sm := secondaries[i];
        var a, rest := sm.SlotKeys(), KeysAfter(i + 1);
        assert NoDuplicates(rest) by {
          KeysAfterDistinct(i + 1);
        }
        assert NoDuplicates(a) && forall k :: k in a ==> k !in rest by {
          KeysAfterStored(i + 1);
          sm.SlotKeysAreTheKeys();
          forall k | k in a
            ensures h(k) == i
          {
            assert k in sm.Assoc();
          }
        }
        DisjointConcat(a, rest);
      }
    }

    /** An iteration yields exactly the keys the map holds an association for, each once. */
    lemma AllKeysAreTheKeys()
      requires Valid()
      ensures forall k :: k in AllKeys() <==> k in Assoc()
      ensures NoDuplicates(AllKeys())
    {
      KeysAfterStored(0);
      KeysAfterDistinct(0);
    }

    /** The loop of `iterator()` and of the iterator's `next()`: moves from secondary map
        `from` to the first one whose `iterator()` is not `null`, or to `m`. */
    method SkipFrom(from: nat) returns (start: nat, first: SlotCursor?<K, V>)
      requires Valid() && from <= m
      ensures from <= start <= m && KeysAfter(start) == KeysAfter(from)
      ensures start == m ==> first == null
      ensures start < m ==>
        && first != null && fresh(first) && first.owner == secondaries[start]
        && first.Valid() && first.HasNext() && first.Remaining() == secondaries[start].SlotKeys()
    {
      start, first := from, null;
      while start < m
        invariant from <= start <= m && first == null
        invariant KeysAfter(start) == KeysAfter(from)
      {
        first := secondaries[start].Iterator();
        if first != null {
          return;
        }
        start := start + 1;
      }
    }

    /** `iterator()`: a cursor on the first secondary map with something to iterate; an
        exhausted cursor, standing for the empty iterator, when there is none. */
    method Iterator() returns (it: MapCursor<K, V>)
      requires Valid()
      ensures fresh(it) && it.owner == this && it.Valid() && it.Remaining() == AllKeys()
    {
      var start, first := SkipFrom(0);
      it := new MapCursor(this, start, first);
    }
  }

  /** Taking the first key off the front of `before` and appending `rest` regroups. */
  lemma ConsAppend<K>(k: K, before: seq<K>, after: seq<K>, rest: seq<K>, whole: seq<K>)
    requires before == [k] + after && whole == before + rest
    ensures [k] + (after + rest) == whole
  {
    assert [k] + (after + rest) == ([k] + after) + rest;
  }

  /** The iterator of the map: `it` iterates over secondary map `current`, and once every
      secondary map is done `current` is `m` and `it` is `null`. It reads the map's live state. */
  class MapCursor<K(==, !new), V> {
    const owner: PerfectHashMap<K, V>
    var current: nat
    var it: SlotCursor?<K, V>

    ghost predicate Valid()
      reads this, owner.Repr, it
    {
      && owner.Valid() && this !in owner.Repr && current <= owner.m
      && (current == owner.m ==> it == null)
      && (current < owner.m ==>
            && it != null && it !in owner.Repr && it.owner == owner.secondaries[current]
            && it.Valid() && it.HasNext())
    }

    /** The keys still to come. */
    ghost function Remaining(): (r: seq<K>)
      reads this, owner.Repr, it
      requires Valid()
    {
      if current == owner.m then [] else it.Remaining() + owner.KeysAfter(current + 1)
    }

    constructor (owner: PerfectHashMap<K, V>, start: nat, first: SlotCursor?<K, V>)
      requires owner.Valid() && start <= owner.m
      requires start == owner.m ==> first == null
      requires start < owner.m ==>
        && first != null && first !in owner.Repr && first.owner == owner.secondaries[start]
        && first.Valid() && first.HasNext()
      ensures Valid() && this.owner == owner && current == start && it == first
    {
      this.owner := owner;
      current, it := start, first;
    }

    /** Points the cursor at secondary map `c` and its iterator `nx`. */
    method MoveTo(c: nat, nx: SlotCursor?<K, V>, ghost tail: seq<K>)
      requires owner.Valid() && this !in owner.Repr && c <= owner.m
      requires c == owner.m ==> nx == null && tail == []
      requires c < owner.m ==>
        && nx != null && nx !in owner.Repr && nx.owner == owner.secondaries[c]
        && nx.Valid() && nx.HasNext() && tail == nx.Remaining() + owner.KeysAfter(c + 1)
      modifies this
      ensures Valid() && current == c && it == nx && Remaining() == tail
    {
      current, it := c, nx;
    }

    /** `hasNext`: some secondary map still has keys to yield. */
    function HasNext(): (b: bool)
      reads this, owner.Repr, it
      requires Valid()
      ensures b <==> Remaining() != []
    {
      current < owner.m && it != null && it.HasNext()
    }

    /** `next`: the next key of the current secondary map; once that is done, the cursor
        moves on to the next secondary map with something to iterate. */
    method Next() returns (k: K)
      requires Valid() && HasNext()
      modifies this, it
      ensures Valid() && [k] + Remaining() == old(Remaining())
    {
      ghost var rest, before := owner.KeysAfter(current + 1), it.Remaining();
      ghost var whole := old(Remaining());
      assert whole == before + rest;
      k := it.Next();
      owner.Untouched(current + 1);
      ghost var after := it.Remaining();
      assert before == [k] + after;
      Settle(rest);
      assert Remaining() == after + rest;
      ConsAppend(k, before, after, rest, whole);
    }

    /** The part of `next()` after the current secondary map has yielded a key: when that
        map is done, move on to the next one with something to iterate. */
    method Settle(ghost rest: seq<K>)
      requires owner.Valid() && this !in owner.Repr && current < owner.m
      requires it != null && it !in owner.Repr && it.owner == owner.secondaries[current] && it.Valid()
      requires rest == owner.KeysAfter(current + 1)
      modifies this
      ensures Valid() && Remaining() == old(it.Remaining()) + rest
    {
      if !it.HasNext() {
        Advance(rest);
      }
    }

    /** The part of `next()` that moves past secondary map `current` once it is done. */
    method Advance(ghost rest: seq<K>)
      requires owner.Valid() && this !in owner.Repr && current < owner.m
      requires rest == owner.KeysAfter(current + 1)
      modifies this
      ensures Valid() && Remaining() == rest
    {
      var c, nx := owner.SkipFrom(current + 1);
      ghost var tail := if c < owner.m then nx.Remaining() + owner.KeysAfter(c + 1) else [];
      assert tail == rest by {
        if c < owner.m {
          assert owner.KeysAfter(c) == nx.Remaining() + owner.KeysAfter(c + 1);
        }
      }
      MoveTo(c, nx, tail);
    }
  }
}

/** The secondary maps of the perfect hash map: one per bucket of the primary hash, with
    `n^2` slots for the bucket's `n` keys and a hash function drawn until it sends those
    keys to pairwise distinct slots. */
module Secondary {
  import opened Wrappers
  import opened MaskSearch
  import opened PrimeSearch

  /** `h` sends the keys at different positions of `bucket` to different slots. */
  ghost predicate InjectiveOn<K>(h: K -> nat, bucket: seq<K>)
  {
    forall i, j :: 0 <= i < j < |bucket| ==> h(bucket[i]) != h(bucket[j])
  }

  /** `h` yields slots in `[0, m)` for every key. */
  ghost predicate RangeBelow<K(!new)>(h: K -> nat, m: nat)
  {
    forall k :: h(k) < m
  }

  /** One round of the redraw loop: place the keys one by one in a scratch array of `m`
      slots under `h`, and report a collision as soon as a slot is already taken. */
  method Collides<K>(bucket: seq<K>, h: K -> nat, m: nat) returns (collision: bool)
    requires forall j :: 0 <= j < |bucket| ==> h(bucket[j]) < m
    ensures collision <==> !InjectiveOn(h, bucket)
  {
    var keys := new Option<K>[m](_ => None);
    collision := false;
    var j := 0;
    while j < |bucket|
      invariant 0 <= j <= |bucket|
      invariant InjectiveOn(h, bucket[..j])
      invariant forall s :: 0 <= s < m ==>
        (keys[s].Some? <==> exists i :: 0 <= i < j && h(bucket[i]) == s)
    {
      var secHash := h(bucket[j]);
      if keys[secHash] != None {
        collision := true;
        break;
      }
      keys[secHash] := Some(bucket[j]);
      j := j + 1;
    }
  }

  /** The redraw loop of the constructor: draw hash functions in turn until one is
      collision-free on the bucket, re-allocating the all-empty `keys` array after every
      round. Returns the first collision-free draw and the last `keys` array. */
  method Redraw<K(!new)>(bucket: seq<K>, m: nat, draws: nat -> (K -> nat))
    returns (h: K -> nat, keys: array<Option<K>>)
    requires forall r :: RangeBelow(draws(r), m)
    requires exists r :: InjectiveOn(draws(r), bucket)
    ensures InjectiveOn(h, bucket) && RangeBelow(h, m)
    ensures exists r: nat :: h == draws(r) && forall r' :: 0 <= r' < r ==> !InjectiveOn(draws(r'), bucket)
    ensures fresh(keys) && keys.Length == m && forall s :: 0 <= s < m ==> keys[s] == None
  {
    ghost var r0: nat :| InjectiveOn(draws(r0), bucket);
    var round := 0;
    h := draws(0);
    keys := new Option<K>[m](_ => None);
    var collisions := true;
    while collisions
      invariant forall r :: 0 <= r < round - 1 ==> !InjectiveOn(draws(r), bucket)
      invariant collisions ==> round <= r0 && forall r :: 0 <= r < round ==> !InjectiveOn(draws(r), bucket)
      invariant !collisions ==> round >= 1 && h == draws(round - 1) && InjectiveOn(h, bucket)
      invariant RangeBelow(h, m)
      invariant fresh(keys) && keys.Length == m && forall s :: 0 <= s < m ==> keys[s] == None
      decreases r0 + 1 - round
    {
      h := draws(round);
      round := round + 1;
      collisions := Collides(bucket, h, m);
      keys := new Option<K>[m](_ => None);
    }
  }

  class SecondaryMap<K(==, !new), V> {
    /** Slot `s` holds `Some(k)` when key `k` is stored there; `null` for an empty bucket. */
    const keys: array?<Option<K>>
    /** The value last put at each slot; removal leaves it in place. */
    const values: array?<Option<V>>
    /** The number of slots, the square of the bucket's size. */
    const m: nat
    /** The drawn secondary hash; arbitrary, and never applied, for an empty bucket. */
    const h: K -> nat
    /** The least prime above the bucket's greatest masked code, or 1 when that code is 0, and
        the least separating mask; both 0 for an empty bucket. */
    const p: int
    const mask: int
    /** The keys known ahead of time that the primary hash sends to this bucket. */
    ghost const bucket: seq<K>
    ghost const Repr: set<object>

    ghost predicate Valid()
      reads Repr
    {
      && m == |bucket| * |bucket|
      && (keys == null <==> |bucket| == 0) && (values == null <==> |bucket| == 0)
      && (keys == null ==> Repr == {})
      && (keys != null ==> Repr == {keys as object, values as object} && keys as object != values as object)
      && (|bucket| > 0 ==>
            && keys.Length == m && values.Length == m
            && RangeBelow(h, m) && InjectiveOn(h, bucket)
            && forall s :: 0 <= s < m && keys[s].Some? ==>
                 keys[s].value in bucket && h(keys[s].value) == s && values[s].Some?)
    }

    /** The associations the secondary map holds. */
    ghost function Assoc(): (r: map<K, V>)
      reads Repr
      requires Valid()
    {
      map k | k in bucket && keys[h(k)] == Some(k) :: values[h(k)].value
    }

    /** Builds the arrays and draws hash functions until one is collision-free on the
        bucket; `draws(r)` is the hash function the factory returns on its `r`-th call. */
    constructor (givenKeys: seq<K>, hashCode: K -> int, draws: nat -> (K -> nat))
      requires |givenKeys| > 0 ==> exists b :: 6 <= b <= 30 && DistinctUnder(givenKeys, hashCode, b)
      requires |givenKeys| > 0 ==> forall r :: RangeBelow(draws(r), |givenKeys| * |givenKeys|)
      requires |givenKeys| > 0 ==> exists r :: InjectiveOn(draws(r), givenKeys)
      ensures Valid() && bucket == givenKeys && Assoc() == map[]
      ensures |givenKeys| == 0 ==> keys == null && values == null && Repr == {}
      ensures |givenKeys| > 0 ==> fresh(keys) && fresh(values) && Repr == {keys as object, values as object}
      ensures |givenKeys| > 0 ==> forall s :: 0 <= s < m ==> keys[s] == None
      ensures |givenKeys| > 0 ==>
        exists b :: 6 <= b <= 30 && mask == Pow2(b) - 1 && DistinctUnder(givenKeys, hashCode, b) &&
          (forall b' :: 6 <= b' < b ==> !DistinctUnder(givenKeys, hashCode, b')) &&
          (GreatestMasked(givenKeys, hashCode, b) >= 1 ==>
             && IsPrime(p) && p > GreatestMasked(givenKeys, hashCode, b)
             && forall q :: GreatestMasked(givenKeys, hashCode, b) < q < p ==> !IsPrime(q)) &&
          (GreatestMasked(givenKeys, hashCode, b) == 0 ==> p == 1)
    {
      var n := |givenKeys|;
      if n == 0 {
        m, keys, values, h, p, mask := 0, null, null, _ => 0, 0, 0;
        bucket, Repr := givenKeys, {};
      } else {
        var tempKeys := givenKeys;
        var mm := n * n;
        var ks := new Option<K>[mm](_ => None);
        var vs := new Option<V>[mm](_ => None);
        var found := FindMaskAndGreatestKey(tempKeys, hashCode);
        var pp := FindGreatestPrime(found.greatest);
        var hh;
        hh, ks := Redraw(tempKeys, mm, draws);
        m, keys, values, h, p, mask := mm, ks, vs, hh, pp, found.mask;
        bucket, Repr := givenKeys, {ks, vs};
      }
    }

    /** `containsKey`: a key is present exactly when its slot holds that very key, so a key
        not known ahead of time that lands on an occupied slot is reported absent. */
    function ContainsKey(key: K): (r: bool)
      reads Repr
      requires Valid()
      ensures r <==> key in Assoc()
    {
      if m == 0 then false
      else
        var pos := h(key);
        keys[pos].Some? && keys[pos].value == key
    }

    /** `get`: the value of a present key, `None` (the source's `null`) otherwise. */
    function Get(key: K): (r: Option<V>)
      reads Repr
      requires Valid()
      ensures r == if key in Assoc() then Some(Assoc()[key]) else None
    {
      if !ContainsKey(key) then None else values[h(key)]
    }

    /** `put` of a key known ahead of time: its slot, which no other such key shares, takes
        the key and the value. */
    method Put(key: K, val: V)
      requires Valid() && key in bucket
      modifies Repr
      ensures Valid()
      ensures Assoc() == old(Assoc())[key := val]
    {
      var pos := h(key);
      keys[pos] := Some(key);
      values[pos] := Some(val);
    }

    /** `remove`: clears the key's slot when the key is present; the value stays behind. */
    method Remove(key: K)
      requires Valid()
      modifies keys
      ensures Valid()
      ensures Assoc() == old(Assoc()) - {key}
      ensures !old(ContainsKey(key)) ==> unchanged(Repr)
    {
      if ContainsKey(key) {
        keys[h(key)] := None;
      }
    }
  
    /** The stored keys in the slots from `s` on, by ascending slot. */
    ghost function KeysFrom(s: nat): (r: seq<K>)
      reads Repr
      requires Valid()
      decreases m - s
    {
      if s >= m then []
      else (if keys[s].Some? then [keys[s].value] else []) + KeysFrom(s + 1)
    }

    /** What an iteration over this secondary map yields. */
    ghost function SlotKeys(): (r: seq<K>)
      reads Repr
      requires Valid()
    {
      KeysFrom(0)
    }

    /** The keys from slot `s` on are exactly the keys stored there, each once. */
    lemma {:induction false} KeysFromStored(s: nat)
      requires Valid()
      ensures forall k :: k in KeysFrom(s) <==> exists t :: s <= t < m && keys[t] == Some(k)
      ensures forall i, j :: 0 <= i < j < |KeysFrom(s)| ==> KeysFrom(s)[i] != KeysFrom(s)[j]
      decreases m - s
    {
      if s < m {
        KeysFromStored(s + 1);
        if keys[s].Some? {
          var k := keys[s].value;
          assert k !in KeysFrom(s + 1) by {
            forall t | s + 1 <= t < m && keys[t].Some?
              ensures keys[t].value != k
            {
            }
          }
          var r := KeysFrom(s);
          assert r == [k] + KeysFrom(s + 1);
          forall i, j | 0 <= i < j < |r|
            ensures r[i] != r[j]
          {
            if i == 0 {
              assert r[j] == KeysFrom(s + 1)[j - 1];
            } else {
              assert r[i] == KeysFrom(s + 1)[i - 1] && r[j] == KeysFrom(s + 1)[j - 1];
            }
          }
        }
      }
    }

    /** An iteration yields exactly the keys that `containsKey` reports present, each once. */
    lemma SlotKeysAreTheKeys()
      requires Valid()
      ensures forall k :: k in SlotKeys() <==> ContainsKey(k)
      ensures forall i, j :: 0 <= i < j < |SlotKeys()| ==> SlotKeys()[i] != SlotKeys()[j]
    {
      KeysFromStored(0);
      forall k
        ensures k in SlotKeys() <==> ContainsKey(k)
      {
        if k in SlotKeys() {
          var t :| 0 <= t < m && keys[t] == Some(k);
          assert h(k) == t;
        }
      }
    }

    /** Empty slots contribute nothing: the keys from a slot are the keys from the next
        occupied one. */
    lemma {:induction false} SkipEmpty(s: nat, e: nat)
      requires Valid() && s <= e <= m
      requires forall t :: s <= t < e ==> keys[t].None?
      ensures KeysFrom(s) == KeysFrom(e)
      decreases e - s
    {
      if s < e {
        SkipEmpty(s + 1, e);
      }
    }

    /** `iterator()`: `null` when the bucket is empty or no slot is occupied, otherwise a
        cursor on the first occupied slot. */
    method Iterator() returns (it: SlotCursor?<K, V>)
      requires Valid()
      ensures it == null <==> SlotKeys() == []
      ensures it != null ==> fresh(it) && it.owner == this && it.Valid() && it.Remaining() == SlotKeys()
    {
      if keys == null {
        return null;
      }
      var start := 0;
      while start < m && keys[start] == None
        invariant 0 <= start <= m
        invariant KeysFrom(start) == KeysFrom(0)
      {
        SkipEmpty(start, start + 1);
        start := start + 1;
      }
      if start == m {
        return null;
      }
      it := new SlotCursor(this, start);
    }
  }

  /** The iterator of a secondary map: `current` is the next occupied slot, or `m` once the
      iteration is over. It reads the map's live slots. */
  class SlotCursor<K(==, !new), V> {
    const owner: SecondaryMap<K, V>
    var current: nat

    ghost predicate Valid()
      reads this, owner.Repr
    {
      && owner.Valid() && owner.keys != null && current <= owner.m
      && (current < owner.m ==> owner.keys[current].Some?)
    }

    /** The keys still to come. */
    ghost function Remaining(): (r: seq<K>)
      reads this, owner.Repr
      requires Valid()
    {
      owner.KeysFrom(current)
    }

    constructor (owner: SecondaryMap<K, V>, start: nat)
      requires owner.Valid() && owner.keys != null && start < owner.m && owner.keys[start].Some?
      ensures Valid() && this.owner == owner && current == start
    {
      this.owner := owner;
      current := start;
    }

    /** `hasNext`: the cursor has not run off the slots. */
    function HasNext(): (b: bool)
      reads this, owner.Repr
      requires Valid()
      ensures b <==> Remaining() != []
    {
      current < owner.m
    }

    /** `next`: the key at the current slot; the cursor moves on to the next occupied slot. */
    method Next() returns (k: K)
      requires Valid() && HasNext()
      modifies this
      ensures Valid() && [k] + Remaining() == old(Remaining())
    {
      var next := current;
      current := current + 1;
      while current < owner.m && owner.keys[current] == None
        invariant next < current <= owner.m
        invariant owner.KeysFrom(current) == owner.KeysFrom(next + 1)
      {
        owner.SkipEmpty(current, current + 1);
        current := current + 1;
      }
      k := owner.keys[next].value;
    }
  }
}

/** Minimal stand-ins for the open-addressing base container that the tombstone-free map
    extends: a table of slots, the linear prober and the lookup `find`. Insertion, growth and
    the initial capacity of that container are not part of this model. */
module ProbeTable {
  import opened Wrappers
  import opened Arithmetic

  /** One key-value association stored in a slot. */
  datatype Entry<K, V> = Entry(key: K, value: V)

  /** The slot table: `None` is an empty (Java `null`) slot. */
  type Slots<K, V> = seq<Option<Entry<K, V>>>

  /** The hash function maps every key to an ideal position in `[0, n)`. */
  ghost predicate HashInRange<K(!new)>(h: K -> nat, n: nat)
  {
    forall k :: h(k) < n
  }

  /** The index the linear prober yields at step `i` for a key whose ideal position is
      `start`, namely `(start + i) % n`. */
  function Pos(start: int, i: int, n: int): (p: int)
    requires 0 <= start < n && 0 <= i < n
    ensures 0 <= p < n
    ensures p == (start + i) % n
  {
    if start + i < n then
      DivModUnique(start + i, n, 0, start + i); start + i
    else
      DivModUnique(start + i, n, 1, start + i - n); start + i - n
  }

  /** The number of probe steps from position `a` to position `b`. */
  function Dist(a: int, b: int, n: int): (d: int)
    requires 0 <= a < n && 0 <= b < n
    ensures 0 <= d < n
    ensures Pos(a, d, n) == b
    ensures d == 0 <==> a == b
  {
    if a <= b then b - a else b - a + n
  }

  /** Probing `j` steps from `a` lands at a position that is `j` steps from `a`. */
  lemma DistPos(a: int, j: int, n: int)
    requires 0 <= a < n && 0 <= j < n
    ensures Dist(a, Pos(a, j, n), n) == j
  {
  }

  /** The first probe step at or after `i`, starting from `start`, that reaches an empty
      slot, or `|t|` when every remaining probed slot is occupied. */
  function RunLength<K, V>(t: Slots<K, V>, start: int, i: nat): (r: nat)
    requires 0 <= start < |t| && i <= |t|
    ensures i <= r <= |t|
    ensures forall j :: i <= j < r ==> t[Pos(start, j, |t|)].Some?
    ensures r < |t| ==> t[Pos(start, r, |t|)].None?
    decreases |t| - i
  {
    if i == |t| || t[Pos(start, i, |t|)].None? then i else RunLength(t, start, i + 1)
  }

  /** The probe walk of `find` from step `i`: it stops at an empty slot (-1), at a slot
      holding `key` (its index), or after the last probe (-1). */
  function FindFrom<K(==), V>(t: Slots<K, V>, key: K, start: int, i: nat): (r: int)
    requires 0 <= start < |t| && i <= |t|
    ensures r == -1 <==>
      forall j :: i <= j < RunLength(t, start, i) ==> t[Pos(start, j, |t|)].value.key != key
    ensures r != -1 ==>
      && 0 <= r < |t| && t[r].Some? && t[r].value.key == key
      && i <= Dist(start, r, |t|) < RunLength(t, start, i)
      && forall j :: i <= j < Dist(start, r, |t|) ==> t[Pos(start, j, |t|)].value.key != key
    decreases |t| - i
  {
    if i == |t| then -1
    else
      var p := Pos(start, i, |t|);
      if t[p].None? then -1
      else if t[p].value.key == key then (DistPos(start, i, |t|); p)
      else FindFrom(t, key, start, i + 1)
  }

  /** `find(key)`: walk the probe run from the key's ideal position until an empty slot
      (-1) or a slot holding the key (its index). */
  function Find<K(==), V>(t: Slots<K, V>, h: K -> nat, key: K): (r: int)
    requires h(key) < |t|
    ensures r == -1 <==>
      forall j :: 0 <= j < RunLength(t, h(key), 0) ==> t[Pos(h(key), j, |t|)].value.key != key
    ensures r != -1 ==>
      && 0 <= r < |t| && t[r].Some? && t[r].value.key == key
      && Dist(h(key), r, |t|) < RunLength(t, h(key), 0)
      && forall j :: 0 <= j < Dist(h(key), r, |t|) ==> t[Pos(h(key), j, |t|)].value.key != key
  {
    FindFrom(t, key, h(key), 0)
  }

  /** No key occurs in two slots. */
  ghost predicate UniqueKeys<K, V>(t: Slots<K, V>)
  {
    forall a, b ::
      0 <= a < |t| && 0 <= b < |t| && t[a].Some? && t[b].Some? && t[a].value.key == t[b].value.key
      ==> a == b
  }

  /** Every slot probed from `a` before reaching `s` is occupied. */
  ghost predicate PathOccupied<K, V>(t: Slots<K, V>, a: int, s: int)
    requires 0 <= a < |t| && 0 <= s < |t|
  {
    forall j :: 0 <= j < Dist(a, s, |t|) ==> t[Pos(a, j, |t|)].Some?
  }

  /** The linear-probing invariant: the probe path from every stored key's ideal position
      to its slot passes occupied slots only. It is what lets `find` work without markers. */
  ghost predicate ProbeInvariant<K(!new), V>(t: Slots<K, V>, h: K -> nat)
    requires HashInRange(h, |t|)
  {
    forall s :: 0 <= s < |t| && t[s].Some? ==> PathOccupied(t, h(t[s].value.key), s)
  }

  /** Under the probing invariant, `find` locates every stored key at its own slot. */
  lemma FindLocates<K(!new), V>(t: Slots<K, V>, h: K -> nat, s: int)
    requires HashInRange(h, |t|) && ProbeInvariant(t, h) && UniqueKeys(t)
    requires 0 <= s < |t| && t[s].Some?
    ensures Find(t, h, t[s].value.key) == s
  {
    FindFromReaches(t, h, s, 0);
  }

  /** Under the probing invariant, `find` locates every stored key at its own slot. */
  lemma FindsEverySlot<K(!new), V>(t: Slots<K, V>, h: K -> nat)
    requires HashInRange(h, |t|) && ProbeInvariant(t, h) && UniqueKeys(t)
    ensures forall s :: 0 <= s < |t| && t[s].Some? ==> Find(t, h, t[s].value.key) == s
  {
    forall s | 0 <= s < |t| && t[s].Some?
      ensures Find(t, h, t[s].value.key) == s
    {
      FindLocates(t, h, s);
    }
  }

  /** Under the probing invariant, `find` locates a stored association with its value. */
  lemma FindsStored<K(!new), V>(t: Slots<K, V>, h: K -> nat, x: Entry<K, V>)
    requires HashInRange(h, |t|) && ProbeInvariant(t, h) && UniqueKeys(t) && Some(x) in t
    ensures Find(t, h, x.key) != -1 && t[Find(t, h, x.key)] == Some(x)
  {
    var s :| 0 <= s < |t| && t[s] == Some(x);
    FindLocates(t, h, s);
  }

  lemma {:induction false} FindFromReaches<K(!new), V>(t: Slots<K, V>, h: K -> nat, s: int, i: nat)
    requires HashInRange(h, |t|) && ProbeInvariant(t, h) && UniqueKeys(t)
    requires 0 <= s < |t| && t[s].Some?
    requires i <= Dist(h(t[s].value.key), s, |t|)
    ensures FindFrom(t, t[s].value.key, h(t[s].value.key), i) == s
    decreases |t| - i
  {
    var a := h(t[s].value.key);
    if i < Dist(a, s, |t|) {
      var p := Pos(a, i, |t|);
      assert t[p].Some?;
      DistPos(a, i, |t|);
      assert p != s;
      FindFromReaches(t, h, s, i + 1);
    }
  }
}

/** The linear-probing map whose `remove` shifts later entries back instead of leaving a
    "deleted" marker. Only the table, the ideal-position function and `find` of the map that
    it extends are kept, as the state that `remove` works on. */
module OptimizedLP {
  import opened Wrappers
  import opened ProbeTable
  import opened BackwardShift

  class OptimizedLPMap<K(==, !new), V> {
    /** The slots: `None` for an empty slot, otherwise the association stored there. */
    var table: array<Option<Entry<K, V>>>
    /** The ideal position of each key, always inside the table. */
    const h: K -> nat

    ghost predicate Valid()
      reads this, table
    {
      && table.Length > 0
      && HashInRange(h, table.Length)
      && UniqueKeys(table[..])
    }

    /** A map over the given slots, as the inherited insertion would have left them. */
    constructor (h: K -> nat, slots: Slots<K, V>)
      requires |slots| > 0 && HashInRange(h, |slots|) && UniqueKeys(slots)
      ensures Valid() && this.h == h && table[..] == slots && fresh(table)
    {
      this.h := h;
      table := new Option<Entry<K, V>>[|slots|](i requires 0 <= i < |slots| => slots[i]);
    }

    /** `remove(key)` as written, with the literal move test. */
    method Remove(key: K)
      requires Valid()
      modifies table
      ensures Valid() && table == old(table)
      ensures table[..] == Removed(old(table[..]), h, key, false)
      ensures Find(table[..], h, key) == -1
    {
      RemoveWith(key, false);
    }

    /** `remove(key)` with the cyclic move test, which keeps every remaining key reachable by
        `find` whenever the table has an empty slot. */
    method RemoveCorrected(key: K)
      requires Valid()
      modifies table
      ensures Valid() && table == old(table)
      ensures table[..] == Removed(old(table[..]), h, key, true)
      ensures Find(table[..], h, key) == -1
      ensures old(ProbeInvariant(table[..], h) && None in table[..]) ==>
        && ProbeInvariant(table[..], h)
        && forall s :: 0 <= s < table.Length && table[s].Some? ==> Find(table[..], h, table[s].value.key) == s
    {
      ghost var t := table[..];
      RemoveWith(key, true);
      if ProbeInvariant(t, h) && None in t {
        RemovedProbeInvariant(t, h, key, true);
        RemovedKeepsKeysReachable(t, h, key, true);
      }
    }

    /** The loop of `remove`, with the move test of the chosen variant. */
    method RemoveWith(key: K, cyclic: bool)
      requires Valid()
      modifies table
      ensures Valid() && table == old(table)
      ensures table[..] == Removed(old(table[..]), h, key, cyclic)
      ensures Find(table[..], h, key) == -1
    {
      if Find(table[..], h, key) == -1 {
        return;
      }
      ghost var t := table[..];
      FoundKeyMet(t, h, key);
      ShiftBack(key, cyclic, Dist(h(key), Find(t, h, key), table.Length));
      RemovedUnique(t, h, key, cyclic);
      RemovedKeyAbsent(t, h, key, cyclic);
    }

    /** The probe walk of `remove` once `find` has located the key: fill the gap from later
        entries of the run and empty the last gap. */
    method ShiftBack(key: K, cyclic: bool, ghost d: nat)
      requires table.Length > 0 && HashInRange(h, table.Length) && KeyMetAt(table[..], h, key, d)
      modifies table
      ensures table[..] == ShiftFrom(old(table[..]), h, key, cyclic, h(key), 0, -1)
    {
      ghost var t := table[..];
      var n := table.Length;
      var start := h(key);
      ghost var whole := ShiftFrom(t, h, key, cyclic, start, 0, -1);
      var gap := -1;
      var i := 0;
      var stop := false;
      while i < n && !stop
        invariant 0 <= i <= n && -1 <= gap < n && table.Length == n
        invariant gap >= 0 ==> Dist(start, gap, n) < i
        invariant gap == -1 ==> i <= d && table[..] == t && !stop
        invariant stop ==> gap >= 0 && whole == Close(table[..], gap)
        invariant !stop ==> whole == ShiftFrom(table[..], h, key, cyclic, start, i, gap)
      {
        DistPos(start, i, n);
        gap, stop := ProbeOnce(key, cyclic, start, i, gap);
        i := i + 1;
      }
      ghost var last := table[..];
      table[gap] := None;
      assert table[..] == last[gap := None];
    }

    /** One iteration of the loop of `remove`, at probe step `i`: it ends the walk at an empty
        slot, makes the key's slot the gap, or moves the entry into the gap when the move test
        allows it. */
    method ProbeOnce(key: K, cyclic: bool, start: int, i: nat, gap: int) returns (next: int, stop: bool)
      requires HashInRange(h, table.Length) && 0 <= start < table.Length && i < table.Length
      requires -1 <= gap < table.Length && gap != Pos(start, i, table.Length)
      modifies table
      ensures -1 <= next < table.Length
      ensures next == gap || next == Pos(start, i, table.Length)
      ensures next == -1 && !stop ==>
        && old(table[Pos(start, i, table.Length)]).Some?
        && old(table[Pos(start, i, table.Length)]).value.key != key
        && table[..] == old(table[..])
      ensures stop <==> old(table[Pos(start, i, table.Length)]).None?
      ensures stop ==> next == gap
      ensures var c := Pos(start, i, table.Length);
        !stop && old(table[c]).value.key == key ==> next == c
      ensures var c := Pos(start, i, table.Length);
        !stop && old(table[c]).value.key != key ==>
          (next == c <==> ShouldMove(cyclic, h(old(table[c]).value.key), gap, c, table.Length))
      ensures var c := Pos(start, i, table.Length);
        table[..] == if !stop && old(table[c]).value.key != key && next == c && gap >= 0
                     then old(table[..])[gap := old(table[c])] else old(table[..])
      ensures stop ==> ProbeStep(old(table[..]), h, key, cyclic, start, i, gap) == Close(table[..], next)
      ensures !stop ==>
        ProbeStep(old(table[..]), h, key, cyclic, start, i, gap)
        == ShiftFrom(table[..], h, key, cyclic, start, i + 1, next)
    {
      ghost var cur := table[..];
      var n := table.Length;
      var current := Pos(start, i, n);
      if table[current].None? {
        return gap, true;
      }
      if table[current].value.key == key {
        return current, false;
      }
      var ideal := h(table[current].value.key);
      if ShouldMove(cyclic, ideal, gap, current, n) {
        table[gap] := table[current];
        assert table[..] == cur[gap := cur[current]];
        return current, false;
      }
      return gap, false;
    }
  }
}

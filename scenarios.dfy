/** Small tables on which the two variants of the removal are compared. */
module RemovalScenarios {
  import opened Wrappers
  import opened ProbeTable
  import opened BackwardShift

  /** The literal move test loses an entry once the probe run wraps past the last slot. In a
      table of four slots, `c` (ideal slot 0) sits in slot 0 and `a` (ideal slot 3) in
      slot 3. Removing `a` meets `c` at slot 0 after wrapping; the literal test sees its
      ideal slot 0 at or before the gap 3 and moves it to slot 3, then empties slot 0, so
      `find(c)` now stops at the empty slot 0. The cyclic test leaves `c` where it is. */
  lemma LiteralRemoveLosesWrappedEntry<K(!new), V>(h: K -> nat, a: K, c: K, va: V, vc: V)
    requires HashInRange(h, 4) && h(a) == 3 && h(c) == 0 && a != c
    ensures var t: Slots<K, V> := [Some(Entry(c, vc)), None, None, Some(Entry(a, va))];
      && ProbeInvariant(t, h) && UniqueKeys(t) && None in t && Find(t, h, c) == 0
      && Removed(t, h, a, false) == [None, None, None, Some(Entry(c, vc))]
      && Find(Removed(t, h, a, false), h, c) == -1
      && Removed(t, h, a, true) == [Some(Entry(c, vc)), None, None, None]
      && Find(Removed(t, h, a, true), h, c) == 0
  {
    var t: Slots<K, V> := [Some(Entry(c, vc)), None, None, Some(Entry(a, va))];
    assert Find(t, h, a) == 3;
    assert LiteralMove(0, 3, 0) && !CyclicMove(0, 3, 0, 4);
    var moved := t[3 := t[0]];
    assert ShiftFrom(t, h, a, false, 3, 0, -1) == ShiftFrom(t, h, a, false, 3, 1, 3);
    assert ShiftFrom(t, h, a, false, 3, 1, 3) == ShiftFrom(moved, h, a, false, 3, 2, 0);
    assert ShiftFrom(moved, h, a, false, 3, 2, 0) == moved[0 := None];
    assert ShiftFrom(t, h, a, true, 3, 0, -1) == ShiftFrom(t, h, a, true, 3, 1, 3);
    assert ShiftFrom(t, h, a, true, 3, 1, 3) == ShiftFrom(t, h, a, true, 3, 2, 3);
    assert ShiftFrom(t, h, a, true, 3, 2, 3) == t[3 := None];
  }

  /** Removal from a run of three colliding keys without wrap-around: both variants close
      the gap by moving the two later entries back one slot each. */
  lemma RemoveFromRun<K(!new), V>(h: K -> nat, a: K, b: K, c: K, va: V, vb: V, vc: V)
    requires HashInRange(h, 8) && h(a) == 3 && h(b) == 3 && h(c) == 3
    requires a != b && b != c && a != c
    ensures var t: Slots<K, V> :=
        [None, None, None, Some(Entry(a, va)), Some(Entry(b, vb)), Some(Entry(c, vc)), None, None];
      forall cyclic: bool ::
        Removed(t, h, a, cyclic)
        == [None, None, None, Some(Entry(b, vb)), Some(Entry(c, vc)), None, None, None]
  {
    var t: Slots<K, V> :=
      [None, None, None, Some(Entry(a, va)), Some(Entry(b, vb)), Some(Entry(c, vc)), None, None];
    forall cyclic: bool
      ensures Removed(t, h, a, cyclic)
        == [None, None, None, Some(Entry(b, vb)), Some(Entry(c, vc)), None, None, None]
    {
      assert Find(t, h, a) == 3;
      var t1 := t[3 := t[4]];
      var t2 := t1[4 := t1[5]];
      assert ShiftFrom(t, h, a, cyclic, 3, 0, -1) == ShiftFrom(t, h, a, cyclic, 3, 1, 3);
      assert ShiftFrom(t, h, a, cyclic, 3, 1, 3) == ShiftFrom(t1, h, a, cyclic, 3, 2, 4);
      assert ShiftFrom(t1, h, a, cyclic, 3, 2, 4) == ShiftFrom(t2, h, a, cyclic, 3, 3, 5);
      assert ShiftFrom(t2, h, a, cyclic, 3, 3, 5) == t2[5 := None];
    }
  }
}

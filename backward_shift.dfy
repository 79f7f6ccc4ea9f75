/** The meaning of the tombstone-free `remove` of a linear-probing table, as a function of
    the table before the call, and the properties it has. The loop of the source walks the
    probe run from the key's ideal position, keeps a `gap` slot that needs filling, moves a
    later entry back into the gap when the move test allows, and finally empties the gap. */
module BackwardShift {
  import opened Wrappers
  import opened ProbeTable

  /** The move test of the source, transcribed with Java precedence: `&&` binds tighter than
      `||`, so `gap >= 0` guards only the third disjunct. Without wrap-around (`gap < current`)
      it admits exactly the entries whose ideal position is at or before the gap or after the
      current slot; when the run has wrapped (`current < gap`) it admits every ideal position
      up to the gap, including those up to `current`. */
  function LiteralMove(ideal: int, gap: int, current: int): (move: bool)
    requires ideal >= 0
    ensures move ==> gap >= 0
    ensures gap < current ==> (move <==> gap >= 0 && (ideal <= gap || current < ideal))
    ensures current < gap ==> (move <==> ideal <= gap)
  {
    // Java reads `A || B || C && D` as `A || B || (C && D)`
    (ideal <= gap)
    || (current < ideal && ideal <= gap)
    || ((gap < current && current < ideal) && gap >= 0)
  }

  /** Position `g` lies on the probe path from `a` strictly before position `s`. */
  predicate OnPath(a: int, g: int, s: int, n: int)
    requires 0 <= a < n && 0 <= g < n && 0 <= s < n
  {
    Dist(a, g, n) < Dist(a, s, n)
  }

  /** The cyclic move test: the entry at `current` may move back to `gap` exactly when the gap
      lies on its probe path, i.e. its ideal position is not in the cyclic interval
      `(gap, current]`. */
  function CyclicMove(ideal: int, gap: int, current: int, n: int): (move: bool)
    requires 0 <= ideal < n && -1 <= gap < n && 0 <= current < n
    ensures move ==> gap >= 0
    ensures 0 <= gap < current ==> (move <==> ideal <= gap || current < ideal)
    ensures 0 <= current < gap ==> (move <==> current < ideal <= gap)
    ensures gap == current ==> !move
  {
    gap >= 0 && OnPath(ideal, gap, current, n)
  }

  /** The two tests agree whenever the gap precedes the current slot. */
  lemma LiteralAgreesWithoutWrap(ideal: int, gap: int, current: int, n: int)
    requires 0 <= ideal < n && -1 <= gap < n && 0 <= current < n && gap < current
    ensures LiteralMove(ideal, gap, current) == CyclicMove(ideal, gap, current, n)
  {
  }

  /** The test used by one of the two removal variants. */
  function ShouldMove(cyclic: bool, ideal: int, gap: int, current: int, n: int): (move: bool)
    requires 0 <= ideal < n && -1 <= gap < n && 0 <= current < n
    ensures move ==> gap >= 0
  {
    if cyclic then CyclicMove(ideal, gap, current, n) else LiteralMove(ideal, gap, current)
  }

  /** `table[gap] = null`, the final step of the removal. The branch for `gap == -1`, where
      Java would throw an index exception, is never reached from `Removed`: the walk only starts
      when `find` locates the key, and the key's slot becomes the gap before the walk can end
      (`ShiftBeforeKey`, `RemovedFromGap`). */
  function Close<K, V>(t: Slots<K, V>, gap: int): (r: Slots<K, V>)
    requires -1 <= gap < |t|
  {
    if gap >= 0 then t[gap := None] else t
  }

  /** The removal loop from probe step `i` on, with current gap `gap` (-1 before the key has
      been met): the table it leaves behind. The loop ends after the last probe. */
  function ShiftFrom<K(==, !new), V>(t: Slots<K, V>, h: K -> nat, key: K, cyclic: bool,
                                    start: int, i: nat, gap: int): (r: Slots<K, V>)
    requires HashInRange(h, |t|) && 0 <= start < |t| && i <= |t| && -1 <= gap < |t|
    ensures |r| == |t|
    decreases |t| - i, 1
  {
    if i == |t| then Close(t, gap) else ProbeStep(t, h, key, cyclic, start, i, gap)
  }

  /** One iteration of the removal loop, at probe step `i`: an empty slot ends the loop, the
      removed key becomes the gap, an entry the move test admits is copied into the gap and
      leaves its own slot as the new gap, any other entry stays. */
  function ProbeStep<K(==, !new), V>(t: Slots<K, V>, h: K -> nat, key: K, cyclic: bool,
                                    start: int, i: nat, gap: int): (r: Slots<K, V>)
    requires HashInRange(h, |t|) && 0 <= start < |t| && i < |t| && -1 <= gap < |t|
    ensures |r| == |t|
    decreases |t| - i, 0
  {
    var c := Pos(start, i, |t|);
    if t[c].None? then Close(t, gap)
    else if t[c].value.key == key then ShiftFrom(t, h, key, cyclic, start, i + 1, c)
    else if ShouldMove(cyclic, h(t[c].value.key), gap, c, |t|) then
      ShiftFrom(t[gap := t[c]], h, key, cyclic, start, i + 1, c)
    else ShiftFrom(t, h, key, cyclic, start, i + 1, gap)
  }

  /** The table after `remove(key)`: unchanged when `find` does not locate the key, otherwise
      the result of the probe walk from the key's ideal position. */
  function Removed<K(==, !new), V>(t: Slots<K, V>, h: K -> nat, key: K, cyclic: bool): (r: Slots<K, V>)
    requires HashInRange(h, |t|) && |t| > 0
    ensures |r| == |t|
  {
    if Find(t, h, key) == -1 then t else ShiftFrom(t, h, key, cyclic, h(key), 0, -1)
  }

  // ---------------------------------------------------------------------------------------
  // The walk up to the removed key

  /** Before the key is met `gap` is -1, no test admits a move, and nothing is written. */
  lemma {:induction false} ShiftBeforeKey<K(!new), V>(t: Slots<K, V>, h: K -> nat, key: K,
                                                         cyclic: bool, start: int, i: nat, d: nat)
    requires HashInRange(h, |t|) && 0 <= start < |t| && i <= d < |t|
    requires t[Pos(start, d, |t|)].Some? && t[Pos(start, d, |t|)].value.key == key
    requires forall j :: i <= j < d ==>
      t[Pos(start, j, |t|)].Some? && t[Pos(start, j, |t|)].value.key != key
    ensures ShiftFrom(t, h, key, cyclic, start, i, -1)
         == ShiftFrom(t, h, key, cyclic, start, d + 1, Pos(start, d, |t|))
    decreases d - i
  {
    if i < d {
      ShiftBeforeKey(t, h, key, cyclic, start, i + 1, d);
    }
  }

  /** The probe walk from the key's ideal position meets the key first at step `d`. */
  ghost predicate KeyMetAt<K(!new), V>(t: Slots<K, V>, h: K -> nat, key: K, d: nat)
    requires HashInRange(h, |t|)
  {
    && d < |t| && t[Pos(h(key), d, |t|)].Some? && t[Pos(h(key), d, |t|)].value.key == key
    && forall j :: 0 <= j < d ==>
      t[Pos(h(key), j, |t|)].Some? && t[Pos(h(key), j, |t|)].value.key != key
  }

  /** When `find` locates the key, the walk meets it at the key's distance from its ideal
      position. */
  lemma FoundKeyMet<K(!new), V>(t: Slots<K, V>, h: K -> nat, key: K)
    requires HashInRange(h, |t|) && |t| > 0 && Find(t, h, key) != -1
    ensures KeyMetAt(t, h, key, Dist(h(key), Find(t, h, key), |t|))
  {
  }

  /** When `find` locates the key, removing it is the walk that starts with the gap at the
      key's slot. */
  lemma RemovedFromGap<K(!new), V>(t: Slots<K, V>, h: K -> nat, key: K, cyclic: bool)
    requires HashInRange(h, |t|) && |t| > 0 && Find(t, h, key) != -1
    ensures var f := Find(t, h, key);
      Removed(t, h, key, cyclic)
      == ShiftFrom(t, h, key, cyclic, h(key), Dist(h(key), f, |t|) + 1, f)
  {
    var f := Find(t, h, key);
    ShiftBeforeKey(t, h, key, cyclic, h(key), 0, Dist(h(key), f, |t|));
  }

  // ---------------------------------------------------------------------------------------
  // The walk after the key has been met

  /** The state of the walk once a gap exists: it lies among the slots probed so far. */
  ghost predicate Scanning<K(!new), V>(t: Slots<K, V>, h: K -> nat, start: int, i: nat, gap: int)
  {
    && HashInRange(h, |t|) && 0 <= start < |t| && i <= |t|
    && 0 <= gap < |t| && Dist(start, gap, |t|) < i
  }

  /** No slot other than `gap` holds `key`. */
  ghost predicate KeyOnlyAt<K, V>(t: Slots<K, V>, key: K, gap: int)
  {
    forall s :: 0 <= s < |t| && s != gap && t[s].Some? ==> t[s].value.key != key
  }

  /** No key occurs in two slots, the slot `gap` not counted. */
  ghost predicate UniqueExcept<K, V>(t: Slots<K, V>, gap: int)
  {
    forall a, b ::
      0 <= a < |t| && 0 <= b < |t| && a != gap && b != gap && t[a].Some? && t[b].Some? &&
      t[a].value.key == t[b].value.key
      ==> a == b
  }

  /** Moving the entry at `c` into the gap and making `c` the new gap keeps the multiset of
      the slots outside the gap. */
  lemma MoveKeepsMultiset<T>(t: seq<Option<T>>, gap: int, c: int)
    requires 0 <= gap < |t| && 0 <= c < |t| && gap != c
    ensures multiset(t[gap := t[c]][c := None]) == multiset(t[gap := None])
  {
    var w := t[gap := t[c]];
    var rest := multiset(t) - multiset{t[gap]};
    assert w[c] == t[c];
    assert multiset(w) == rest + multiset{t[c]};
    assert multiset(w[c := None]) == multiset(w) - multiset{t[c]} + multiset{None};
    assert multiset(w) - multiset{t[c]} == rest;
    assert multiset(t[gap := None]) == rest + multiset{None};
  }

  /** Invariant of the loop: every slot except the gap holds the association the table will
      end with, so the multiset of slots except the gap is preserved. */
  lemma {:induction false} ShiftMultiset<K(!new), V>(t: Slots<K, V>, h: K -> nat, key: K,
                                                        cyclic: bool, start: int, i: nat, gap: int)
    requires Scanning(t, h, start, i, gap) && KeyOnlyAt(t, key, gap)
    ensures multiset(ShiftFrom(t, h, key, cyclic, start, i, gap)) == multiset(t[gap := None])
    decreases |t| - i
  {
    if i < |t| {
      var c := Pos(start, i, |t|);
      DistPos(start, i, |t|);
      if t[c].Some? && t[c].value.key != key && ShouldMove(cyclic, h(t[c].value.key), gap, c, |t|) {
        var t' := t[gap := t[c]];
        assert ShiftFrom(t, h, key, cyclic, start, i, gap) == ShiftFrom(t', h, key, cyclic, start, i + 1, c);
        ShiftMultiset(t', h, key, cyclic, start, i + 1, c);
        MoveKeepsMultiset(t, gap, c);
      } else if t[c].Some? && t[c].value.key != key {
        assert ShiftFrom(t, h, key, cyclic, start, i, gap) == ShiftFrom(t, h, key, cyclic, start, i + 1, gap);
        ShiftMultiset(t, h, key, cyclic, start, i + 1, gap);
      }
    }
  }

  /** Invariant of the loop: `key` occurs at most in the gap, so it is gone at the end. */
  lemma {:induction false} ShiftKeyAbsent<K(!new), V>(t: Slots<K, V>, h: K -> nat, key: K,
                                                         cyclic: bool, start: int, i: nat, gap: int)
    requires Scanning(t, h, start, i, gap) && KeyOnlyAt(t, key, gap)
    ensures KeyOnlyAt(ShiftFrom(t, h, key, cyclic, start, i, gap), key, -1)
    decreases |t| - i
  {
    if i < |t| {
      var c := Pos(start, i, |t|);
      DistPos(start, i, |t|);
      if t[c].Some? && t[c].value.key != key && ShouldMove(cyclic, h(t[c].value.key), gap, c, |t|) {
        assert ShiftFrom(t, h, key, cyclic, start, i, gap) == ShiftFrom(t[gap := t[c]], h, key, cyclic, start, i + 1, c);
        ShiftKeyAbsent(t[gap := t[c]], h, key, cyclic, start, i + 1, c);
      } else if t[c].Some? && t[c].value.key != key {
        assert !ShouldMove(cyclic, h(t[c].value.key), gap, c, |t|);
        assert ShiftFrom(t, h, key, cyclic, start, i, gap) == ShiftFrom(t, h, key, cyclic, start, i + 1, gap);
        ShiftKeyAbsent(t, h, key, cyclic, start, i + 1, gap);
      } else if t[c].None? {
        assert ShiftFrom(t, h, key, cyclic, start, i, gap) == t[gap := None];
      }
    } else {
      assert ShiftFrom(t, h, key, cyclic, start, i, gap) == t[gap := None];
    }
  }

  /** Invariant of the loop: keys are unique outside the gap, so they are unique at the end. */
  lemma {:induction false} ShiftUnique<K(!new), V>(t: Slots<K, V>, h: K -> nat, key: K,
                                                      cyclic: bool, start: int, i: nat, gap: int)
    requires Scanning(t, h, start, i, gap) && KeyOnlyAt(t, key, gap) && UniqueExcept(t, gap)
    ensures UniqueKeys(ShiftFrom(t, h, key, cyclic, start, i, gap))
    decreases |t| - i
  {
    if i < |t| {
      var c := Pos(start, i, |t|);
      DistPos(start, i, |t|);
      if t[c].Some? && t[c].value.key != key && ShouldMove(cyclic, h(t[c].value.key), gap, c, |t|) {
        assert ShiftFrom(t, h, key, cyclic, start, i, gap) == ShiftFrom(t[gap := t[c]], h, key, cyclic, start, i + 1, c);
        ShiftUnique(t[gap := t[c]], h, key, cyclic, start, i + 1, c);
      } else if t[c].Some? && t[c].value.key != key {
        assert ShiftFrom(t, h, key, cyclic, start, i, gap) == ShiftFrom(t, h, key, cyclic, start, i + 1, gap);
        ShiftUnique(t, h, key, cyclic, start, i + 1, gap);
      }
    }
  }

  /** Invariant of the loop: the gap is occupied (by the key or by a copy of a moved entry),
      so no empty slot is ever filled and only the final gap is emptied. */
  lemma {:induction false} ShiftKeepsEmpties<K(!new), V>(t: Slots<K, V>, h: K -> nat, key: K,
                                                            cyclic: bool, start: int, i: nat, gap: int)
    requires Scanning(t, h, start, i, gap) && t[gap].Some?
    ensures var r := ShiftFrom(t, h, key, cyclic, start, i, gap);
      forall s :: 0 <= s < |t| && t[s].None? ==> r[s].None?
    decreases |t| - i
  {
    if i < |t| {
      var c := Pos(start, i, |t|);
      DistPos(start, i, |t|);
      if t[c].Some? && t[c].value.key == key {
        assert ShiftFrom(t, h, key, cyclic, start, i, gap) == ShiftFrom(t, h, key, cyclic, start, i + 1, c);
        ShiftKeepsEmpties(t, h, key, cyclic, start, i + 1, c);
      } else if t[c].Some? && ShouldMove(cyclic, h(t[c].value.key), gap, c, |t|) {
        var t' := t[gap := t[c]];
        assert ShiftFrom(t, h, key, cyclic, start, i, gap) == ShiftFrom(t', h, key, cyclic, start, i + 1, c);
        assert forall s :: 0 <= s < |t| && t[s].None? ==> t'[s].None?;
        ShiftKeepsEmpties(t', h, key, cyclic, start, i + 1, c);
      } else if t[c].Some? {
        assert ShiftFrom(t, h, key, cyclic, start, i, gap) == ShiftFrom(t, h, key, cyclic, start, i + 1, gap);
        ShiftKeepsEmpties(t, h, key, cyclic, start, i + 1, gap);
      } else {
        assert ShiftFrom(t, h, key, cyclic, start, i, gap) == t[gap := None];
      }
    } else {
      assert ShiftFrom(t, h, key, cyclic, start, i, gap) == t[gap := None];
    }
  }

  // ---------------------------------------------------------------------------------------
  // What the walk leaves untouched

  /** `r` and `t` agree on the slots probed before step `i`, except `gap`. */
  ghost predicate AgreeBehind<K, V>(r: Slots<K, V>, t: Slots<K, V>, start: int, i: nat, gap: int)
    requires |r| == |t| && 0 <= start < |t|
  {
    forall s :: 0 <= s < |t| && s != gap && Dist(start, s, |t|) < i ==> r[s] == t[s]
  }

  /** `r` and `t` agree on the slots at probe step `e` and beyond. */
  ghost predicate AgreeBeyond<K, V>(r: Slots<K, V>, t: Slots<K, V>, start: int, e: nat)
    requires |r| == |t| && 0 <= start < |t|
  {
    forall s :: 0 <= s < |t| && e <= Dist(start, s, |t|) ==> r[s] == t[s]
  }

  /** The walk does not write the slots it has already passed, except the gap. */
  lemma {:induction false} ShiftFrameBehind<K(!new), V>(t: Slots<K, V>, h: K -> nat, key: K,
                                                       cyclic: bool, start: int, i: nat, gap: int)
    requires Scanning(t, h, start, i, gap)
    ensures AgreeBehind(ShiftFrom(t, h, key, cyclic, start, i, gap), t, start, i, gap)
    decreases |t| - i
  {
    if i < |t| {
      var c := Pos(start, i, |t|);
      DistPos(start, i, |t|);
      if t[c].None? {
        assert ShiftFrom(t, h, key, cyclic, start, i, gap) == t[gap := None];
      } else if t[c].value.key == key {
        assert ShiftFrom(t, h, key, cyclic, start, i, gap) == ShiftFrom(t, h, key, cyclic, start, i + 1, c);
        ShiftFrameBehind(t, h, key, cyclic, start, i + 1, c);
      } else if ShouldMove(cyclic, h(t[c].value.key), gap, c, |t|) {
        assert ShiftFrom(t, h, key, cyclic, start, i, gap) == ShiftFrom(t[gap := t[c]], h, key, cyclic, start, i + 1, c);
        ShiftFrameBehind(t[gap := t[c]], h, key, cyclic, start, i + 1, c);
      } else {
        assert ShiftFrom(t, h, key, cyclic, start, i, gap) == ShiftFrom(t, h, key, cyclic, start, i + 1, gap);
        ShiftFrameBehind(t, h, key, cyclic, start, i + 1, gap);
      }
    } else {
      assert ShiftFrom(t, h, key, cyclic, start, i, gap) == t[gap := None];
    }
  }

  /** The walk does not write the slots at or beyond an empty slot that it reaches. */
  lemma {:induction false} ShiftFrameBeyond<K(!new), V>(t: Slots<K, V>, h: K -> nat, key: K, cyclic: bool,
                                                       start: int, i: nat, gap: int, e: nat)
    requires Scanning(t, h, start, i, gap)
    requires i <= e <= |t| && (e < |t| ==> t[Pos(start, e, |t|)].None?)
    ensures AgreeBeyond(ShiftFrom(t, h, key, cyclic, start, i, gap), t, start, e)
    decreases |t| - i
  {
    if i < |t| {
      var c := Pos(start, i, |t|);
      DistPos(start, i, |t|);
      if t[c].None? {
        assert ShiftFrom(t, h, key, cyclic, start, i, gap) == t[gap := None];
      } else if t[c].value.key == key {
        assert ShiftFrom(t, h, key, cyclic, start, i, gap) == ShiftFrom(t, h, key, cyclic, start, i + 1, c);
        ShiftFrameBeyond(t, h, key, cyclic, start, i + 1, c, e);
      } else if ShouldMove(cyclic, h(t[c].value.key), gap, c, |t|) {
        var t' := t[gap := t[c]];
        assert ShiftFrom(t, h, key, cyclic, start, i, gap) == ShiftFrom(t', h, key, cyclic, start, i + 1, c);
        if e < |t| {
          DistPos(start, e, |t|);
        }
        ShiftFrameBeyond(t', h, key, cyclic, start, i + 1, c, e);
      } else {
        assert ShiftFrom(t, h, key, cyclic, start, i, gap) == ShiftFrom(t, h, key, cyclic, start, i + 1, gap);
        ShiftFrameBeyond(t, h, key, cyclic, start, i + 1, gap, e);
      }
    } else {
      assert ShiftFrom(t, h, key, cyclic, start, i, gap) == t[gap := None];
    }
  }

  // ---------------------------------------------------------------------------------------
  // Reachability: the walk keeps the probing invariant

  /** Steps between two positions add up while they stay below one full turn. */
  lemma DistAdd(a: int, x: int, y: int, n: int)
    requires 0 <= a < n && 0 <= x < n && 0 <= y < n
    requires Dist(a, x, n) + Dist(x, y, n) < n
    ensures Dist(a, y, n) == Dist(a, x, n) + Dist(x, y, n)
  {
  }

  /** A position on the path from `a` to `s` splits the steps from `a` to `s`. */
  lemma DistSplit(a: int, x: int, s: int, n: int)
    requires 0 <= a < n && 0 <= x < n && 0 <= s < n
    requires Dist(a, x, n) < Dist(a, s, n)
    ensures Dist(a, s, n) == Dist(a, x, n) + Dist(x, s, n)
  {
  }

  /** A slot probed from `a` before reaching an entry's slot `s` is occupied. */
  lemma OccupiedBefore<K, V>(t: Slots<K, V>, a: int, s: int, y: int)
    requires 0 <= a < |t| && 0 <= s < |t| && 0 <= y < |t|
    requires PathOccupied(t, a, s) && Dist(a, y, |t|) < Dist(a, s, |t|)
    ensures t[y].Some?
  {
    assert Pos(a, Dist(a, y, |t|), |t|) == y;
  }

  /** An entry whose probe path crosses the slot probed at step `xi` of a run that has an
      empty slot at step `e` sits in that run, after step `xi`: its path cannot cross the
      empty slot. */
  lemma RunPath<K, V>(t: Slots<K, V>, start: int, xi: int, e: int, a: int, s: int)
    requires 0 <= start < |t| && 0 <= xi < e < |t| && t[Pos(start, e, |t|)].None?
    requires 0 <= a < |t| && 0 <= s < |t| && t[s].Some? && PathOccupied(t, a, s)
    ensures OnPath(a, Pos(start, xi, |t|), s, |t|) ==> xi < Dist(start, s, |t|) < e
  {
    var n := |t|;
    var x, y := Pos(start, xi, n), Pos(start, e, n);
    if OnPath(a, x, s, n) {
      DistSplit(a, x, s, n);
      assert Dist(x, y, n) == e - xi;
      if Dist(x, y, n) < Dist(x, s, n) {
        DistAdd(a, x, y, n);
        OccupiedBefore(t, a, s, y);
      }
      assert y != s && x != s;
      assert 0 < Dist(x, s, n) < e - xi;
      DistAdd(start, x, s, n);
    }
  }

  /** Every entry whose probe path crosses the gap sits at probe step `i` or later. */
  ghost predicate BlockedOnlyAhead<K(!new), V>(t: Slots<K, V>, h: K -> nat, start: int, i: nat, gap: int)
    requires HashInRange(h, |t|) && 0 <= start < |t| && 0 <= gap < |t|
  {
    forall s :: 0 <= s < |t| && s != gap && t[s].Some? && OnPath(h(t[s].value.key), gap, s, |t|)
      ==> i <= Dist(start, s, |t|)
  }

  /** Making the slot at step `i` the gap: only entries after it can have crossed it. */
  lemma NewGapBlockedAhead<K(!new), V>(t: Slots<K, V>, h: K -> nat, start: int, i: nat, e: int)
    requires HashInRange(h, |t|) && ProbeInvariant(t, h)
    requires 0 <= start < |t| && i < e < |t| && t[Pos(start, e, |t|)].None?
    ensures BlockedOnlyAhead(t, h, start, i + 1, Pos(start, i, |t|))
  {
    forall s | 0 <= s < |t| && t[s].Some?
      ensures OnPath(h(t[s].value.key), Pos(start, i, |t|), s, |t|) ==> i < Dist(start, s, |t|)
    {
      RunPath(t, start, i, e, h(t[s].value.key), s);
    }
  }

  /** Emptying the gap once the run has ended keeps the probing invariant. */
  lemma ClearGapKeepsInvariant<K(!new), V>(t: Slots<K, V>, h: K -> nat, start: int, i: nat, gap: int)
    requires Scanning(t, h, start, i, gap) && ProbeInvariant(t, h)
    requires BlockedOnlyAhead(t, h, start, i, gap)
    requires i == |t| || t[Pos(start, i, |t|)].None?
    ensures ProbeInvariant(t[gap := None], h)
  {
    var n := |t|;
    var t' := t[gap := None];
    forall s | 0 <= s < n && t'[s].Some?
      ensures PathOccupied(t', h(t'[s].value.key), s)
    {
      var a := h(t[s].value.key);
      if i < n {
        RunPath(t, start, Dist(start, gap, n), i, a, s);
      }
      assert !OnPath(a, gap, s, n);
      forall j | 0 <= j < Dist(a, s, n)
        ensures t'[Pos(a, j, n)].Some?
      {
        DistPos(a, j, n);
      }
    }
  }

  /** Moving an entry back into a gap on its own probe path keeps the probing invariant. */
  lemma MoveKeepsInvariant<K(!new), V>(t: Slots<K, V>, h: K -> nat, gap: int, c: int)
    requires HashInRange(h, |t|) && ProbeInvariant(t, h)
    requires 0 <= gap < |t| && 0 <= c < |t| && t[gap].Some? && t[c].Some?
    requires OnPath(h(t[c].value.key), gap, c, |t|)
    ensures ProbeInvariant(t[gap := t[c]], h)
  {
    var n := |t|;
    var t' := t[gap := t[c]];
    forall s | 0 <= s < n && t'[s].Some?
      ensures PathOccupied(t', h(t'[s].value.key), s)
    {
      var a := h(t'[s].value.key);
      forall j | 0 <= j < Dist(a, s, n)
        ensures t'[Pos(a, j, n)].Some?
      {
        if s == gap {
          assert t[Pos(a, j, n)].Some?;
        } else {
          assert t[Pos(a, j, n)].Some?;
        }
      }
    }
  }

  /** The move test of either variant admits exactly the entries whose path crosses the gap,
      provided the literal test is only used on a run that does not wrap. */
  lemma MoveTestIsOnPath(cyclic: bool, ideal: int, start: int, gd: nat, i: nat, e: nat, n: int)
    requires 0 <= ideal < n && 0 <= start < n && gd < i < e < n
    requires cyclic || start + e <= n
    ensures ShouldMove(cyclic, ideal, Pos(start, gd, n), Pos(start, i, n), n)
        <==> OnPath(ideal, Pos(start, gd, n), Pos(start, i, n), n)
  {
    if !cyclic {
      LiteralAgreesWithoutWrap(ideal, Pos(start, gd, n), Pos(start, i, n), n);
    }
  }

  /** A move step: the table with the entry copied into the gap, and the slot it came from
      as the new gap, again satisfies the requirements of `ShiftReach`. */
  lemma ReachMoveStep<K(!new), V>(t: Slots<K, V>, h: K -> nat, cyclic: bool,
                                 start: int, i: nat, gap: int, e: nat)
    requires Scanning(t, h, start, i, gap) && t[gap].Some? && ProbeInvariant(t, h)
    requires i < e < |t| && t[Pos(start, e, |t|)].None?
    requires t[Pos(start, i, |t|)].Some?
    requires OnPath(h(t[Pos(start, i, |t|)].value.key), gap, Pos(start, i, |t|), |t|)
    ensures var t' := t[gap := t[Pos(start, i, |t|)]];
      && ProbeInvariant(t', h) && t'[Pos(start, e, |t|)].None?
      && BlockedOnlyAhead(t', h, start, i + 1, Pos(start, i, |t|))
  {
    var n := |t|;
    var c := Pos(start, i, n);
    var t' := t[gap := t[c]];
    MoveKeepsInvariant(t, h, gap, c);
    DistPos(start, e, n);
    DistPos(start, i, n);
    assert t'[Pos(start, e, n)].None?;
    NewGapBlockedAhead(t', h, start, i, e);
  }

  /** A step that moves nothing: the entry probed at step `i` does not cross the gap. */
  lemma ReachKeepStep<K(!new), V>(t: Slots<K, V>, h: K -> nat, start: int, i: nat, gap: int)
    requires Scanning(t, h, start, i, gap) && i < |t| && t[Pos(start, i, |t|)].Some?
    requires BlockedOnlyAhead(t, h, start, i, gap)
    requires !OnPath(h(t[Pos(start, i, |t|)].value.key), gap, Pos(start, i, |t|), |t|)
    ensures BlockedOnlyAhead(t, h, start, i + 1, gap)
  {
    var n := |t|;
    forall s | 0 <= s < n && s != gap && t[s].Some? && OnPath(h(t[s].value.key), gap, s, n)
      ensures i + 1 <= Dist(start, s, n)
    {
      assert Pos(start, Dist(start, s, n), n) == s;
    }
  }

  /** Invariant of the loop for reachability: the probing invariant holds of the table with
      the gap still occupied, and only entries not yet probed may have a path across the
      gap. It yields the probing invariant of the final table. */
  lemma {:induction false} ShiftReach<K(!new), V>(t: Slots<K, V>, h: K -> nat, key: K, cyclic: bool,
                                                 start: int, i: nat, gap: int, e: nat)
    requires Scanning(t, h, start, i, gap) && t[gap].Some? && ProbeInvariant(t, h)
    requires i <= e < |t| && t[Pos(start, e, |t|)].None?
    requires cyclic || start + e <= |t|
    requires BlockedOnlyAhead(t, h, start, i, gap)
    ensures ProbeInvariant(ShiftFrom(t, h, key, cyclic, start, i, gap), h)
    decreases |t| - i
  {
    var n := |t|;
    var c := Pos(start, i, n);
    DistPos(start, i, n);
    if t[c].None? {
      assert ShiftFrom(t, h, key, cyclic, start, i, gap) == t[gap := None];
      ClearGapKeepsInvariant(t, h, start, i, gap);
    } else if t[c].value.key == key {
      assert ShiftFrom(t, h, key, cyclic, start, i, gap) == ShiftFrom(t, h, key, cyclic, start, i + 1, c);
      assert ProbeInvariant(ShiftFrom(t, h, key, cyclic, start, i + 1, c), h) by {
        NewGapBlockedAhead(t, h, start, i, e);
        ShiftReach(t, h, key, cyclic, start, i + 1, c, e);
      }
    } else {
      var ideal := h(t[c].value.key);
      MoveTestIsOnPath(cyclic, ideal, start, Dist(start, gap, n), i, e, n);
      if ShouldMove(cyclic, ideal, gap, c, n) {
        var t' := t[gap := t[c]];
        assert ShiftFrom(t, h, key, cyclic, start, i, gap) == ShiftFrom(t', h, key, cyclic, start, i + 1, c);
        assert ProbeInvariant(ShiftFrom(t', h, key, cyclic, start, i + 1, c), h) by {
          ReachMoveStep(t, h, cyclic, start, i, gap, e);
          ShiftReach(t', h, key, cyclic, start, i + 1, c, e);
        }
      } else {
        assert ShiftFrom(t, h, key, cyclic, start, i, gap) == ShiftFrom(t, h, key, cyclic, start, i + 1, gap);
        assert ProbeInvariant(ShiftFrom(t, h, key, cyclic, start, i + 1, gap), h) by {
          ReachKeepStep(t, h, start, i, gap);
          ShiftReach(t, h, key, cyclic, start, i + 1, gap, e);
        }
      }
    }
  }

  // ---------------------------------------------------------------------------------------
  // The removal as a whole

  /** Removing an absent key leaves the table as it was. */
  lemma RemovedAbsent<K(!new), V>(t: Slots<K, V>, h: K -> nat, key: K, cyclic: bool)
    requires HashInRange(h, |t|) && |t| > 0
    requires forall s :: 0 <= s < |t| && t[s].Some? ==> t[s].value.key != key
    ensures Removed(t, h, key, cyclic) == t
  {
  }

  /** Exactly one association leaves the table, the one `find` located, and its slot
      becomes empty: the other associations are all still present, each once. */
  lemma RemovedMultiset<K(!new), V>(t: Slots<K, V>, h: K -> nat, key: K, cyclic: bool)
    requires HashInRange(h, |t|) && |t| > 0 && UniqueKeys(t)
    ensures var f := Find(t, h, key);
      f != -1 ==> multiset(Removed(t, h, key, cyclic)) == multiset(t) - multiset{t[f]} + multiset{None}
  {
    var f := Find(t, h, key);
    if f != -1 {
      RemovedFromGap(t, h, key, cyclic);
      ShiftMultiset(t, h, key, cyclic, h(key), Dist(h(key), f, |t|) + 1, f);
      assert multiset(t[f := None]) == multiset(t) - multiset{t[f]} + multiset{None};
    }
  }

  /** After the removal `find` reports the key absent. No slot holds it any more when `find`
      located it before, or when the probing invariant held (so that no slot held it). */
  lemma RemovedKeyAbsent<K(!new), V>(t: Slots<K, V>, h: K -> nat, key: K, cyclic: bool)
    requires HashInRange(h, |t|) && |t| > 0 && UniqueKeys(t)
    ensures Find(Removed(t, h, key, cyclic), h, key) == -1
    ensures (Find(t, h, key) != -1 || ProbeInvariant(t, h)) ==>
      forall s :: 0 <= s < |t| && Removed(t, h, key, cyclic)[s].Some? ==>
        Removed(t, h, key, cyclic)[s].value.key != key
  {
    if Find(t, h, key) != -1 {
      RemovedFromGap(t, h, key, cyclic);
      GapKeyAbsent(t, h, key, cyclic);
    } else if ProbeInvariant(t, h) {
      FindsEverySlot(t, h);
    }
  }

  /** The walk that starts with the gap at the slot `find` located leaves no slot holding
      the key. */
  lemma GapKeyAbsent<K(!new), V>(t: Slots<K, V>, h: K -> nat, key: K, cyclic: bool)
    requires HashInRange(h, |t|) && |t| > 0 && UniqueKeys(t) && Find(t, h, key) != -1
    ensures var start, f := h(key), Find(t, h, key);
      KeyOnlyAt(ShiftFrom(t, h, key, cyclic, start, Dist(start, f, |t|) + 1, f), key, -1)
  {
    var start, f := h(key), Find(t, h, key);
    DistPos(start, Dist(start, f, |t|), |t|);
    ShiftKeyAbsent(t, h, key, cyclic, start, Dist(start, f, |t|) + 1, f);
  }

  /** Keys stay unique. */
  lemma RemovedUnique<K(!new), V>(t: Slots<K, V>, h: K -> nat, key: K, cyclic: bool)
    requires HashInRange(h, |t|) && |t| > 0 && UniqueKeys(t)
    ensures UniqueKeys(Removed(t, h, key, cyclic))
  {
    var f := Find(t, h, key);
    if f != -1 {
      RemovedFromGap(t, h, key, cyclic);
      ShiftUnique(t, h, key, cyclic, h(key), Dist(h(key), f, |t|) + 1, f);
    }
  }

  /** No empty slot is filled: the removal only ever empties one slot. */
  lemma RemovedKeepsEmpties<K(!new), V>(t: Slots<K, V>, h: K -> nat, key: K, cyclic: bool)
    requires HashInRange(h, |t|) && |t| > 0
    ensures forall s :: 0 <= s < |t| && t[s].None? ==> Removed(t, h, key, cyclic)[s].None?
  {
    var f := Find(t, h, key);
    if f != -1 {
      RemovedFromGap(t, h, key, cyclic);
      ShiftKeepsEmpties(t, h, key, cyclic, h(key), Dist(h(key), f, |t|) + 1, f);
    }
  }

  /** Only the slots from the key's slot to the end of its probe run can change. */
  lemma RemovedFrame<K(!new), V>(t: Slots<K, V>, h: K -> nat, key: K, cyclic: bool)
    requires HashInRange(h, |t|) && |t| > 0
    ensures var f := Find(t, h, key);
      f != -1 ==>
        forall s :: 0 <= s < |t| &&
          !(Dist(h(key), f, |t|) <= Dist(h(key), s, |t|) < RunLength(t, h(key), 0))
          ==> Removed(t, h, key, cyclic)[s] == t[s]
  {
    var f := Find(t, h, key);
    if f != -1 {
      var start, d, e := h(key), Dist(h(key), f, |t|), RunLength(t, h(key), 0);
      RemovedFromGap(t, h, key, cyclic);
      ShiftFrameBehind(t, h, key, cyclic, start, d + 1, f);
      ShiftFrameBeyond(t, h, key, cyclic, start, d + 1, f, e);
    }
  }

  /** A table with an empty slot ends every probe run before a full turn. */
  lemma RunEndsAtEmpty<K, V>(t: Slots<K, V>, start: int)
    requires 0 <= start < |t| && None in t
    ensures RunLength(t, start, 0) < |t|
  {
    var s :| 0 <= s < |t| && t[s] == None;
    assert Pos(start, Dist(start, s, |t|), |t|) == s;
  }

  /** The slot `find` located, taken as the first gap, meets the requirements of
      `ShiftReach` from the next probe step up to the end of the key's run. */
  lemma GapReady<K(!new), V>(t: Slots<K, V>, h: K -> nat, key: K)
    requires HashInRange(h, |t|) && ProbeInvariant(t, h) && None in t
    requires Find(t, h, key) != -1
    ensures var start, f := h(key), Find(t, h, key);
      var d, e := Dist(start, f, |t|), RunLength(t, start, 0);
      && Scanning(t, h, start, d + 1, f) && t[f].Some? && ProbeInvariant(t, h)
      && d + 1 <= e < |t| && t[Pos(start, e, |t|)].None?
      && BlockedOnlyAhead(t, h, start, d + 1, f)
  {
    var start, f := h(key), Find(t, h, key);
    var d, e := Dist(start, f, |t|), RunLength(t, start, 0);
    RunEndsAtEmpty(t, start);
    NewGapBlockedAhead(t, h, start, d, e);
  }

  /** The walk that starts with the gap at the slot `find` located keeps the probing
      invariant, under the conditions of `RemovedProbeInvariant`. */
  lemma GapReach<K(!new), V>(t: Slots<K, V>, h: K -> nat, key: K, cyclic: bool)
    requires HashInRange(h, |t|) && ProbeInvariant(t, h) && None in t
    requires cyclic || h(key) + RunLength(t, h(key), 0) <= |t|
    requires Find(t, h, key) != -1
    ensures var start, f := h(key), Find(t, h, key);
      ProbeInvariant(ShiftFrom(t, h, key, cyclic, start, Dist(start, f, |t|) + 1, f), h)
  {
    var start, f := h(key), Find(t, h, key);
    GapReady(t, h, key);
    ShiftReach(t, h, key, cyclic, start, Dist(start, f, |t|) + 1, f, RunLength(t, start, 0));
  }

  /** The removal keeps the probing invariant when the table has an empty slot and the move
      test is the cyclic one, or the key's run does not wrap past the last slot. */
  lemma RemovedProbeInvariant<K(!new), V>(t: Slots<K, V>, h: K -> nat, key: K, cyclic: bool)
    requires HashInRange(h, |t|) && ProbeInvariant(t, h) && UniqueKeys(t) && None in t
    requires cyclic || h(key) + RunLength(t, h(key), 0) <= |t|
    ensures ProbeInvariant(Removed(t, h, key, cyclic), h)
  {
    if Find(t, h, key) != -1 {
      RemovedFromGap(t, h, key, cyclic);
      GapReach(t, h, key, cyclic);
    }
  }

  /** Every association other than the removed key's is still stored after the removal. */
  lemma RemovedKeepsOthers<K(!new), V>(t: Slots<K, V>, h: K -> nat, key: K, cyclic: bool)
    requires HashInRange(h, |t|) && |t| > 0 && UniqueKeys(t)
    ensures forall s :: 0 <= s < |t| && t[s].Some? && t[s].value.key != key ==>
      t[s] in Removed(t, h, key, cyclic)
  {
    var f := Find(t, h, key);
    RemovedMultiset(t, h, key, cyclic);
    forall s | 0 <= s < |t| && t[s].Some? && t[s].value.key != key
      ensures t[s] in multiset(Removed(t, h, key, cyclic))
    {
      if f != -1 {
        assert t[s] != t[f];
      }
    }
  }

  /** The removal keeps the table searchable: under the same conditions every remaining
      association is found by `find` at its slot, and every association other than the
      removed one is still found, with its value. */
  lemma RemovedKeepsKeysReachable<K(!new), V>(t: Slots<K, V>, h: K -> nat, key: K, cyclic: bool)
    requires HashInRange(h, |t|) && ProbeInvariant(t, h) && UniqueKeys(t) && None in t
    requires cyclic || h(key) + RunLength(t, h(key), 0) <= |t|
    ensures var r := Removed(t, h, key, cyclic);
      && (forall s :: 0 <= s < |r| && r[s].Some? ==> Find(r, h, r[s].value.key) == s)
      && (forall s :: 0 <= s < |t| && t[s].Some? && t[s].value.key != key ==>
            Find(r, h, t[s].value.key) != -1 && r[Find(r, h, t[s].value.key)] == t[s])
  {
    var r := Removed(t, h, key, cyclic);
    RemovedUnique(t, h, key, cyclic);
    RemovedProbeInvariant(t, h, key, cyclic);
    RemovedKeepsOthers(t, h, key, cyclic);
    FindsEverySlot(r, h);
    forall s | 0 <= s < |t| && t[s].Some? && t[s].value.key != key
      ensures Find(r, h, t[s].value.key) != -1 && r[Find(r, h, t[s].value.key)] == t[s]
    {
      FindsStored(r, h, t[s].value);
    }
  }
}

/** `findMaskAndGreatestKey`: the least mask `2^b - 1`, `b` from 6 on, under which the
    keys' hash codes are pairwise distinct, and the greatest masked code under it. */
module MaskSearch {
  import opened Arithmetic

  function Pow2(b: nat): (r: nat)
    ensures r >= 1
  {
    if b == 0 then 1 else 2 * Pow2(b - 1)
  }

  /** `code & (2^b - 1)`: the low `b` bits of the two's-complement code, which is the
      Euclidean remainder of the code modulo `2^b`, also for negative codes. */
  function Masked(code: int, b: nat): (r: int)
    ensures 0 <= r < Pow2(b)
  {
    code % Pow2(b)
  }

  /** No two keys (at different positions) have the same masked code. */
  ghost predicate DistinctUnder<K>(keys: seq<K>, hash: K -> int, b: nat)
  {
    forall i, j :: 0 <= i < j < |keys| ==> Masked(hash(keys[i]), b) != Masked(hash(keys[j]), b)
  }

  /** The masked codes of the keys. */
  ghost function Codes<K>(keys: seq<K>, hash: K -> int, b: nat): (r: set<int>)
    ensures forall c :: c in r <==> exists j :: 0 <= j < |keys| && Masked(hash(keys[j]), b) == c
  {
    set j | 0 <= j < |keys| :: Masked(hash(keys[j]), b)
  }

  /** The greatest masked code, and 0 when there are no keys, as the scan computes it. */
  ghost function GreatestMasked<K>(keys: seq<K>, hash: K -> int, b: nat): (r: int)
  {
    if keys == [] then 0
    else
      var g := GreatestMasked(keys[..|keys| - 1], hash, b);
      var c := Masked(hash(keys[|keys| - 1]), b);
      if c > g then c else g
  }

  /** The greatest masked code bounds every masked code, is at most the mask, and is the
      code of some key unless there are none. */
  lemma {:induction false} GreatestMaskedIsMax<K>(keys: seq<K>, hash: K -> int, b: nat)
    ensures forall j :: 0 <= j < |keys| ==> Masked(hash(keys[j]), b) <= GreatestMasked(keys, hash, b)
    ensures 0 <= GreatestMasked(keys, hash, b) <= Pow2(b) - 1
    ensures keys == [] ==> GreatestMasked(keys, hash, b) == 0
    ensures keys != [] ==>
      exists j :: 0 <= j < |keys| && Masked(hash(keys[j]), b) == GreatestMasked(keys, hash, b)
    decreases |keys|
  {
    if keys != [] {
      var init := keys[..|keys| - 1];
      GreatestMaskedIsMax(init, hash, b);
      assert forall j :: 0 <= j < |init| ==> init[j] == keys[j];
    }
  }

  /** Adding one key keeps the codes distinct exactly when its code is new. */
  lemma DistinctSnoc<K>(keys: seq<K>, hash: K -> int, b: nat, x: K)
    ensures DistinctUnder(keys + [x], hash, b)
        <==> DistinctUnder(keys, hash, b) && Masked(hash(x), b) !in Codes(keys, hash, b)
  {
    var s := keys + [x];
    assert forall j :: 0 <= j < |keys| ==> s[j] == keys[j];
    if DistinctUnder(s, hash, b) {
      assert Masked(hash(x), b) !in Codes(keys, hash, b) by {
        forall j | 0 <= j < |keys|
          ensures Masked(hash(keys[j]), b) != Masked(hash(x), b)
        {
          assert s[|keys|] == x;
        }
      }
    }
  }

  /** Codes that differ in their low `b` bits differ in their low `b + 1` bits: a width that
      separates the keys keeps separating them when widened, so the first width found is
      the least of all that work. */
  lemma DistinctWider<K>(keys: seq<K>, hash: K -> int, b: nat)
    requires DistinctUnder(keys, hash, b)
    ensures DistinctUnder(keys, hash, b + 1)
  {
    forall i, j | 0 <= i < j < |keys|
      ensures Masked(hash(keys[i]), b + 1) != Masked(hash(keys[j]), b + 1)
    {
      ModOfDoubleMod(hash(keys[i]), Pow2(b));
      ModOfDoubleMod(hash(keys[j]), Pow2(b));
    }
  }

  /** Pairwise distinct hash codes in `[0, 2^b)` are separated by the width `b`; for
      `b == 30`, the widest mask tried, the search then does not overflow. */
  lemma SmallCodesSeparate<K>(keys: seq<K>, hash: K -> int, b: nat)
    requires forall j :: 0 <= j < |keys| ==> 0 <= hash(keys[j]) < Pow2(b)
    requires forall i, j :: 0 <= i < j < |keys| ==> hash(keys[i]) != hash(keys[j])
    ensures DistinctUnder(keys, hash, b)
  {
    forall j | 0 <= j < |keys|
      ensures Masked(hash(keys[j]), b) == hash(keys[j])
    {
      DivModUnique(hash(keys[j]), Pow2(b), 0, hash(keys[j]));
    }
  }

  /** The outcome: the chosen mask with its width and greatest masked code, or the point
      where the next mask, `2^31 - 1`, would make the length `mask + 1` of the hits array
      overflow. */
  datatype MaskResult = MaskFound(bits: nat, mask: int, greatest: int) | MaskOverflow

  /** Tries the masks 63, 127, 255, ... in turn, recording the masked codes seen in a
      `hits` array, until one gives no double hit. */
  method FindMaskAndGreatestKey<K>(keys: seq<K>, hash: K -> int) returns (res: MaskResult)
    ensures res.MaskFound? ==>
      && 6 <= res.bits <= 30 && res.mask == Pow2(res.bits) - 1
      && DistinctUnder(keys, hash, res.bits)
      && (forall b :: 6 <= b < res.bits ==> !DistinctUnder(keys, hash, b))
      && res.greatest == GreatestMasked(keys, hash, res.bits)
    ensures res.MaskOverflow? ==> forall b :: 6 <= b <= 30 ==> !DistinctUnder(keys, hash, b)
  {
    var mask := 31;
    var bits: nat := 5; // the width of `mask`, kept alongside it
    var greatestCode := 0;
    var doubleHit := true;
    while doubleHit
      invariant 5 <= bits <= 30 && mask == Pow2(bits) - 1
      invariant forall b :: 6 <= b < bits ==> !DistinctUnder(keys, hash, b)
      invariant bits == 5 ==> doubleHit
      invariant doubleHit ==> bits == 5 || !DistinctUnder(keys, hash, bits)
      invariant !doubleHit ==>
        DistinctUnder(keys, hash, bits) && greatestCode == GreatestMasked(keys, hash, bits)
      decreases 30 - bits
    {
      if bits == 30 {
        // the next mask is 2^31 - 1, and `new boolean[mask + 1]` overflows
        return MaskOverflow;
      }
      mask := mask * 2 + 1;
      bits := bits + 1;
      doubleHit, greatestCode := ScanCodes(keys, hash, bits, mask);
    }
    return MaskFound(bits, mask, greatestCode);
  }

  /** One round of the search: scan the keys under `mask`, recording in `hits` the masked
      codes seen so far; report whether some code was hit twice, and the greatest code. */
  method ScanCodes<K>(keys: seq<K>, hash: K -> int, bits: nat, mask: int)
    returns (doubleHit: bool, greatestCode: int)
    requires mask == Pow2(bits) - 1
    ensures doubleHit <==> !DistinctUnder(keys, hash, bits)
    ensures greatestCode == GreatestMasked(keys, hash, bits)
  {
    doubleHit := false;
    var hits := new bool[mask + 1](_ => false);
    greatestCode := 0;
    for idx := 0 to |keys|
      invariant hits.Length == Pow2(bits)
      invariant forall c :: 0 <= c < hits.Length ==> (hits[c] <==> c in Codes(keys[..idx], hash, bits))
      invariant doubleHit <==> !DistinctUnder(keys[..idx], hash, bits)
      invariant greatestCode == GreatestMasked(keys[..idx], hash, bits)
    {
      var code := hash(keys[idx]) % (mask + 1);
      assert code == Masked(hash(keys[idx]), bits);
      ScanStep(keys, hash, bits, idx);
      ghost var seen := hits[..];
      if code > greatestCode {
        greatestCode := code;
      }
      if hits[code] {
        doubleHit := true;
      } else {
        hits[code] := true;
      }
      forall c | 0 <= c < hits.Length
        ensures hits[c] <==> c in Codes(keys[..idx + 1], hash, bits)
      {
        assert hits[c] <==> seen[c] || c == code;
      }
    }
    assert keys[..|keys|] == keys;
  }

  /** What one more key adds to the prefix scanned so far: its masked code, a double hit
      when that code was seen before, and possibly a new greatest code. */
  lemma ScanStep<K>(keys: seq<K>, hash: K -> int, bits: nat, idx: nat)
    requires idx < |keys|
    ensures var c := Masked(hash(keys[idx]), bits);
      && Codes(keys[..idx + 1], hash, bits) == Codes(keys[..idx], hash, bits) + {c}
      && (DistinctUnder(keys[..idx + 1], hash, bits)
          <==> DistinctUnder(keys[..idx], hash, bits) && c !in Codes(keys[..idx], hash, bits))
      && GreatestMasked(keys[..idx + 1], hash, bits)
         == if c > GreatestMasked(keys[..idx], hash, bits) then c else GreatestMasked(keys[..idx], hash, bits)
  {
    var c := Masked(hash(keys[idx]), bits);
    assert keys[..idx + 1] == keys[..idx] + [keys[idx]];
    DistinctSnoc(keys[..idx], hash, bits, keys[idx]);
    assert keys[..idx + 1][..idx] == keys[..idx];
    var before, after := Codes(keys[..idx], hash, bits), Codes(keys[..idx + 1], hash, bits);
    forall x
      ensures x in after <==> x in before || x == c
    {
      if x in after {
        var j :| 0 <= j < idx + 1 && Masked(hash(keys[..idx + 1][j]), bits) == x;
        if j < idx {
          assert keys[..idx][j] == keys[..idx + 1][j];
        }
      }
      if x in before {
        var j :| 0 <= j < idx && Masked(hash(keys[..idx][j]), bits) == x;
        assert keys[..idx + 1][j] == keys[..idx][j];
      }
      if x == c {
        assert keys[..idx + 1][idx] == keys[idx];
      }
    }
  }
}

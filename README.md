# Hash maps without tombstones and without collisions

This project models two array-based maps from a Java teaching repository on hash tables, and proves properties of the models in Dafny.

- **Backward-shift deletion** (`OptimizedLPOpenAddressingHashMap.remove`) removes a key from a linear-probing table without writing a "deleted" marker. It walks the probe run from the key's home slot up to the first empty slot. Along the way it keeps a `gap`, and an entry further on moves back into the gap when a test on its ideal slot allows it. At the end it clears the last gap.
- **The static two-level perfect hash map** (`PerfectHashMap`) starts from a set of keys known ahead of time. It looks for the least mask `2^b - 1` (`b >= 6`) under which the keys' hash codes are pairwise distinct. The greatest masked code of all keys is handed to the hash factory for the primary hash as it is. Each secondary map repeats the search on its own bucket and hands the factory the least prime above its bucket's greatest masked code, found by trial division, or 1 when that code is 0. A primary hash sends each key to one of `m` buckets, where `m` is the number of keys. Each bucket of `n` keys gets a *secondary map* with `n²` slots. Its hash function is redrawn until it sends the bucket's keys to pairwise different slots. Iteration goes through the secondary maps in order, and through each one in slot order.

Modules, one per part of the program:

| file | module | models |
|---|---|---|
| `wrappers.dfy` | `Wrappers` | `Option`, standing for Java's `null` |
| `probe_table.dfy` | `ProbeTable` | the inherited table, linear prober and `find` |
| `backward_shift.dfy` | `BackwardShift` | `remove`'s loop as a function on the slot sequence, with its theorems |
| `optimized_lp_map.dfy` | `OptimizedLP` | the map class; `remove` as a loop over its `table` array |
| `scenarios.dfy` | `RemovalScenarios` | concrete tables: a plain run, and the wrapped run of the finding below |
| `arithmetic.dfy` | `Arithmetic` | facts about Euclidean division |
| `primes.dfy` | `PrimeSearch` | `findGreatestPrime` |
| `mask_search.dfy` | `MaskSearch` | `findMaskAndGreatestKey` |
| `secondary_map.dfy` | `Secondary` | `SecondaryMap`, its collision check, redraw loop and iterator |
| `perfect_hash_map.dfy` | `PerfectHash` | the outer constructor, operations and iterator |

A table slot is `Option<Entry<K, V>>`, and `h: K -> nat` is the ideal-position function. Probing step `i` from slot `a` visits `(a + i) % n`. `Find` walks the run until it meets an empty slot or a matching key, or has made `n` probes.

`Removed(t, h, key, cyclic)` is the table after `remove`, with `cyclic == false` for the move test as written. `ShiftFrom` is the loop step by step, and `ProbeStep` is one pass of its body. `OptimizedLPMap.ShiftBack` runs the loop on the array and is proved equal to `ShiftFrom`.

The perfect hash map's state is abstracted into associations. `SecondaryMap.Assoc()` is the map from each bucket key whose slot holds it to the value in that slot. `PerfectHashMap.Assoc()` joins those over all buckets. An iteration is specified by the key sequence it yields, `SlotKeys()` and `AllKeys()`.

## Model

| member | source | states |
|---|---|---|
| ProbeTable.Pos | impl/OptimizedLPOpenAddressingHashMap.java:40-45 | the linear prober's step `i` from the key's ideal slot is slot `(start + i) % n`, always an index of the table |
| ProbeTable.Find | impl/OptimizedLPOpenAddressingHashMap.java:37-38 | `find` returns -1 exactly when no slot of the run from `h(key)` holds `key`; otherwise the first slot of that run that holds it |
| ProbeTable.FindLocates | impl/OptimizedLPOpenAddressingHashMap.java:40-50 | in a table whose runs are unbroken and whose keys are unique, `find` locates every stored key at its own slot |
| ProbeTable.FindsStored | impl/OptimizedLPOpenAddressingHashMap.java:37-50 | in such a table, `find` locates every stored association with its own value |
| BackwardShift.LiteralMove | impl/OptimizedLPOpenAddressingHashMap.java:62-65 | the move test with Java precedence: a move implies `gap >= 0`. When `gap < current` it accepts exactly when `ideal <= gap` or `ideal > current`; when `current < gap` it accepts exactly when `ideal <= gap` |
| BackwardShift.CyclicMove | impl/OptimizedLPOpenAddressingHashMap.java:62-65 | the evidently intended test: when the run wraps (`current < gap`) it accepts exactly when `current < ideal <= gap`, and it never moves an entry onto itself |
| BackwardShift.LiteralAgreesWithoutWrap | impl/OptimizedLPOpenAddressingHashMap.java:62-65 | when the run does not wrap (`gap < current`), the test as written and the cyclic test agree |
| BackwardShift.Removed | impl/OptimizedLPOpenAddressingHashMap.java:37-73 | the table `remove(key)` leaves: unchanged when `find` returns -1, otherwise the probe walk from the key's ideal slot. Its own contract states only that the table keeps its size; the lemmas below state what it means |
| BackwardShift.ShiftFrom | impl/OptimizedLPOpenAddressingHashMap.java:44-73 | the loop from probe step `i` with the current gap, ending by clearing the gap after the last probe or at an empty slot. Its contract states only that the table keeps its size |
| BackwardShift.ProbeStep | impl/OptimizedLPOpenAddressingHashMap.java:45-68 | one pass of the loop body: stop at an empty slot, take the key's slot as the gap, or move the entry into the gap when the test allows. Its contract states only that the table keeps its size |
| BackwardShift.ShiftBeforeKey | impl/OptimizedLPOpenAddressingHashMap.java:41-56 | while `gap == -1` no entry moves: the walk over entries before the key is the walk starting at the key with `gap` at the key |
| BackwardShift.RemovedFromGap | impl/OptimizedLPOpenAddressingHashMap.java:52-56 | removing a present key is the walk that starts just after the slot `find` locates, with the gap there |
| BackwardShift.RemovedAbsent | impl/OptimizedLPOpenAddressingHashMap.java:36-38 | when no slot holds the key, the table is left unchanged |
| BackwardShift.RemovedMultiset | impl/OptimizedLPOpenAddressingHashMap.java:66-67 | with unique keys, removal turns the located entry into one more empty slot; nothing else is lost or duplicated |
| BackwardShift.RemovedKeepsOthers | impl/OptimizedLPOpenAddressingHashMap.java:62-67 | with unique keys, every entry holding another key is still in the table after removal |
| BackwardShift.RemovedKeyAbsent | impl/OptimizedLPOpenAddressingHashMap.java:52-73 | afterwards `find` does not find the key. No slot holds it when `find` located it before, or when the table had unbroken runs |
| BackwardShift.RemovedUnique | impl/OptimizedLPOpenAddressingHashMap.java:66-67 | keys stay pairwise distinct |
| BackwardShift.RemovedKeepsEmpties | impl/OptimizedLPOpenAddressingHashMap.java:48-50 | an empty slot stays empty, so no marker is written and the table never fills up |
| BackwardShift.RemovedFrame | impl/OptimizedLPOpenAddressingHashMap.java:41-65 | only slots from the key's slot to the end of its run can change |
| BackwardShift.RunEndsAtEmpty | impl/OptimizedLPOpenAddressingHashMap.java:44-50 | with an empty slot in the table, every run ends at an empty slot before `n` probes |
| BackwardShift.RemovedProbeInvariant | impl/OptimizedLPOpenAddressingHashMap.java:62-68 | with the cyclic test, or with a run that does not wrap, every entry stays reachable from its ideal slot without crossing an empty slot |
| BackwardShift.RemovedKeepsKeysReachable | impl/OptimizedLPOpenAddressingHashMap.java:62-68 | under the same conditions, `find` locates every remaining entry at its slot, and finds every other key with its value |
| OptimizedLP.OptimizedLPMap.ShiftBack | impl/OptimizedLPOpenAddressingHashMap.java:40-73 | when the probe walk meets the key (at the step `find` locates it, as `RemoveWith` supplies), the loop over the `table` array computes exactly `ShiftFrom` |
| OptimizedLP.OptimizedLPMap.ProbeOnce | impl/OptimizedLPOpenAddressingHashMap.java:45-68 | one pass of the loop body: it stops exactly at an empty slot, keeping the gap; at the key's slot it takes that slot as the gap; at another key's slot the gap moves there exactly when the move test accepts. The new array is the old one with that entry copied into the old gap when it moved, and unchanged otherwise. The array and the new gap continue the removal walk exactly as one probe step of `ShiftFrom` does |
| OptimizedLP.OptimizedLPMap.RemoveWith | impl/OptimizedLPOpenAddressingHashMap.java:34-74 | `remove`, for either move test: leaves `Removed(old table)` in the array, with keys unique and the key not found |
| OptimizedLP.OptimizedLPMap.Remove | impl/OptimizedLPOpenAddressingHashMap.java:34-74 | `remove` as written: the new table is `Removed(old, false)`, and `find` no longer finds the key |
| OptimizedLP.OptimizedLPMap.RemoveCorrected | impl/OptimizedLPOpenAddressingHashMap.java:34-74 | `remove` with the cyclic test. It additionally keeps runs unbroken and every entry found, provided the table had an empty slot and unbroken runs before |
| RemovalScenarios.LiteralRemoveLosesWrappedEntry | impl/OptimizedLPOpenAddressingHashMap.java:62-66 | size 4, C (ideal 0) in slot 0, A (ideal 3) in slot 3. Removing A with the test as written moves C to slot 3 and `find(C)` fails; with the cyclic test C stays found in slot 0 |
| RemovalScenarios.RemoveFromRun | impl/OptimizedLPOpenAddressingHashMap.java:44-73 | removing the head of a run of three keys with one home shifts the other two back by one slot, with both tests |
| PrimeSearch.FindGreatestPrime | impl/PerfectHashMap.java:218-230 | for `index >= 1`, the least prime above `index`, although 2 is not tested again after a bump; for `index <= 0`, `index + 1` (1 for 0) |
| MaskSearch.Masked | impl/PerfectHashMap.java:331 | `hashCode & mask` for `mask = 2^b - 1` lies in `[0, 2^b)` |
| MaskSearch.GreatestMaskedIsMax | impl/PerfectHashMap.java:328-340 | the greatest masked code bounds every key's code, is attained when there are keys, is 0 without keys, and is at most the mask |
| MaskSearch.DistinctWider | impl/PerfectHashMap.java:310-339 | a width that separates the codes keeps separating them when widened |
| MaskSearch.SmallCodesSeparate | impl/PerfectHashMap.java:306-341 | pairwise distinct codes in `[0, 2^b)` are separated at width `b` |
| MaskSearch.ScanCodes | impl/PerfectHashMap.java:328-338 | the `hits` loop reports a double hit exactly when the width does not separate the codes, and yields the greatest masked code |
| MaskSearch.ScanStep | impl/PerfectHashMap.java:330-337 | one more key adds its masked code to the codes seen so far, causes a double hit exactly when that code was seen already, and raises the greatest code to its own when it is greater |
| MaskSearch.FindMaskAndGreatestKey | impl/PerfectHashMap.java:306-341 | the do-while returns the least separating width `b` from 6 on, `mask == 2^b - 1` and the greatest masked code; it overflows only when no width up to 30 separates the codes |
| Secondary.Collides | impl/PerfectHashMap.java:97-104 | reports a collision exactly when the hash function is not injective on the bucket |
| Secondary.Redraw | impl/PerfectHashMap.java:91-108 | exits with the first draw that is collision-free on the bucket, in range `n²`, and with an all-empty `keys` array |
| Secondary.SecondaryMap.constructor | impl/PerfectHashMap.java:61-109 | an empty bucket allocates nothing. Otherwise: `n²` empty slots, the least separating mask, the least prime above the bucket's greatest masked code (1 when that code is 0), and an injective hash; no associations |
| Secondary.SecondaryMap.ContainsKey | impl/PerfectHashMap.java:146-154 | true exactly when the key has an association, so a key not known ahead of time on an occupied slot is absent |
| Secondary.SecondaryMap.Get | impl/PerfectHashMap.java:133-137 | the associated value, or `null` without an association |
| Secondary.SecondaryMap.Put | impl/PerfectHashMap.java:120-124 | associates `val` with a bucket key and changes no other association |
| Secondary.SecondaryMap.Remove | impl/PerfectHashMap.java:162-165 | drops the association of the key only; without one nothing changes, so a second `remove` is a no-op |
| Secondary.SecondaryMap.KeysFromStored | impl/PerfectHashMap.java:197-206 | the keys yielded from a slot on are exactly the keys stored from there, each once |
| Secondary.SecondaryMap.SlotKeysAreTheKeys | impl/PerfectHashMap.java:170-208 | an iteration yields exactly the keys `containsKey` reports, each once |
| Secondary.SecondaryMap.SkipEmpty | impl/PerfectHashMap.java:178-179 | skipping empty slots skips no key |
| Secondary.SecondaryMap.Iterator | impl/PerfectHashMap.java:170-187 | `null` exactly when nothing is stored; otherwise a cursor that yields the slot keys in order |
| Secondary.SlotCursor.constructor | impl/PerfectHashMap.java:189-191 | a cursor on an occupied slot |
| Secondary.SlotCursor.HasNext | impl/PerfectHashMap.java:193-195 | true exactly when keys remain |
| Secondary.SlotCursor.Next | impl/PerfectHashMap.java:197-206 | yields the next key and moves to the next occupied slot |
| PerfectHash.BucketMembers | impl/PerfectHashMap.java:286-288 | bucket `b` holds exactly the keys whose primary hash is `b` |
| PerfectHash.BucketDistinct | impl/PerfectHashMap.java:290-292 | a mask that separates all keys separates each bucket's keys, so every secondary map finds its mask |
| PerfectHash.Partition | impl/PerfectHashMap.java:282-288 | `counts` has one entry per key, and entry `b` is bucket `b` in key order |
| PerfectHash.BuildSecondaries | impl/PerfectHashMap.java:290-292 | one valid, empty, separate secondary map per bucket |
| PerfectHash.BuildOne | impl/PerfectHashMap.java:292 | the secondary map built for one bucket is valid, holds that bucket, has no associations and occupies fresh memory |
| PerfectHash.BuildTable | impl/PerfectHashMap.java:276-292 | a fresh array of `keys.length` secondary maps; map `j` is valid, built on bucket `j` of the primary hash, empty, and in memory separate from the array and from the other maps |
| PerfectHash.PerfectHashMap.constructor | impl/PerfectHashMap.java:269-293 | `m = keys.length` secondary maps, map `i` built on bucket `i`, no associations. It uses the least separating mask and its greatest masked code as `p` |
| PerfectHash.PerfectHashMap.ContainsKey | impl/PerfectHashMap.java:374-376 | true exactly when the key has an association |
| PerfectHash.PerfectHashMap.Get | impl/PerfectHashMap.java:363-365 | the associated value, or `null` without an association |
| PerfectHash.PerfectHashMap.Put | impl/PerfectHashMap.java:352-354 | associates `val` with a key known ahead of time and changes no other association |
| PerfectHash.PerfectHashMap.Remove | impl/PerfectHashMap.java:384-386 | drops the association of the key and no other |
| PerfectHash.PerfectHashMap.KeysAfterStored | impl/PerfectHashMap.java:391-441 | from secondary map `i` on, the iteration yields exactly the present keys of buckets `i` and later |
| PerfectHash.PerfectHashMap.KeysAfterDistinct | impl/PerfectHashMap.java:391-441 | every key is yielded once |
| PerfectHash.PerfectHashMap.AllKeysAreTheKeys | impl/PerfectHashMap.java:391-441 | an iteration yields exactly the keys with an association, each once, bucket by bucket |
| PerfectHash.PerfectHashMap.SkipFrom | impl/PerfectHashMap.java:396-397 | stops at the first secondary map whose `iterator()` is not `null`, or at `m`, skipping no key |
| PerfectHash.PerfectHashMap.Iterator | impl/PerfectHashMap.java:391-411 | a cursor that yields `AllKeys()`; exhausted at once when no key is present |
| PerfectHash.MapCursor.constructor | impl/PerfectHashMap.java:407-411 | a cursor on a secondary map with keys left, or the exhausted cursor |
| PerfectHash.MapCursor.MoveTo | impl/PerfectHashMap.java:432-435 | points the cursor at the next secondary map's iterator, or at none |
| PerfectHash.MapCursor.HasNext | impl/PerfectHashMap.java:413-415 | true exactly when keys remain |
| PerfectHash.MapCursor.Next | impl/PerfectHashMap.java:417-439 | yields the next key; what remains is the rest of the iteration |
| PerfectHash.MapCursor.Settle | impl/PerfectHashMap.java:422-436 | after the current secondary map has yielded a key, what remains is the rest of that map followed by the later maps' keys; when the map is done, the cursor moves on |
| PerfectHash.MapCursor.Advance | impl/PerfectHashMap.java:422-436 | after the current secondary map is done, moves on without skipping a key |

## Left out

- The `OpenAddressingHashMap` base class is not part of this model. Only its table, prober and `find` have stand-ins; its put, resize and the `super(1)` capacity are left out. `OptimizedLPMap`'s constructor takes an initial table instead.
- `HashFactory.universalHashFunction` is random and not part of this model. The primary hash is a parameter, with its range bound as a precondition. The secondary draws are a parameter `draws(i, r)`, the function returned on the `r`-th call for bucket `i`. The redraw loop requires that some draw is collision-free, which stands in for a termination argument.
- `hashCode` is a function parameter and `equals` is Dafny equality. `hashCode & mask` is the Euclidean `code % 2^b`, which equals the low `b` bits in two's complement.
- Java `int` overflow (`m *= m`, `nonPrime++`) is not modelled; integers are unbounded.
- MaskSearch.FindMaskAndGreatestKey: the width stops at 30. When width 30 does not separate the codes, Java sets `mask = 2^31 - 1`, and `new boolean[mask + 1]` throws `NegativeArraySizeException` because `mask + 1` overflows. The result `MaskOverflow` stands for that exception. So the search always ends: it tries the widths 6 to 30, then throws.
- PerfectHash.PerfectHashMap.constructor and Secondary.SecondaryMap.constructor require a separating width of at most 30 and a collision-free draw for each bucket. Without such a width Java throws `NegativeArraySizeException` in the mask search. Without such a draw it redraws forever.
- `SecondaryMap` writes the outer map's `p` and `mask` fields as a side effect. The model keeps the secondary map's own `p` and `mask`, and the outer map's values from its own mask search.
- PerfectHash.PerfectHashMap.ContainsKey, PerfectHash.PerfectHashMap.Get and PerfectHash.PerfectHashMap.Remove require `m > 0`. With no keys Java indexes an empty `secondaries` array and fails there; the model follows the code.
- PerfectHash.PerfectHashMap.Put and Secondary.SecondaryMap.Put require a key known ahead of time, as their documentation assumes. For any other key Java may overwrite the slot of a different key.
- Keys are added to a `ListSet`, which drops duplicates; buckets here are sequences. Duplicate keys cannot occur, because equal keys have equal codes and the required mask separates all codes.
- Java's iterator loops call `iterator()` once in the loop test and again to keep the result. `SkipFrom` calls it once per secondary map, which gives the same iterators.
- `Collections.emptyIterator()` is an exhausted `MapCursor` with `current == m`. Calling `next` past the end is excluded by `HasNext()` preconditions.
- The iterators read the maps' live state, and their contracts hold while the map is not modified during an iteration. Java's behaviour under concurrent modification is not modelled.
- BackwardShift.RemovedProbeInvariant and BackwardShift.RemovedKeepsKeysReachable require an empty slot in the table. In a full table the prober stops after `n` probes, and an entry before the removed key whose run wraps can be lost even with the cyclic test.

## Findings

| source | as written | input that shows it | evidently intended | confidence | as-written member | corrected member |
|---|---|---|---|---|---|---|
| impl/OptimizedLPOpenAddressingHashMap.java:62-65 | when the run has wrapped past the end of the table (`current < gap`), the disjunct `ideal <= gap` also accepts entries with `ideal <= current`, which then move out of reach of their own ideal slot | table of size 4 with C (ideal 0) in slot 0 and A (ideal 3) in slot 3: `remove(A)` moves C to slot 3 and clears slot 0, so `find(C)` returns -1 | move exactly when the gap lies cyclically between the entry's ideal slot and its current slot: for `current < gap`, `current < ideal <= gap` | not executed | BackwardShift.LiteralMove, OptimizedLP.OptimizedLPMap.Remove, RemovalScenarios.LiteralRemoveLosesWrappedEntry | BackwardShift.CyclicMove, BackwardShift.RemovedKeepsKeysReachable, OptimizedLP.OptimizedLPMap.RemoveCorrected |

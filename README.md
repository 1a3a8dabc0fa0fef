# Open addressing without reordering, in Dafny

This project models `src/hash_table.py`, an in-memory hash table that uses open
addressing **without reordering**: once an entry is placed in a slot it is
never moved.

The table (`OpenAddressHashTable`) splits its `initial_size` slots into tiers:

- a few *uniform* tiers (`SubArray`) whose sizes halve geometrically. Each tier
  is a slot list probed by bounded double hashing.
- one *last* tier (`LastSubArray`) holding whatever slots remain. It has two
  parts:
  - part B, probed by double hashing with a budget of
    `int(log2(log2(size + 1) + 1))` attempts;
  - part C, a list of equal-size buckets filled by two-choice hashing. A new
    key goes to the candidate bucket with more empty cells, the first one on
    a tie.

Operations run in a fixed order:

- `insert` first looks for the key in every tier, in order. A stored key is
  overwritten where it lies.
- A new key is refused once the load factor reaches 0.9. Otherwise it goes to
  the first tier that has room for it.
- `search` returns the value from the first tier that holds the key.

The models take the source's own form:

- `SubArray`, `LastSubArray` and `OpenAddressHashTable` are classes whose
  methods update fields in place.
- The `for` loops with early returns are `for` loops with invariants, each
  proved against a specification function: `Region.FirstEmpty`,
  `Region.UpdateAttempt`, `Region.ScanKey`, `Region.Find`, `Buckets.KeyCell`,
  `Buckets.EmptyCell`, `Probing.EmptyCount`, `Tiers.FirstHit`.
- The hash arithmetic and the sizing formulas are functions.

The correctness argument rests on one invariant, `Region.Placed`. No entry is
ever moved or removed, so every probe slot before a key's own slot holds some
other key. This makes it sound to stop a scan at the first empty slot
(`Region.FindCorrect`). `Buckets.Bucketed` is the matching invariant for part
C. Ghost maps record what each tier holds (`Contents`) and where each key sits
(`Where`). `Table.OpenAddressHashTable.Valid` ties these maps together:

- one map per tier (`Parts`), pairwise disjoint;
- their union is the table's contents;
- `_count` is their total size;
- `10 * _count < 9 * _size + 10`, which the 0.9 gate keeps: a new key is only
  placed while `10 * _count < 9 * _size`.

Modules:

| module | file | contents |
|---|---|---|
| Wrappers | wrappers.dfy | `Option` |
| Probing | probing.dfy | hashes, slots, probe and bucket arithmetic, slot counting |
| Region | region.dfy | the scans of a probed slot list and the `Placed` invariant |
| Layout | layout.dfy | floor-log2, tier sizes, last-tier sizing |
| Buckets | buckets.dfy | the scans of part C and the `Bucketed` invariant |
| Terminal | terminal.dfy | `LastSubArray` |
| Uniform | uniform.dfy | `SubArray` |
| Tiers | tiers.dfy | the per-tier maps of the table, their union and lookup order |
| Stack | stack.dfy | the table's ownership of its tier objects |
| Table | table.dfy | `OpenAddressHashTable` |

## Model

| member | source | states |
|---|---|---|
| Probing.Probe | src/hash_table.py:23-37 | `_hash(key, attempt)` (and `_hash_b`) is a slot index in `[0, n)` for `n >= 2` |
| Probing.Step | src/hash_table.py:36 | the probe step `1 + hash(str(key)) % (n - 1)` lies in `[1, n-1]` |
| Probing.ProbeModSize | src/hash_table.py:37 | attempt `i` probes the same slot as attempt `i % n` |
| Probing.ProbePeriodic | src/hash_table.py:79-81 | the probe sequence repeats after `n` attempts, so `size` attempts cover every slot it ever visits |
| Probing.BucketPair | src/hash_table.py:122-127 | `_hash_c` gives two distinct bucket indices, both below the number of buckets |
| Probing.EmptyCount | src/hash_table.py:170-171 | the count of empty cells is at most the bucket size, and is zero exactly when every cell is occupied |
| Probing.EmptyPlusOccupied | src/hash_table.py:170-171 | empty and occupied cells together make up the whole bucket |
| Probing.OccupiedCountUpdate | src/hash_table.py:64-65 | writing one slot changes the number of occupied slots by the change at that slot |
| Probing.OccupiedCountAllEmpty | src/hash_table.py:20-21 | a freshly allocated slot list has no occupied slot, matching `_count = 0` |
| Probing.GridOccupiedUpdate | src/hash_table.py:177-180 | writing one cell of part C changes its occupied total by the change in that bucket |
| Probing.GridOccupiedAllEmpty | src/hash_table.py:113-114 | freshly allocated buckets have no occupied cell |
| Probing.GridOccupiedBound | src/hash_table.py:113 | buckets of `w` cells hold at most `w` occupied cells each |
| Probing.KeepsEntriesWrite | src/hash_table.py:56-64 | writing key `k` into a slot that is empty or holds `k` disturbs no entry of another key |
| Probing.GridKeepsEntriesWrite | src/hash_table.py:152-181 | the same for one cell of part C |
| Probing.FractionBounds | src/hash_table.py:96 | a count of at most `n` divided by `n` lies in `[0, 1]` |
| Probing.FractionBelowOne | src/hash_table.py:329 | a count below `n` divided by `n` is below 1 |
| Probing.DisjointUnionSize | src/hash_table.py:161 | two key sets with no key in common count as the sum of their sizes |
| Region.FirstEmpty | src/hash_table.py:61-67 | the placement scan returns the first attempt below `max_probes` whose slot is empty, every earlier probe slot being occupied; no result exactly when all `max_probes` probe slots are occupied |
| Region.UpdateAttempt | src/hash_table.py:52-58 | the existence scan of `SubArray.insert` returns only an attempt whose slot holds the key |
| Region.ScanKey | src/hash_table.py:141-146 | the existence scan of part B returns only an attempt whose slot holds the key; no result exactly when none of the `max_attempts` probe slots holds it |
| Region.Find | src/hash_table.py:79-86 | a value found by the bounded lookup is stored with the key in some slot |
| Region.PlacedEmpty | src/hash_table.py:19-21 | an all-empty slot list satisfies the no-reordering invariant with nothing stored |
| Region.KeyAtMostOnce | src/hash_table.py:52-66 | under the invariant, a key occupies at most one slot |
| Region.FindCorrect | src/hash_table.py:79-86 | stopping at the first empty slot is sound: under the invariant the lookup returns the stored value of a stored key, and nothing for any other key |
| Region.UpdateAttemptCorrect | src/hash_table.py:52-58 | under the invariant the existence scan finds the key exactly when it was placed within the first `max_probes` attempts, at that attempt |
| Region.ScanKeyCorrect | src/hash_table.py:141-146 | under the invariant the part-B scan finds the key exactly when it was placed within the first `max_attempts` attempts |
| Region.FirstEmptyBlocked | src/hash_table.py:61-67 | a stored key placed at attempt `m` or later has all of its first `m` probe slots occupied |
| Region.FirstEmptyBelowSize | src/hash_table.py:61-64 | the first empty probe slot is always found within `size` attempts, however large `max_probes` is |
| Region.PlacedInsertNew | src/hash_table.py:61-66 | placing a new key in its first empty probe slot keeps the invariant, with the key recorded at that attempt |
| Region.PlacedOverwrite | src/hash_table.py:56-58 | overwriting a key's value in its own slot keeps the invariant |
| Layout.Log2Floor | src/hash_table.py:241 | the result `r` is the floor of log2: `2^r <= n < 2^(r+1)` |
| Layout.Log2FloorUnique | src/hash_table.py:241 | no other exponent brackets `n` between consecutive powers of two |
| Layout.LogInvDelta | src/hash_table.py:241 | `int(log2(1/delta))` for `delta = deltaNum / deltaDen` is the `r` with `2^r <= 1/delta < 2^(r+1)` |
| Layout.MaxAttempts | src/hash_table.py:141 | `max_attempts` is at least 1 for a non-empty last tier |
| Layout.BucketSize | src/hash_table.py:111 | `_bucket_size` of a non-empty last tier is at least 2 |
| Layout.BSize | src/hash_table.py:109 | `_b_size = size // 2`: twice it is `size` or `size - 1` |
| Layout.CSize | src/hash_table.py:110 | `_c_size` is the rest of `size` after part B, and never smaller than `_b_size` |
| Layout.NumBuckets | src/hash_table.py:113 | `(c_size + bucket_size - 1) // bucket_size` is the fewest buckets that hold `c_size` cells |
| Layout.TierSizesFrom | src/hash_table.py:245-250 | the construction loop from tier `i` on creates at most `alpha - i` tiers |
| Layout.TierSizes | src/hash_table.py:245-250 | the construction loop creates at most `alpha` uniform tiers |
| Layout.TierSizesShape | src/hash_table.py:245-250 | tier `i` has `(initial_size // 2) // 2**i` slots, at least one; there are at most `alpha` tiers, and sizes strictly decrease from one tier to the next |
| Layout.TierSizesDecrease | src/hash_table.py:245-250 | any earlier uniform tier is strictly larger than any later one |
| Layout.TierSizesSum | src/hash_table.py:245-253 | the uniform tiers from tier `i` on take at most twice the size of tier `i` |
| Layout.LastSize | src/hash_table.py:253 | `last_size` is never negative: the tier sizes plus `last_size` add up to `initial_size` exactly |
| Buckets.KeyCell | src/hash_table.py:151-153 | the scan of one bucket returns the first cell holding the key; no result exactly when no cell holds it |
| Buckets.EmptyCell | src/hash_table.py:177-181 | the placement scan of a bucket returns its first empty cell; no result exactly when the bucket is full |
| Buckets.LocateKey | src/hash_table.py:149-154 | the scan of part C returns only a cell holding the key in one of its candidate buckets; no result means neither candidate holds it |
| Buckets.BucketedEmpty | src/hash_table.py:113 | all-empty buckets satisfy the two-choice invariant with nothing stored |
| Buckets.KeyCellCorrect | src/hash_table.py:150-154 | under the invariant, scanning a bucket meets the key exactly at its recorded cell |
| Buckets.LocateKeyCorrect | src/hash_table.py:205-209 | under the invariant, the scan of part C finds exactly the recorded cell of a stored key, and nothing for any other key |
| Buckets.BucketedOverwrite | src/hash_table.py:153 | overwriting a stored key's value in its own cell keeps the invariant |
| Buckets.BucketedInsert | src/hash_table.py:177-181 | writing a new key into an empty cell of one of its candidate buckets keeps the invariant, with the key recorded there |
| Buckets.ChosenBucket | src/hash_table.py:165-174 | the chosen bucket is a candidate with at least as many empty cells as either candidate, and the first candidate on a tie |
| Terminal.ConsistentUpdateB | src/hash_table.py:143-146 | overwriting a part-B key keeps the last tier consistent with the count unchanged |
| Terminal.ConsistentUpdateC | src/hash_table.py:149-154 | overwriting a part-C key keeps the last tier consistent with the count unchanged |
| Terminal.ConsistentPlaceB | src/hash_table.py:157-162 | placing a new key in its first empty part-B probe slot keeps the tier consistent, with the count up by one |
| Terminal.ConsistentPlaceC | src/hash_table.py:177-181 | placing a new key in an empty cell of a candidate bucket keeps the tier consistent, with the count up by one |
| Terminal.Inserted | src/hash_table.py:129-183 | the part B and part C that `insert` leaves: a stored key overwritten in its part-B probe slot or its part-C cell, else a new key placed as in `InsertedNew`; a successful insert keeps the number of part-B slots and of buckets |
| Terminal.InsertedKeepsEntries | src/hash_table.py:129-183 | whatever `insert` writes, every part-B slot and part-C cell that held another key holds the same entry afterwards |
| Terminal.InsertedNew | src/hash_table.py:156-183 | the placement of a new key: its first empty part-B probe slot among `max_attempts`, else the first empty cell of the chosen candidate bucket, else failure; success keeps the number of part-B slots and of buckets |
| Terminal.InsertedFails | src/hash_table.py:129-183 | `LastSubArray.insert` fails exactly when the key is stored in neither part, all `max_attempts` of its part-B probe slots are occupied and both candidate buckets are full |
| Terminal.LastSubArray.constructor | src/hash_table.py:101-114 | `_b_size = size // 2`, `_c_size` the rest, `_bucket_size = 2 * max_attempts`, `len(_c)` buckets; the tier starts empty and consistent |
| Terminal.LastSubArray.LookupSplit | src/hash_table.py:195-211 | looking a key up in the tier is looking it up in part B, else in part C |
| Terminal.LastSubArray.PosB | src/hash_table.py:116-120 | `_hash_b` is a slot index of part B |
| Terminal.LastSubArray.HashC | src/hash_table.py:122-127 | `_hash_c` gives two distinct bucket indices of part C |
| Terminal.LastSubArray.CountEmpty | src/hash_table.py:170-171 | the loop counts the empty cells of a bucket |
| Terminal.LastSubArray.ScanBucket | src/hash_table.py:151-153 | the loop over a bucket returns its first cell holding the key |
| Terminal.LastSubArray.ScanBuckets | src/hash_table.py:149-154 | the loops over both candidate buckets, in order, return the first cell holding the key |
| Terminal.LastSubArray.FirstEmptyCell | src/hash_table.py:177-181 | the loop returns the first empty cell of the chosen bucket |
| Terminal.LastSubArray.FindB | src/hash_table.py:196-202 | the part-B loop of `search` is the bounded lookup that stops at an empty slot |
| Terminal.LastSubArray.ScanB | src/hash_table.py:141-146 | the part-B loop of `insert` checks every one of the `max_attempts` probes without stopping at empty slots |
| Terminal.LastSubArray.FirstEmptyB | src/hash_table.py:157-159 | the part-B placement loop returns the first attempt whose slot is empty |
| Terminal.LastSubArray.Search | src/hash_table.py:185-211 | `search` returns the stored value of a stored key and nothing for any other key |
| Terminal.LastSubArray.UpdateB | src/hash_table.py:144-146 | overwriting in part B changes exactly that slot and that key's value, and keeps the count and part C |
| Terminal.LastSubArray.UpdateC | src/hash_table.py:152-154 | overwriting in part C changes exactly that cell and that key's value, and keeps the count and part B |
| Terminal.LastSubArray.PlaceB | src/hash_table.py:159-162 | placing in part B fills exactly that slot, records the key there and adds one to `_count` |
| Terminal.LastSubArray.PlaceC | src/hash_table.py:178-181 | placing in part C fills exactly that cell of a candidate bucket, records the key there and adds one to `_count` |
| Terminal.LastSubArray.Insert | src/hash_table.py:129-183 | the slots after `insert` are those `Inserted` describes, and success is exactly when it yields a result; on success the mapping gains `key -> value` and `_count` rises by one exactly for a new key; a stored key always succeeds; a failed insert changes nothing; no slot holding another key changes |
| Terminal.LastSubArray.InsertOutsideB | src/hash_table.py:148-183 | the same, for a key that part B does not hold |
| Terminal.LastSubArray.InsertNew | src/hash_table.py:156-183 | a new key goes to its first empty part-B probe slot, else to the first empty cell of the candidate bucket with more empty cells; on success the mapping gains the key and `_count` rises by one; a failure changes nothing |
| Terminal.LastSubArray.StoredKeyInserts | src/hash_table.py:140-154 | inserting a key the tier already holds never fails |
| Terminal.LastSubArray.CountIsSize | src/hash_table.py:161 | `_count` is the number of stored keys |
| Terminal.LastSubArray.CountWithinCapacity | src/hash_table.py:112-113 | `_count` never exceeds the slots of part B plus the cells of part C |
| Terminal.LastSubArray.LoadFactor | src/hash_table.py:213-221 | `load_factor` is the number of stored keys divided by `_size` |
| Uniform.SubArray.constructor | src/hash_table.py:12-21 | a fresh, empty table of `size` slots with `_count = 0`, consistent with nothing stored |
| Uniform.SubArray.Pos | src/hash_table.py:23-37 | `_hash` is a slot index of the tier |
| Uniform.SubArray.Search | src/hash_table.py:69-86 | `search` returns the stored value of a stored key and nothing for any other key |
| Uniform.SubArray.Insert | src/hash_table.py:39-67 | a key placed within the first `max_probes` attempts is overwritten in its slot, with `_count` unchanged; a new key goes to its first empty probe slot among those attempts, with `_count` up by one; it returns False, changing nothing, exactly when the stored key lies beyond `max_probes` or, for a new key, every one of those probe slots is occupied; on success the mapping gains `key -> value`; no slot holding another key changes |
| Uniform.SubArray.FindKey | src/hash_table.py:52-58 | the first loop of `insert` finds the key exactly when it was placed within the first `max_probes` attempts |
| Uniform.SubArray.FindEmpty | src/hash_table.py:61-66 | the second loop of `insert` returns the first attempt whose slot is empty |
| Uniform.SubArray.Overwrite | src/hash_table.py:56-58 | overwriting changes exactly the key's slot and value and keeps `_count`; no slot holding another key changes |
| Uniform.SubArray.PlaceNew | src/hash_table.py:63-66 | placing fills exactly the key's first empty probe slot, records the key there and adds one to `_count`; no slot holding another key changes |
| Uniform.SubArray.LoadFactor | src/hash_table.py:88-96 | `load_factor` is the number of stored keys divided by `_size`, a value in `[0, 1]` |
| Tiers.Apart | src/hash_table.py:271-297 | in a well-formed table a key is held by at most one tier |
| Tiers.UnionKeys | src/hash_table.py:299-319 | the table holds exactly the keys some tier holds |
| Tiers.UnionLookup | src/hash_table.py:299-319 | the table maps a key to the value held by its own tier |
| Tiers.FirstHit | src/hash_table.py:309-319 | trying the tiers in order finds nothing exactly when no tier holds the key, and otherwise a value some tier maps the key to |
| Tiers.FirstHitUnion | src/hash_table.py:309-319 | trying the tiers in order, the last tier last, finds exactly what the table holds |
| Tiers.DisjointSize | src/hash_table.py:321-329 | the entries counted tier by tier are the table's entries |
| Tiers.UpdatePart | src/hash_table.py:271-295 | writing a key into the tier that holds it, or a new key into any tier, keeps the tiers disjoint and updates the table's mapping at that key; the entry count rises by one exactly for a new key |
| Tiers.UnionUpdate | src/hash_table.py:286-295 | the table's mapping after a write to one tier, when no other tier holds the key |
| Tiers.TotalSizeUpdate | src/hash_table.py:289-294 | the entry count after a write rises by one exactly when the key is new to that tier |
| Tiers.EmptyParts | src/hash_table.py:238 | tiers holding nothing are disjoint, hold nothing together and count zero entries |
| Stack.BlankTiers | src/hash_table.py:244-250 | freshly built empty uniform tiers hold empty mappings |
| Stack.Separate | src/hash_table.py:244-250 | no two uniform tiers are the same object or share a slot array |
| Table.OpenAddressHashTable.constructor | src/hash_table.py:228-257 | `alpha = int(log2(1/delta) / 3)`; one uniform tier per size of `Layout.TierSizes`; a last tier exactly when `last_size > 0`, of that size; the table starts empty and well-formed |
| Table.OpenAddressHashTable.Search | src/hash_table.py:299-319 | `search` returns the first hit over the tiers in order, which is the stored value of a stored key and nothing for any other key |
| Table.OpenAddressHashTable.FindTier | src/hash_table.py:271-274 | the existence loop returns the first uniform tier holding the key; none when no uniform tier holds it |
| Table.OpenAddressHashTable.Locate | src/hash_table.py:271-277 | the existence check returns a tier holding the key, the last tier counted last; none when no tier holds it |
| Table.OpenAddressHashTable.Overwrite | src/hash_table.py:273-277 | updating through the tier that holds the key changes that key's value only, with `_count` unchanged; every other key's entry stays in its slot (`KeepsOthers`) |
| Table.OpenAddressHashTable.UpdateTier | src/hash_table.py:273-274 | the same for a uniform tier, every slot of every tier other than the key's own slot kept as it was |
| Table.OpenAddressHashTable.UpdateLast | src/hash_table.py:276-277 | the same for the last tier, every slot and cell other than the key's own kept as it was |
| Table.OpenAddressHashTable.TryTier | src/hash_table.py:274 | `subarray.insert` on a tier holding the key always succeeds; for a new key it succeeds exactly when a probe slot among the first `max_probes` is empty; on failure the tier is unchanged; no slot holding another key changes, in any tier |
| Table.OpenAddressHashTable.TryLast | src/hash_table.py:277 | `_last_array.insert` always succeeds on a key it holds; on failure the tier is unchanged; no slot or cell holding another key changes, in any tier |
| Table.OpenAddressHashTable.PlaceTier | src/hash_table.py:286-290 | once the gate has passed, a new key tried on a uniform tier is stored there exactly when one of its first `max_probes` probe slots is empty, and then `_count` rises by one; otherwise nothing changes; no entry of another key moves or changes |
| Table.OpenAddressHashTable.PlaceLast | src/hash_table.py:293-295 | once the gate has passed, a new key tried on the last tier is stored there exactly when `LastSubArray.insert` succeeds, and then `_count` rises by one; otherwise nothing changes; no entry of another key moves or changes |
| Table.OpenAddressHashTable.Count | src/hash_table.py:289 | counting an entry the gate let through (`10 * _count < 9 * _size` before) adds one to `_count`, keeps it equal to the number of entries and leaves the table well-formed, gate bound included |
| Table.OpenAddressHashTable.FindRoom | src/hash_table.py:285-290 | the placement loop returns the first uniform tier with an empty slot among the key's first `max_probes` probes; none when no uniform tier has one |
| Table.OpenAddressHashTable.Insert | src/hash_table.py:259-297 | a stored key is updated in place and `insert` returns True with `_count` unchanged; a new key is refused when `_count / _size >= 0.9`; otherwise it succeeds exactly when some uniform tier has an empty probe slot or the last tier accepts it, and it lands in the first tier that takes it, with `_count` up by one; a refused or failed insert changes neither the mapping nor `_count`, nor any field of the table or of its tiers. A stored key stays in the tier that held it; a new key lands in a uniform tier only when that tier had an empty probe slot, and only if no earlier uniform tier had one. In every tier each slot and cell that held another key holds the same entry afterwards (`KeepsOthers`) |
| Table.OpenAddressHashTable.InsertNew | src/hash_table.py:279-297 | the gate and placement of a new key, as in `Insert` |
| Table.OpenAddressHashTable.Place | src/hash_table.py:285-297 | once the gate has passed, a new key succeeds exactly when some uniform tier has an empty probe slot or the last tier accepts it; it lands in the first uniform tier with one, else in the last tier; `_count` rises by one; a failure changes nothing; every other key's entry stays in its slot |
| Table.OpenAddressHashTable.LoadFactor | src/hash_table.py:321-329 | `load_factor` is the number of stored keys divided by `_size`; the 0.9 gate keeps it at most 1, and below 1 once `_size >= 10` |
| Table.NewTiers | src/hash_table.py:244-250 | the construction loop builds one fresh, empty tier of `(initial_size // 2) // 2**i` slots per `i` below `alpha`, stopping at the first size below 1, and reports the slots they take |
| Table.NewStack | src/hash_table.py:243-257 | the uniform tiers, then a last tier of `initial_size` minus their sizes exactly when that is positive; all fresh, distinct and empty |
| Table.NewLast | src/hash_table.py:254-255 | a fresh last tier of `last_size` slots, owned beside the uniform tiers, which hold what they held before |
| Table.GateIsIntegral | src/hash_table.py:281-283 | `_count / _size >= 0.9` holds exactly when `10 * _count >= 9 * _size` |
| Table.SixtyFourSlotsConfigurable | src/hash_table.py:228-257 | with 64 slots and delta 0.1 the table is well-formed, with one uniform tier of 32 slots and a last tier of 32 in four buckets |
| Table.DefaultNotConfigurable | src/hash_table.py:228-257 | with the default 16 slots and delta 0.1 the last tier has 8 slots and a single bucket, so `_hash_c` divides by zero |
| Table.SmallTableCanFill | src/hash_table.py:228-257 | with 9 slots and delta 1/2 the table is well-formed, with no uniform tier and a last tier of all 9 slots: 4 in part B and 5 in part C, as two buckets of 4 cells; parts B and C have places for 4 + 2 * 4 >= 9 entries |

Several properties follow from combining contracts:

- **Round trip.** `Insert` yields `Contents() == old(Contents())[k := v]` on success, and `Search` returns the value `Contents()` maps `k` to. So a successful insert followed by a search returns the inserted value, in each tier and in the table.
- **Load factor.** Each `LoadFactor` equals the number of stored keys over `_size`, and each `Insert` states how `_count` moves. So a new key raises the load factor by exactly `1/size` and an overwrite leaves it unchanged.

## Left out

- Python's `hash(key)` and `hash(str(key))` are parameters: a `Probing.Hasher` of two arbitrary deterministic functions from keys to integers. The model holds for any such pair. Python's `%` with a positive modulus agrees with Dafny's.
- Probing.Hasher: keys are assumed to hash consistently with `==`. Both hashes are functions of the key, so keys that compare equal get the same probe step and the same second bucket. In Python, `1 == 1.0 == True` share `hash` but not `str`: the step `1 + hash(str(key)) % (n - 1)` (src/hash_table.py:36) and the second bucket (src/hash_table.py:125-126) can differ between them. Then `insert(1.0, ...)` may miss the slot holding `1` and store a second entry, which the model does not capture.
- `math.log2` and `int(...)` on floats are modelled as an exact integer floor-log2. `delta` is the fraction `deltaNum / deltaDen`. Floating-point rounding of `log2` near a power of two is not modelled.
- `load_factor` is an exact `real` division rather than a float.
- The 0.9 gate is compared on integers (`10 * count >= 9 * size`), which `Table.GateIsIntegral` proves equal to the exact comparison.
- Configurations on which the source divides by zero are preconditions, not modelled errors, because the source does not check them:
  - a `SubArray` of fewer than 2 slots;
  - a part B of fewer than 2 slots;
  - a part C of fewer than 2 buckets;
  - `initial_size` 0, which makes `load_factor` divide by zero.

  `Layout.Configurable` collects these. The default `OpenAddressHashTable(16, 0.1)` is one such configuration (see `Table.DefaultNotConfigurable`). The source has no construction-time validation, so none is modelled.
- A stored value of `None`: in the source, `search` cannot tell a `None` value from an absent key, and the table's existence check relies on `is not None`. Values here are never `None`.
- Loop structure:
  - The table's existence loop (try `search`, then `insert` on the tier that found the key) is modelled as `Locate` followed by `Overwrite`.
  - The placement loop (call `insert` on each tier in turn) is modelled as `FindRoom` followed by a single tier insert.
  - A tier's `insert` of a key it does not hold changes nothing when it fails, so both forms reach the same state and result.
- The construction loop of `__init__` is a recursion over the tier index (`Table.NewTiers`). Its effect is the same: one fresh tier per size.
- Storage:
  - `LastSubArray._b` and `_c` are fields of type `seq` that each write reassigns. In the source, `_c` is a list of bucket lists updated through the alias `bucket[i] = ...`.
  - `SubArray._table` is an `array` updated in place.
- `_delta`: the source recomputes `max_probes` from `_delta` on each insert (src/hash_table.py:272, 287). The model computes it once, as the constant `maxProbes`; this is the same value, since `_delta` never changes.
- `_c_size` is kept as a constant but otherwise plays no part, as in the source.
- Table.OpenAddressHashTable.LoadFactor: the bound below 1 is stated only for tables of at least 10 slots. A smaller table may fill every slot. `Table.SmallTableCanFill` gives a well-formed 9-slot table with places for more than 9 entries, and the gate (`10 * 8 < 9 * 9`) lets a ninth key through after eight. Whether that ninth insert finds a free place depends on the hashes, and no such insert is proved here.
- The load factor of a `LastSubArray` on its own can exceed 1 because part C is rounded up to whole buckets. `Terminal.LastSubArray.CountWithinCapacity` gives the bound that does hold.
- Statistical claims (approaching a `1 - delta` load; most inserts succeeding) are not per-operation facts and are not modelled.

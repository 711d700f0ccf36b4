# go-lookup hash table, modelled in Dafny

A model of `hashtable.go` from informatter/go-lookup. That file holds an open-addressing hash table. Keys are strings and values are arbitrary (`any`).

- **Capacity planner.** Lengths come from a curated ascending list of "primes". When the list has no answer, a fallback scan over odd numbers runs, using a trial-division test.
- **Probing.** Slots are found by double hashing over the 64-bit FNV-1a digest of the key, with a tetrahedral term added to the probe.
- **Resizing.** The table grows before an insert when its load factor is at least 0.6. It shrinks after a delete when the load factor is at most 0.12.

The project has five modules, one per concern of the source:

| file | module | what it holds |
|---|---|---|
| `fnv.dfy` | `Fnv` | `fnvHash`: FNV-1a over the bytes of the key, with 64-bit wrap-around (`bv64`). |
| `planner.dfy` | `Planner` | The length list, `pickLargestLength`, `pickSmallestLength`, `isPrime`, `computePrimeNumber` and `getPrime`. Each Go loop is a method proved equal to a function, and lemmas state what those functions return. A panic of `getPrime` is the value `PrimeNotFound`. |
| `probing.dfy` | `Probing` | `doubleHashing` as the function `Probe`. Proves that attempt `L` returns to the home slot on every length the table uses, in exact arithmetic (see "## Left out"). Defines the walk (`Path`) that `insert`, `Search` and `Delete` follow. |
| `slots.dfy` | `Slots` | The slot array as a value. `insert`, the lookup walk, the clearing done by `deleteItem`, and the re-insertion done by `resize` are functions over it, with lemmas relating them. |
| `table.dfy` | `Table` | The class `HashTable`, whose fields are updated in place by its methods. The slots are an `array`. Every method is proved to match the `Slots` functions on `slots[..]` and keeps the invariant `Valid`: the active counter is the number of slots holding a value, and `active <= occupied <= length`. |

The load factor (`computeLoadFactor`, hashtable.go:197-200) is the occupied counter divided by the length. The model compares it exactly: `NeedsGrowth` is `5 * occupied >= 3 * length` and `NeedsShrink` is `25 * occupied <= 3 * length`. `Table.LoadFactorThresholds` proves these equal to `occupied / length >= 0.6` and `occupied / length <= 0.12` in exact arithmetic.

### Where the code departs from the usual open-addressing design

In several places hashtable.go behaves differently from the usual open-addressing table with tombstones. The model follows the code.

- **No tombstones.** `deleteItem` sets the value back to nil, and keeps the key. Every check reads the value first, so the slot behaves like one never used. A walk that later reaches that slot stops there, so a key stored further along the walk is reported missing (`Slots.ClearHidesLaterKeys`).
- **Re-inserting a key adds a copy.** `insert` overwrites the value of every slot on the walk that holds the key. It keeps walking, and it stores the key again in the first empty slot it reaches. Inserting the same key twice into a fresh table therefore leaves two slots and a count of 2, not 1 (`Slots.ReinsertDuplicates`).
- **A deleted key can come back.** When a delete triggers a shrink, the rebuild re-inserts the surviving copy, and `Search` finds the deleted key again (`Slots.DeleteThenShrinkResurrects`).
- **Both thresholds read the occupied counter.** Growth and shrink both use `occupiedSlotCounter`. Only `activeSlotCounter` is decremented by a delete, so the delete that triggers a shrink is judged on the count from before it.
- **`insert` can give up silently.** When the walk returns to the home slot without finding an empty slot, `insert` stores nothing and reports nothing (`Slots.InsertFoundOrFull`). Walks can be very short. On 17 slots, every digest `h` with `h mod 16 = 7` has a walk of just two slots. Two other keys on those slots make `insert` drop the key at a load of 2/17 (`Table.ShortWalkDropsInsert`). A resize can drop a key the same way.
- **`New(40)` gives 53, not 193.** The length-193 scenario in the test suite comes from growing 53 to `getPrime(106, true)`, which is 193.
- **`isPrime` is not a primality test.** It tries odd divisors only, so 0, 1 and the even numbers with no odd divisor `d`, `3 <= d <= sqrt(n)`, pass (2, 4, 6, 8, 10, 14, ...; 18 does not, `Planner.TrialDivisionOfEvenValues`). An odd candidate that the list misses makes the fallback scan start at 0, and `isPrime(0)` holds, so the scan returns 0 and `getPrime` panics (`Planner.OddMissPanics`). Shrinking a table of 23 slots ends this way (`Planner.ShrinkFrom23Panics`).

## Model

| member | source | states |
|---|---|---|
| Fnv.FnvHash | hashtable.go:132-142 | The loop returns the FNV-1a digest of the whole key: one xor-then-multiply round per byte, in order, starting from the offset basis. |
| Fnv.Fnv1aAppend | hashtable.go:132-142 | The digest of the empty key is 14695981039346656037. Appending byte `b` to a key maps its digest `h` to `(h xor b) * 1099511628211 mod 2^64`. |
| Fnv.Fnv1aVectors | hashtable.go:132-142 | The digests of "a" and "foobar" are the published FNV-1a 64-bit values. |
| Planner.PrimesFacts | hashtable.go:15-45 | The list has 29 entries, from 17 to 1610612741. It is strictly ascending, and every entry is odd, at least 7 and not a multiple of 3. |
| Planner.SmallestListedAtLeastSpec | hashtable.go:55-62 | `pickLargestLength` returns the least listed length that is at least the candidate. It returns 0 exactly when the candidate is above 1610612741. |
| Planner.LargestListedAtMostSpec | hashtable.go:64-73 | `pickSmallestLength` returns the greatest listed length that is at most the candidate. It returns 0 exactly when the candidate is below 17. |
| Planner.SmallestListedIs | hashtable.go:55-62 | Entry `k` is the answer of `pickLargestLength` when the candidate lies above entry `k - 1` and at or below entry `k`. |
| Planner.LargestListedIs | hashtable.go:64-73 | Entry `k` is the answer of `pickSmallestLength` when the candidate lies at or above entry `k` and below entry `k + 1`. |
| Planner.PickLargestLength | hashtable.go:55-62 | The forward loop returns the first listed value at least the candidate, or 0. |
| Planner.PickSmallestLength | hashtable.go:64-73 | The backward loop returns the last listed value at most the candidate, or 0. |
| Planner.IsPrime | hashtable.go:75-87 | The loop returns true exactly when no odd `d` with `3 <= d` and `d * d <= n` divides `n`. |
| Planner.SmallValuesPass | hashtable.go:75-87 | Every `n` below 9, including 0, 1, 4 and 8, passes `isPrime`. |
| Planner.TrialDivisionOfNineAndEleven | hashtable.go:75-87 | 9 fails `isPrime` and 11 passes it. |
| Planner.TrialDivisionOfEvenValues | hashtable.go:75-87 | Only odd divisors are tried: the even 10 passes `isPrime`, and the even 18 fails at divisor 3. |
| Planner.PassingNotMultipleOfThree | hashtable.go:75-87 | A value of at least 9 that passes `isPrime` is not a multiple of 3. |
| Planner.ComputePrimeNumber | hashtable.go:89-105 | The loop starts at `candidate + 1` for an even candidate and at 0 otherwise. It steps by 2 and returns the first value below MaxUint64 that passes `isPrime`, or 0. |
| Planner.FirstPassingFromSpec | hashtable.go:89-105 | The scan from an odd `i` returns the least odd value from `i` on that passes `isPrime`. It returns 0 exactly when no odd value below MaxUint64 passes. |
| Planner.GetPrime | hashtable.go:107-129 | `getPrime` consults the list in the direction `nextSizeUp` says, then falls back to the scan. It panics (`PrimeNotFound`) when the scan returns 0. |
| Planner.PlannedFromList | hashtable.go:107-129 | When the list has an answer in the requested direction, `getPrime` returns it. |
| Planner.OddMissPanics | hashtable.go:89-129 | An odd candidate that the list misses always makes `getPrime` panic. |
| Planner.EvenMissScans | hashtable.go:89-129 | An even candidate that the list misses gets the least odd value above it that passes `isPrime`, or the panic when there is none below MaxUint64. |
| Planner.PlannedNeverZero | hashtable.go:107-129 | `getPrime` never returns 0. |
| Planner.GrowthLengthValid | hashtable.go:177-184 | When growing does not panic, it yields a valid length of at least twice the old length, below MaxUint64. |
| Planner.ShrinkLengthValid | hashtable.go:171-175 | When shrinking does not panic, it yields a valid length below MaxUint64. |
| Planner.NewLengthExamples | hashtable_test.go:19-27 | `New(5)` and `New(10)` give 17 slots; `New(40)` gives 53. |
| Planner.ListedExamples | hashtable_test.go:29-52 | `getPrime(23, true)` is 23, `getPrime(46, true)` is 53, `getPrime(106, true)` is 193 and `getPrime(26, false)` is 23. |
| Planner.ShrinkFrom23Panics | hashtable.go:171-175 | Shrinking a table of 23 slots calls `getPrime(11, false)`, which panics. |
| Planner.ShrinkFrom17FallsBack | hashtable.go:171-175 | Shrinking a table of 17 slots calls `getPrime(8, false)`. The scan skips 9 and returns 11. |
| Probing.TetraExact | hashtable.go:186-195 | The tetrahedral term `(c^3 - c) / 6` is exact: the division leaves no remainder to round away. |
| Probing.Hash2 | hashtable.go:186-195 | The second hash `1 + h mod (L - 1)` is a step between 1 and `L - 1`. |
| Probing.Probe | hashtable.go:186-195 | Every attempt lands on a slot of the table. |
| Probing.ProbeHome | hashtable.go:186-195 | Attempt 0 is the home slot `h mod L`. |
| Probing.FirstProbeMoves | hashtable.go:186-195 | Attempt 1 is never the home slot. |
| Probing.ReturnsHome | hashtable.go:186-195 | On every valid length `L`, attempt `L` is the home slot again, so every probing loop ends in exact arithmetic (the float and uint64 limits are under "## Left out"). |
| Probing.PathFrom | hashtable.go:248-263 | From attempt `c`, the probing loop visits at most `L - c` slots, all inside the table. |
| Probing.PathFromProbes | hashtable.go:248-263 | The walk from attempt `c` is attempts `c, c + 1, ...` in order, none of them home. The attempt right after the walk is home. |
| Probing.PathFromStep | hashtable.go:248-263 | Each loop iteration either finds the home slot, which ends the walk, or takes the next slot of the walk. |
| Probing.PathShape | hashtable.go:236-265 | The walk starts at `h mod L`, stays inside the table, visits at most `L` slots and moves off the home slot at least once. |
| Probing.KeyPath | hashtable.go:236-265 | The walk of a key stays inside the table. |
| Probing.KeyPathShape | hashtable.go:236-265 | `PathShape` for the digest of a key. |
| Slots.CountLive | hashtable.go:221-228 | The number of slots holding a value is at most the number of slots. |
| Slots.CountLiveUpdate | hashtable.go:221-228 | Overwriting a slot changes that number by what was removed and what was stored. |
| Slots.CountLiveEmpty | hashtable.go:159-169 | A fresh slot array holds no value. |
| Slots.Place | hashtable.go:236-265 | `insert` keeps the length of the slot array. |
| Slots.PlaceCons | hashtable.go:236-265 | One step of `insert`: an empty slot receives the entry and ends the walk. Otherwise `updateValue` runs on that slot and the walk goes on. |
| Slots.PlaceFillsIff | hashtable.go:236-265 | `insert` stores the entry in a new slot exactly when its walk reaches an empty slot. |
| Slots.PlaceCount | hashtable.go:221-265 | The number of slots holding a value grows by 1 when `insert` stores the entry in a new slot, and is unchanged otherwise. |
| Slots.PlaceEffect | hashtable.go:236-265 | `insert` never empties a slot or changes a slot's key, and never touches slots that hold other keys. Every slot it changes is on the walk and now holds the inserted entry. |
| Slots.Locate | hashtable.go:278-307 | The slot found holds a value under the searched key and lies on the walk. |
| Slots.LocateCons | hashtable.go:278-307 | One step of the lookup walk: an empty slot means not found, a slot holding the key is the answer, and any other slot is passed over. |
| Slots.LocateSpec | hashtable.go:278-307 | The first slot of the walk that is empty or holds the key decides the lookup. If no such slot exists, the key is not found. |
| Slots.LocateStable | hashtable.go:278-307 | A lookup that succeeded still succeeds on the same slot after changes that keep every value and key in place. |
| Slots.InsertThenLookup | hashtable.go:236-307 | After `insert(k, v)`, `Search(k)` returns `v` whenever the entry was stored or `k` was already found. Otherwise nothing changed. |
| Slots.InsertFoundOrFull | hashtable.go:236-307 | After `insert(k, v)`, either `Search(k)` returns `v` or every slot on the walk of `k` holds another key. |
| Slots.InsertKeepsOtherKeys | hashtable.go:236-307 | Inserting `k` leaves what `Search` finds for any other key that was found before. |
| Slots.ClearThenLookup | hashtable.go:311-359 | After `Delete(k)` clears the slot found, `Search(k)` reports "key not found" and one fewer slot holds a value. |
| Slots.ClearHidesLaterKeys | hashtable.go:311-359 | Without tombstones, a key whose walk starts at the cleared slot is reported missing, although it is still stored further along its walk. |
| Slots.RebuildPrefix | hashtable.go:202-220 | Re-inserting the old slots into a fresh array keeps the new length. |
| Slots.RebuildCount | hashtable.go:202-220 | After a resize, no more slots hold values than before. |
| Slots.RebuildProvenance | hashtable.go:202-220 | Every value after a resize is an entry, key and value, of the old table. |
| Slots.RebuildFindsKeys | hashtable.go:202-220 | When a resize keeps the number of slots holding a value, every key of the old table is found in the new one. |
| Slots.RebuildFewKeys | hashtable.go:202-220 | A table holding at most two values keeps both slots when resized, and every key it held is found afterwards. Which value is found for a key stored twice is not promised here (see `Slots.RebuildDuplicatesKeepLater`). |
| Slots.RebuildDuplicatesKeepLater | hashtable.go:202-220 | Two copies of one key with different values come out of a resize as two copies of the later value: the earlier value is lost, and `Search` returns the later one. |
| Slots.RebuildSingle | hashtable.go:202-220 | Resizing a table that holds a single value puts it on its home slot of the new table. |
| Slots.GrowthRelievesLoad | hashtable.go:267-276 | Growing to at least twice the length brings the load factor below 0.6. |
| Slots.FirstInsertIntoEmpty | hashtable_test.go:54-89 | A fresh table finds nothing. The first insert lands on the home slot, counts 1, and is found. |
| Slots.ReinsertDuplicates | hashtable_test.go:137-150 | Inserting a key twice stores it in two slots and counts 2. `Search` returns the second value. |
| Slots.TwoKeys | hashtable_test.go:152-164 | Two different keys inserted into a fresh table are both found and count 2. |
| Slots.DeleteThenShrinkResurrects | hashtable.go:311-359 | After a key is inserted twice, `Delete` makes `Search` miss it. A shrink that follows makes `Search` find it again. |
| Table.HashTable.constructor | hashtable.go:159-169 | `New(hint)` has the least listed length at least `hint`, all slots empty and both counters 0. |
| Table.HashTable.DoubleHashing | hashtable.go:186-195 | Returns attempt `c` of the probe for the key's digest. |
| Table.HashTable.ComputeNextSizeUp | hashtable.go:177-184 | Returns `getPrime(2 * length, true)`. When that is a length, it is valid and at least twice the old one. |
| Table.HashTable.ComputeNextSizeDown | hashtable.go:171-175 | Returns `getPrime(length / 2, false)`. When that is a length, it is valid. |
| Table.HashTable.InsertItem | hashtable.go:221-228 | Stores the entry in the slot and increments both counters. |
| Table.HashTable.UpdateValue | hashtable.go:230-234 | Overwrites the value only when the slot holds the same key. |
| Table.HashTable.InsertInto | hashtable.go:236-265 | The slot array becomes the result of `insert` along the key's walk. Both counters grow by 1 exactly when a new slot was filled. |
| Table.HashTable.InsertProbing | hashtable.go:248-263 | The probing loop of `insert` matches `insert` on the walk after the home slot. |
| Table.HashTable.Resize | hashtable.go:202-220 | The new slots are the old entries re-inserted in index order into `newSize` fresh slots. Both counters equal the number of slots holding a value. |
| Table.HashTable.Reinsert | hashtable.go:208-217 | The loop of `resize` builds exactly that re-insertion and counts it. |
| Table.HashTable.Grow | hashtable.go:269-274 | Succeeds exactly when `getPrime` does not panic. It then resizes to at least twice the length; otherwise it changes nothing. |
| Table.HashTable.Insert | hashtable.go:267-276 | Grows first when the load factor is at least 0.6, then inserts. Afterwards `Search(key)` returns the value, or every slot on the key's walk holds another key. |
| Table.HashTable.FindSlot | hashtable.go:278-307 | The walk shared by `Search` and `Delete` returns exactly the slot the lookup walk decides. |
| Table.HashTable.Search | hashtable.go:278-307 | Returns the value under the key, or "key not found" (`None`), as the lookup walk decides. |
| Table.HashTable.DeleteItem | hashtable.go:311-319 | Clears the slot and decrements the active counter. When the occupied counter is at most 0.12 of the length, it either shrinks to the planned length or panics, keeping the cleared table. |
| Table.HashTable.Delete | hashtable.go:321-359 | A key not found changes nothing. A found key is removed by `deleteItem`, and then `Search` misses it unless a resize happened. |
| Table.ResizeDownScenario | hashtable_test.go:111-135 | 53 slots holding 3 values lose one to `Delete`. The occupied counter of 3 is at most 0.12 of 53, so the table shrinks to 23 slots. Both remaining slots are kept, and both remaining keys are found. |
| Table.LoadFactorThresholds | hashtable.go:197-200 | `NeedsGrowth` holds exactly when `occupied / length >= 0.6` (hashtable.go:11, 270), and `NeedsShrink` exactly when `occupied / length <= 0.12` (hashtable.go:12, 315), both on the occupied counter. |
| Table.ShortWalkDropsInsert | hashtable.go:236-265 | On 17 slots, a digest `h` with `h mod 16 = 7` has the two-slot walk `[h mod 17, (h mod 17 + 8) mod 17]`. With other keys on both slots, `insert` stores nothing and the key is not found, although the load of 2/17 is below the growth threshold. |

## Left out

- Floating point:
  - The load factor is `float32` in Go; `NeedsGrowth` and `NeedsShrink` compare exactly. The two agree on tables of fewer than 2 million slots. On larger tables, a load within one float32 rounding step of 0.6 or 0.12 can fall on different sides of the threshold.
  - `isPrime` takes its limit from a `float64` square root; the model tests `d * d <= n`.
  - `doubleHashing` computes `c^3` with `math.Pow` on `float64`, and the model computes it exactly. They agree while `c^3` stays below 2^53, that is for the first 208063 attempts.
- `doubleHashing`: uint64 wrap-around of `hash1 + c * hash2 + tetrahedral` is not modelled. It cannot happen for attempts below 4 million on lengths below 2^32.
- Table.HashTable.Insert: requires `2 * length < MaxUint64`. In Go, `h.length*2` wraps for lengths of 2^63 and above, which makes the overflow check in `computeNextSizeUp` unreachable. Such a table cannot exist in memory.
- Table.HashTable.constructor: requires a hint of at most 1610612741. Above that, `New` builds a table of length 0, and its first `doubleHashing` divides by zero.
- Values are the type parameter `V`, so a nil value passed to `Insert` is not modelled. For the same reason, the check in `Delete` for a slot holding the key but a nil value is not modelled, because it can never succeed.
- Panics of `getPrime` are results (`PrimeNotFound`, `ok == false`, `Panicked`) rather than aborts. After a panic in `deleteItem`, the model keeps the cleared table, as the aborted Go program's state would be.
- Planner.GetPrime: the test value `getPrime(3221225482, true) == 3221225533` is not proved. It needs thousands of trial divisions; `Planner.EvenMissScans` states what the scan returns in general.
- `resize` can drop a key when some walk in the new table is full. `Slots.RebuildFindsKeys` proves that every key is found whenever the rebuild keeps the number of slots holding a value. That the count is kept is proved only for up to two values (`Slots.RebuildFewKeys`).
- Slots.RebuildFewKeys: promises that every key is found after the resize, not that its value is. When a key is stored twice, re-inserting the later copy overwrites the earlier one, and the earlier value is lost (`Slots.RebuildDuplicatesKeepLater`).
- The growth scenario of 35 inserts and the collision scenario both depend on concrete FNV digests of the test keys. They are modelled only through the lemmas that hold for any key.
- Also not part of this model:
  - `fnvHashLib`, which calls Go's standard library;
  - `NewKey`, `nodeKey` and `main.go`;
  - the benchmarks;
  - the diagnostic counter `debugCollistionCount`, which nothing reads.

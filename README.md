# ConcurrentMap: a verified model of mold's interning hash table

`ConcurrentMap<T>` (concurrent_map.cc) is mold's fixed-capacity, insert-only hash
table. It maps byte-string keys to values of type `T`. Three arrays indexed in
parallel hold it: `keys` (a pointer to the key bytes, `nullptr` for an empty
bucket, or the `locked` sentinel while a bucket is being filled), `sizes` (the
key length as a `u32`) and `values`. `resize` rounds the requested capacity up
to a power of two, with a floor of `MIN_NBUCKETS` = 256, and allocates
zero-filled arrays. `insert` starts at `hash & (nbuckets - 1)` and probes
linearly, wrapping around. It claims the first empty bucket or returns the
bucket that already holds an equal key. It gives up after 256 probe advances,
however large the table is.

This project models the table's behaviour for a single thread and proves that
behaviour against a specification.

- `bits.dfy` (module `Bits`): powers of two, `next_power_of_two`, bitwise AND
  on naturals and the fact that `x & (n - 1)` is `x % n` for a power of two `n`,
  and population counts.
- `probe_table.dfy` (module `ProbeTable`): the meaning of one insert on a
  sequence of abstract slots (`Empty | Published(key, value)`). It holds the
  bucket-count rule and the properties of both: the probe bound, idempotence,
  key uniqueness, the one-slot change, and the occupied count.
- `concurrent_map.dfy` (module `ConcurrentMaps`): the class `ConcurrentMap<T>`.
  It has `nbuckets` and the three arrays (`keys: array?<KeyCell>`,
  `sizes: array?<u32>`, `values: array?<T>`), plus the ghost view `Slots` and
  the ghost record `Hashes`. `Hashes` maps each stored key to the hash it was
  inserted with. `Resize` replaces the arrays with fresh ones. `Insert` runs
  the probe loop and then claims the bucket in place: `locked`, value, length,
  key.

`Valid()` says the table is either unsized (null arrays, no slots) or sized
with a power-of-two bucket count of at least 256. When sized, every key cell
is null or published (never `locked` at rest) and agrees with `Slots`.
`Consistent()` adds `WellFormed`: the probe from each stored key's recorded
hash finds that key in the bucket it occupies. `Insert` keeps `Consistent()`
whenever the caller passes the same hash for a key each time. Key uniqueness
and idempotence follow from that. The source assumes such a hash but does not
check it, so `Insert` does not require it.

The source's `insert` makes the claim inside the probe loop. The model runs
the loop in the read-only method `Find` and then calls `Claim` on the empty
bucket where the loop stopped. Single-threaded, the two are the same.

## Model

| member | source | states |
|---|---|---|
| `Bits.NextPowerOfTwo` | concurrent_map.cc:19 | `next_power_of_two(n)` is a power of two, at least `n`, and below `2n` (or 1) |
| `Bits.NextPowerOfTwoIsLeast` | concurrent_map.cc:19 | no power of two `>= n` lies below `NextPowerOfTwo(n)` |
| `Bits.MaskIsMod` | concurrent_map.cc:43 | for a power of two `n`, `x & (n - 1) == x % n`, so the masked start and the masked step `(idx + 1) & (nbuckets - 1)` are reduction modulo `nbuckets` |
| `Bits.PowerOfTwoHasOneBit` | concurrent_map.cc:42 | a power of two has population count 1, so the sanity assertion holds of every bucket count `resize` produces (read as a 64-bit count) |
| `Bits.PopCount32RejectsPowerOfTwo` | concurrent_map.cc:42 | 2^32 is a power of two whose low 32 bits have population count 0 |
| `ProbeTable.BucketCount` | concurrent_map.cc:19 | the bucket count chosen for capacity `n` is a power of two, at least 256, at least `n`, and fits an i64 |
| `ProbeTable.BucketCountIsLeast` | concurrent_map.cc:19 | that bucket count is the least power of two that is at least both 256 and `n` |
| `ProbeTable.PopCount32RejectsReachableSize` | concurrent_map.cc:19-21 | `resize(2^32)` gives exactly 2^32 buckets, whose 32-bit population count is 0 |
| `ProbeTable.EmptyTable` | concurrent_map.cc:22-24 | a freshly allocated table has `n` buckets, all empty |
| `ProbeTable.Start` | concurrent_map.cc:43 | the start bucket `hash & (nbuckets - 1)`, taken as `hash % nbuckets`, is always in bounds |
| `ProbeTable.Next` | concurrent_map.cc:67 | the next bucket `(idx + 1) & (nbuckets - 1)`, taken as `(idx + 1) % nbuckets`, wraps around and is always in bounds |
| `Bits.And` | concurrent_map.cc:43 | bitwise AND on non-negative integers, which `Find` computes for the start and step; the result is at most either operand |
| `Bits.PopCount32` | concurrent_map.cc:42 | `__builtin_popcount` of an i64 counts only its low 32 bits, so it is 0 exactly for multiples of 2^32 |
| `ConcurrentMaps.ConcurrentMap.Valid` | concurrent_map.cc:3 | between calls no key cell holds the `locked` sentinel and the bucket count is the array length |
| `ProbeTable.Probe` | concurrent_map.cc:46-68 | `Found(i)` only at a bucket holding an equal key; `Inserted(i)` only at an empty bucket; every index is below `nbuckets`; never `Unsized` |
| `ProbeTable.Insert` | concurrent_map.cc:38-73 | unsized exactly for a table with no buckets; `Found` leaves the table unchanged; `Inserted(i)` fills a previously empty bucket `i` with the key and value and changes no other bucket; `Full` changes nothing |
| `ProbeTable.ProbeStopsAtFirstNonSkip` | concurrent_map.cc:46-72 | the probe stops at the first bucket within 256 advances of the start that is empty or holds the key; it reports `Full` exactly when the first 256 buckets from the start all hold other keys |
| `ProbeTable.FullMinimalTableHasNoRoom` | concurrent_map.cc:46-72 | on a 256-bucket table, `Full` means every bucket holds some other key |
| `ProbeTable.ProbeFrame` | concurrent_map.cc:55-61 | filling an empty bucket does not change where the probe for any stored key finds it |
| `ProbeTable.ProbeFindsInserted` | concurrent_map.cc:55-61 | after a key is stored where its probe stopped, the same probe finds it there |
| `ProbeTable.InsertTwice` | concurrent_map.cc:46-68 | a second insert of the same key and hash returns `Found` of the same bucket and changes nothing, whatever value it carries; a full or unsized table stays so |
| `ProbeTable.EmptyTableWellFormed` | concurrent_map.cc:16-24 | a freshly sized table stores no key, has no occupied bucket and is well-formed with an empty hash record |
| `ProbeTable.KeysUnique` | concurrent_map.cc:46-68 | in a well-formed table no two buckets hold equal keys |
| `ProbeTable.InsertReportsMembership` | concurrent_map.cc:55-65 | with the hash a key was stored under, insert reports `Found` exactly when the key is stored; `Inserted` adds exactly that key to the stored keys |
| `ProbeTable.InsertKeepsWellFormed` | concurrent_map.cc:46-68 | insert with a consistent hash keeps the table well-formed, recording the new key's hash |
| `ProbeTable.InsertOccupied` | concurrent_map.cc:55-61 | the number of occupied buckets grows by exactly one on `Inserted` and is unchanged otherwise |
| `ProbeTable.InsertIntoEmptyTable` | concurrent_map.cc:16-24 | on a freshly sized table every key is new and lands in its start bucket, so whatever was inserted before a resize is gone |
| `ConcurrentMaps.ConcurrentMap.constructor` | concurrent_map.cc:7-8 | the default table has no storage and no buckets |
| `ConcurrentMaps.ConcurrentMap.WithCapacity` | concurrent_map.cc:10-13 | the sized constructor leaves a consistent table of `BucketCount(n)` empty buckets in freshly allocated arrays that the new table owns |
| `ConcurrentMaps.ConcurrentMap.Resize` | concurrent_map.cc:15-25 | fresh arrays of `BucketCount(n)` buckets, all empty, with an empty hash record; the old contents are gone |
| `ConcurrentMaps.ConcurrentMap.Claim` | concurrent_map.cc:55-61 | the claimed bucket now holds the key, its length and the value; every other bucket of all three arrays is unchanged; well-formedness is kept for a consistent hash |
| `ConcurrentMaps.ConcurrentMap.Find` | concurrent_map.cc:42-72 | the masked probe loop returns exactly `Probe` from `hash & (nbuckets - 1)`, after checking the bucket count's population count |
| `ConcurrentMaps.ConcurrentMap.Insert` | concurrent_map.cc:36-73 | result and new slots are exactly `ProbeTable.Insert` of the old slots (`Unsized` on a table never sized, which then changes nothing); no bucket but the claimed one changes in any array; `Consistent()` is kept when the key's hash is consistent |

## Findings

| source | as written | input that shows it | evidently intended | confidence | as-written member | corrected member |
|---|---|---|---|---|---|---|
| concurrent_map.cc:42 | `__builtin_popcount(nbuckets)` takes an `unsigned int`, so only the low 32 bits of the i64 bucket count are counted | `resize(0x1_0000_0000)` gives 2^32 buckets; the population count of their low 32 bits is 0, so the assertion fails on every later `insert` | a 64-bit population count (`__builtin_popcountll`), which is 1 for every power-of-two bucket count | medium, not executed: it assumes `ASSERT` is checked in the build and that the member `nbuckets` is 64-bit (both decided by mold.h, which is not part of this model), and that all three 2^32-entry `calloc`s at lines 22-24 succeed (if `keys` comes back null, line 39 returns before line 42) | `ProbeTable.PopCount32RejectsReachableSize` | `Bits.PowerOfTwoHasOneBit` |

The model's `Find` asserts the 64-bit count, `PopCount(nbuckets) == 1`, and
proves it from `Valid()` with `Bits.PowerOfTwoHasOneBit`.

## Left out

- Atomics, `compare_exchange_strong` and memory ordering (lines 22, 47, 56, 60) are not modelled. The model is single-threaded, so the compare-exchange always succeeds and is a plain write of `Locked`. The retry after a failed exchange (line 57) cannot happen.
- Spinning on the `locked` sentinel and the `pause` instruction (lines 48-53) are not modelled. `Valid()` leaves no cell `Locked` when a call starts or ends, so `Find` never meets one.
- Concurrent properties are not modelled: no lost updates under contention, and racing inserts agreeing on a winner. Neither is resize racing with insert.
- Memory handling is not modelled: `calloc`/`free`, the destructor (lines 17, 27-34), placement `new` (line 58), and value destructors that never run. Allocation is a fresh array and construction is an assignment. The values of a fresh `array<T>` are unspecified to the verifier, where `calloc` gives zero bytes; no empty bucket's value is ever read.
- Keys are copied `seq<byte>` values, not borrowed pointers, and `memcmp` is sequence equality. So the model does not capture a key whose data pointer is null (a default-constructed empty view). The source would publish that pointer, which is the empty sentinel, and leave the bucket looking empty.
- ConcurrentMaps.ConcurrentMap.Insert: requires `|key| < 2^32` instead of modelling the `u32` truncation of the length stored at line 59.
- ConcurrentMaps.ConcurrentMap.Resize: requires `0 <= n <= 2^62`. What `next_power_of_two` does with a negative i64 or a larger request is decided by mold.h, which is not part of this model. `Bits.NextPowerOfTwo` defines it as the least power of two `>= n` (1 for `n <= 1`).
- ConcurrentMaps.ConcurrentMap.WithCapacity: requires `0 <= n <= 2^62`, like `Resize`, which it calls (line 12), for the same reason.
- Allocation failure is not modelled: a `calloc` at lines 22-24 returning null would leave the source with `nbuckets` set and `keys` (or another array) null; the model's allocations always succeed.
- The hash is the caller's input (a `u64`); the hash function is not part of this model.
- `ASSERT` aborting the process (lines 42, 71) is not modelled. The full path is the `Full` outcome, which changes nothing. The population-count check is a proved assertion.
- The template instantiations for `SectionFragment<E>` (lines 75-80) are not modelled; the value type stays generic.

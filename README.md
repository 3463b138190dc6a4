# rhmap in Dafny

A model of the rhmap library, with proofs about it. rhmap is an index engine built on Robin Hood hashing. It maps 28-bit hashes to dense indices `0 .. size-1`, and a small C++ layer on top of it keeps the keys and values in a parallel array.

The model has three parts.

- **The engine** (`rhmap.h`). A class `RhEngine.RhMap` holds the same fields as the C struct:
  - `entries`, the slot table;
  - `hashes`, the hash of each dense index;
  - `mask`, `capacity` and `size`.

  Each slot word packs three fields:
  - the dense index in bits `[0,N)`;
  - the hash bits `[N,28)`;
  - a 1-based scan distance in bits `[28,32)`, where 15 means "15 or more" and 0 means a free slot.

  `entries` and `hashes` are arrays of 32-bit words, held as integers in `[0, 2^32)`. The bit operations of the C code become integer arithmetic, as the header of `rh_layout.dfy` spells out. Every operation is a method on the arrays with a loop wherever the C code has one:
  - find and insert, both resumable through a `scan` argument;
  - the Robin Hood displacement of insert;
  - backward-shift removal;
  - removal by dense index;
  - rehash;
  - grow, resize, init, reset and clear.

  Each method is proved against a function on sequences: `FindFrom`, `InsertFrom`/`Displace`, `ShiftFrom`/`RemoveFrom`, and the sizing functions. The lemmas about those functions state what the engine promises:
  - the entry encoding;
  - exactly one slot per dense index;
  - the Robin Hood ordering and exact scan fields;
  - find completeness;
  - what insert and remove do to the dense hash array.

- **The typed map** (`extra/hash_map.h`). A class `TypedMap.HashMap` holds an engine and the sequence of live `(key, value)` pairs in dense order. Its `find`, `insert`, `insert_or_assign`, `operator[]`, `erase_key`, `erase`, `reserve`, `clear`, `size` and `capacity` are stated as map-level contracts: presence of a key, what the pair sequence becomes, and whether the engine's invariant is kept. The hash functor is a function parameter of the constructor, and `Val()` is a value given to the constructor.

- **The hash functions** (`extra/rh_hash.cpp`). Module `RhHash` holds the 32-bit and 64-bit xorshift-multiply mixers as `bv32`/`bv64` functions. It holds `hash_buffer` and `hash_buffer_align4` as loops over a byte sequence, proved against a fold (`Chain`) over the buffer's little-endian 32-bit words.

The sizing arithmetic lives in `rh_sizing.dfy`. The default load factor `0.8f` is taken as its exact value 13421773 / 2^24. The round-up-to-a-power-of-two bithack is proved on 32-bit words in `rh_roundup.dfy`.

In three places the code differs from the design its comments describe. The "## Findings" section lists them, each with an as-written definition, an input that shows the difference, and a corrected definition. The engine's methods run the corrected definitions: the resolution of a clamped scan distance in insert (`RhEngine.ResolveScan`), the hash copied into the hole by remove (`RhEngine.RemoveArrays`), and the resize target. "## Left out" names every method that therefore differs from the code.

The Robin Hood invariant is the one property the engine cannot keep on every input. An insert can resume past a potential match at the clamped distance 15 that belongs to another element, and then place its element behind one nearer its home. Whether a later remove then hides an element from find is not proved here and was not executed. The model proves what does hold:
- an insert or rehash keeps the invariant when each resume is ordered: the table has no clamped field, or the hashes are told apart by their bits above the mask (`Safe`);
- on any other table the result is "stretched" (`RhStretch.Stretched`): some element sits at least 15 slots from its home, behind a full run, with a clamped field;
- every insert keeps a stretched table stretched, so a table with no clamped field afterwards was ordered all along.

## Definitions

The functions below carry the source's arithmetic and loops as values. Each method of the engine, the typed map and the hash module is proved to compute one of them, and the lemmas in "## Model" state what they promise.

- `RhHash.Mix32` (extra/rh_hash.cpp:51-59): `hash(uint32_t)`, the xorshift-multiply mixer on 32-bit words.
- `RhHash.Mix64` (extra/rh_hash.cpp:61-69): `hash(uint64_t)`, the 64-bit mixer truncated to its low 32 bits.
- `RhHash.Round` (extra/rh_hash.cpp:20): one fold round, rotate left by 5, xor the word, multiply by `0x9e3779b9`.
- `RhHash.Chain` (extra/rh_hash.cpp:19-22): the fold of `Round` over a sequence of words.
- `RhHash.BufferHash` (extra/rh_hash.cpp:13-25): `hash_buffer`, the fold over the buffer's whole little-endian words.
- `RhHash.TailWord` (extra/rh_hash.cpp:38-44): the trailing 1 to 3 bytes packed with the first byte most significant.
- `RhHash.Align4Hash` (extra/rh_hash.cpp:27-49): `hash_buffer_align4`, one more round with the tail word when bytes remain.
- `RhProbe.FindFrom` (rhmap.h:263-284): the find loop from a given scan.
- `RhInsert.SlotScan` (rhmap.h:317-319): the corrected distance of a stored entry, resolving a clamped field through the entry's own hash.
- `RhInsert.SlotScanAsWritten` (rhmap.h:317-319): the same resolution as the code writes it.
- `RhInsert.InsertFrom` (rhmap.h:296-330): the first insert loop.
- `RhInsert.Displace` (rhmap.h:332-358): the displacement loop that carries evicted entries on.
- `RhInsert.Inserted` (rhmap.h:287-359): one `rhmap_insert`, a match or a completed placement.
- `RhRemove.ShiftWord` (rhmap.h:378-386): an entry moved one slot back, with its distance lowered by one.
- `RhRemove.ShiftFrom` (rhmap.h:371-392): the backward-shift loop.
- `RhRemove.Seek` (rhmap.h:401-405): the search for the entry of the last dense index.
- `RhRemove.RemoveThrough` (rhmap.h:367-413): the removal, with the index of the hash copied into the hole as a parameter.
- `RhRemove.RemoveFrom` (rhmap.h:367-413): the corrected removal, which copies the moved element's hash.
- `RhRemove.RemoveAsWritten` (rhmap.h:367-413): the removal as the code writes it.
- `RhRemove.SwapRemove` (rhmap.h:397-400): the dense hash array with the hole filled by the last hash.
- `RhRoundUp.RoundUp32` (rhmap.h:208-209): the round-up-to-a-power-of-two bithack on 32-bit words.
- `RhSizing.Capacity` (rhmap.h:187): the element count of n slots, `n * 0.8f` truncated.
- `RhSizing.EntriesFor` (rhmap.h:208): the slot count of a request, `count / 0.8f - 0.5` truncated.
- `RhSizing.GrowTarget` (rhmap.h:190-193): the doubling loop of grow.
- `RhSizing.ResizeTargetAsWritten` (rhmap.h:208-218): the slot count resize computes as written.
- `RhSizing.ResizeTarget` (rhmap.h:208-218): the corrected slot count, doubled until it holds the request as well.
- `RhSizing.AllocSize` (rhmap.h:196): the 8-aligned byte size of both arrays.
- `TypedMap.HashesOf` (extra/hash_map.h:120, 139-146): the 28-bit hash the engine keeps for each pair, in the pairs' dense order.
- `TypedMap.Erased` (extra/hash_map.h:177-179): the pair sequence after erasing index r by moving the last pair into its place.

## Model

| member | source | states |
|---|---|---|
| RhLayout.Decode | rhmap.h:134-141 | a word built from a distance, hash bits and an index gives back exactly those three fields |
| RhLayout.Pack | rhmap.h:293-295 | the hash bits above the mask, or-ed with an index and a distance shifted to bit 28, decode to those three fields |
| RhLayout.Split | rhmap.h:134-141 | every word splits into distance, hash bits and index, and is rebuilt from them |
| RhLayout.MatchIff | rhmap.h:264-270 | the test `((entry ^ ref) & ~mask) == 0` holds exactly when the scan field equals the probe and the hash bits above the mask agree, in both directions |
| RhTable.EmptyTable | rhmap.h:244-245 | a table of zero words holds no element and satisfies the encoding, the indexing and the Robin Hood invariant |
| RhTable.FreeSlot | rhmap.h:287-315 | a table holding fewer elements than slots has a free slot, which is why the probe loops end |
| RhTable.Chain | rhmap.h:124-128 | under the ordering, every slot between an element's home and its slot is occupied by an element at least as far from its own home |
| RhTable.FindStep | rhmap.h:263-283 | while a stored element with the searched hash lies further on, the probe either reports a potential match or passes the current slot |
| RhTable.ExactMatch | rhmap.h:139-141 | a potential match at a distance below 15 is the element with exactly that 28-bit hash whose slot is at that distance |
| RhTable.ProbeToIndex | rhmap.h:422-423 | probing from an element's home meets occupied slots only, and reaches an entry with its dense index exactly at its own slot |
| RhProbe.HitFields | rhmap.h:266-274 | on a result of 1 the probed entry's distance equals the clamped scan, its hash bits equal the searched hash's, and the index is `entry & mask` |
| RhProbe.ExactHit | rhmap.h:268-274 | a hit below the clamp is the element of that hash, at true distance equal to the scan |
| RhProbe.Complete | rhmap.h:124-128 | a find resumed before a stored element with the searched hash hits no later than that element's distance |
| RhProbe.CompleteFull | rhmap.h:256-285 | a find resumed before any stored element with the searched hash reports a hit |
| RhProbe.HitAt | rhmap.h:270-274 | a hit at an element's exact distance returns that element's dense index |
| RhProbe.FindRun | rhmap.h:263-284 | every slot a find passes before a hit is occupied |
| RhProbe.MissAbsent | rhmap.h:275-282 | a find from scan 0 that returns 0 proves no stored element has that hash |
| RhProbe.FindHit | rhmap.h:263-274 | a hit returns a live index whose entry sits at `(hash + scan - 1) & mask`, and a hit on another index stops before the sought element |
| RhProbe.FindMiss | rhmap.h:275-282 | a resumed find that returns 0 has already passed every stored element with that hash |
| RhInsert.InsertBodyIdx | rhmap.h:295 | the hash bits above the mask, or-ed with `size`, carry dense index `size` |
| RhInsert.SlotScanAsWrittenAgrees | rhmap.h:317-319 | below the clamp, the written resolution and the corrected one both give the stored distance |
| RhInsert.SlotScanAsWrittenExample | rhmap.h:317-320 | an ordered 32-slot table where the written resolution gives 1 for an element that is 15 slots from home, and the corrected one gives 15 |
| RhInsert.Resolve | rhmap.h:317-319 | the corrected resolution of a clamped field gives the element's true distance from home |
| RhInsert.DisplaceOk | rhmap.h:332-358 | the displacement loop places every carried element, keeps the encoding and one slot per index, and keeps the Robin Hood invariant when the swap started from an ordered state |
| RhInsert.DisplaceUnmatched | rhmap.h:335-358 | the displacement loop never reports a match |
| RhInsert.InsertOk | rhmap.h:296-330 | the first insert loop either reports a match on an older element or completes a placement that keeps the encoding, the indexing and, from an ordered resume point, the Robin Hood invariant |
| RhInsert.InsertRun | rhmap.h:296-308 | every slot an insert passes before a potential match is occupied |
| RhInsert.ExtendTable | rhmap.h:293-295 | appending a hash to the dense array leaves every stored distance unchanged and starts the carry of the new element |
| RhInsert.InsertedOk | rhmap.h:287-359 | an insert returns a match on a live index at a later scan, or places the hash as dense index `size` with the encoding and indexing kept; from an ordered resume point the placement keeps the Robin Hood invariant |
| RhInsert.InsertedResume | rhmap.h:304-308 | after a match below the clamp, or with hashes separated above the mask, resuming at the returned scan is again an ordered resume point |
| RhInsert.ReinsertStep | rhmap.h:247-252 | one round of rehash's `while (rhmap_insert(...))` loop: a match moves the scan on within the table over occupied slots; an ordered resume point stays ordered after a match below 15 on any table, and after every match for `Safe` hashes or a table with no clamped field; then the placement keeps the Robin Hood invariant |
| RhInsert.InsertNext | rhmap.h:296-330 | the same as ReinsertStep, and while a stored element with the hash lies further on, insert reports a match that is that element or stops before it |
| RhInsert.InsertedMatch | rhmap.h:304-308 | a match returns the index of an entry whose distance and hash bits equal the probe's |
| RhInsert.InsertComplete | rhmap.h:296-308 | while a stored element with the hash lies further on, the first insert loop reports a match no later than that element |
| RhInsert.InsertedComplete | rhmap.h:296-308 | an insert resumed before a stored element with the same hash matches it or an earlier element, never places a duplicate |
| RhInsert.PlaceRh | rhmap.h:309-314 | placing the carried element in a free slot from an ordered state gives a Robin Hood table |
| RhStretch.StretchedInsert | rhmap.h:287-359 | an insert into a stretched table, ordered or not, leaves it stretched: the element pinned behind a full run keeps its clamped field and its place behind the run |
| RhStretch.ClampedStretched | rhmap.h:137-141 | a Robin Hood table with a clamped scan field is stretched: the clamped element lies at least 15 slots from home with every slot before it occupied |
| RhStretch.StretchedClamped | rhmap.h:137-141 | a stretched table has a clamped scan field, so a table with none is not stretched |
| RhTable.SafePrefix | rhmap.h:246-252 | a prefix of safe hashes is safe, so every hash rehash inserts in dense order is inserted into a safe table |
| RhRemove.ShiftWordIdx | rhmap.h:378-386 | the shifted-back word keeps the entry's dense index |
| RhRemove.ShiftValue | rhmap.h:378-386 | the shifted-back word has the element's true distance minus one, clamped, whether the field was inline or clamped |
| RhRemove.ShiftStep | rhmap.h:373-389 | one step of the shift loop moves the next entry one slot back and updates its slot |
| RhRemove.ShiftStop | rhmap.h:376 | an entry with scan at most 1 ends the shift and the last slot of the chain is cleared |
| RhRemove.ShiftOk | rhmap.h:371-392 | the backward shift keeps the Robin Hood invariant and one slot per index for every index but the removed one |
| RhRemove.ShiftedOk | rhmap.h:367-392 | clearing an element's slot and shifting the following run back keeps the Robin Hood invariant |
| RhRemove.SeekFinds | rhmap.h:401-405 | the search from the last element's home stops at the one entry referring to the last index |
| RhRemove.RenumberWord | rhmap.h:406 | renumbering an entry changes only its index field |
| RhRemove.RenumberOk | rhmap.h:394-406 | renumbering the last element into the hole gives a Robin Hood table over the swap-removed dense array with one slot per index |
| RhRemove.DropLast | rhmap.h:411-413 | removing the last dense index needs no renumbering and keeps every invariant |
| RhRemove.SwapRemoveMultiset | rhmap.h:397-400 | swap removal drops exactly one occurrence of the removed hash |
| RhRemove.RemoveMovedOk | rhmap.h:397-410 | removing a non-last index reports the move and keeps every invariant over the swap-removed hashes |
| RhRemove.RemoveLastOk | rhmap.h:411-413 | removing the last index reports no move and keeps every invariant |
| RhRemove.RemoveOk | rhmap.h:361-414 | remove on a Robin Hood table keeps the Robin Hood invariant and one slot per index, and leaves the dense hash array swap-removed |
| RhRemove.RemoveAsWrittenWrongHash | rhmap.h:397-400 | as written, a swapping remove whose last two hashes differ leaves the dense hash array different from the swap-removed array |
| RhRemove.RemoveAsWrittenExample | rhmap.h:397-400 | hashes 1, 2, 3 with the element of index 0 removed: as written `hashes` becomes 2, 2, while the moved element has hash 3 |
| RhSizing.CapacityGrows | rhmap.h:190-193 | doubling the slot count raises the capacity, so the doubling loop ends |
| RhSizing.CapacityMono | rhmap.h:187 | capacity grows with the slot count |
| RhSizing.RoundUpOk | rhmap.h:235-236 | the round-up gives 0 for 0 and above 2^31, and otherwise the least power of two at least v |
| RhSizing.RehashSized | rhmap.h:235-243 | for a power-of-two slot count n, rehashing to n's capacity allocates exactly n slots again, with capacity below n |
| RhSizing.GrowTargetOk | rhmap.h:190-193 | the doubling loop ends at a slot count whose capacity holds the current size, a power of two when it started at one, and it stops at the first such count |
| RhSizing.GrowTargetLeast | rhmap.h:190-193 | no smaller power of two of at least the start holds the size |
| RhSizing.GrowStartOk | rhmap.h:176-186 | grow starts from `initial_size` or 16 for an unallocated map, doubles otherwise, and never below 4, always at a power of two |
| RhSizing.GrowRoom | rhmap.h:183-193 | a full map grows to twice its slot count, with room for one more element |
| RhSizing.ResizeStartOk | rhmap.h:206-211 | resize starts from a power of two of at least 4 |
| RhSizing.ResizeTargetOk | rhmap.h:199-222 | the corrected resize target is a power of two whose capacity holds both the request and the size |
| RhSizing.ResizeTargetAgrees | rhmap.h:212-218 | whenever the as-written target already holds the request, it equals the corrected one |
| RhSizing.ResizeAsWrittenShort | rhmap.h:208-219 | resizing an empty map to 7 elements: as written, count 6, while the corrected target has 16 slots and count 12 |
| RhSizing.AllocSizeOk | rhmap.h:195-196 | the allocation size is a multiple of 8 and covers `4 * (count + num_entries)` bytes by less than 8 |
| RhRoundUp.RoundUp32Ok | rhmap.h:206-210 | on 32-bit words the bithack gives the least power of two at least x for `1 <= x <= 2^31`, and 0 otherwise |
| RhEngine.RhMap.constructor | rhmap.h:152-157 | `rhmap_init` leaves no arrays, mask, capacity and size 0 |
| RhEngine.RhMap.Reset | rhmap.h:159-166 | `rhmap_reset` returns the old entries buffer and leaves the unallocated state |
| RhEngine.RhMap.Clear | rhmap.h:168-172 | clear zeroes every slot and the size and keeps the arrays, mask and capacity: an empty Robin Hood table |
| RhEngine.RhMap.Grow | rhmap.h:174-197 | the count is the capacity of the doubled or initial slot count that holds the size, and the allocation covers both arrays and is 8-aligned |
| RhEngine.RhMap.Resize | rhmap.h:199-222 | the count holds both the request and the current size, with the same allocation guarantees as Grow |
| RhEngine.RhMap.Rehash | rhmap.h:224-254 | rehash returns the old entries, sets the capacity, keeps the size and every hash at its dense index; the new table is ordered or stretched, and ordered when the hashes are `Safe` or no scan field ends up clamped; count 0 gives the sentinel table |
| RhEngine.RhMap.Install | rhmap.h:238-245 | fresh arrays, mask + 1 slots all free, capacity count and size 0 |
| RhEngine.RhMap.ReinsertAll | rhmap.h:246-252 | inserting the old hashes in dense order reproduces them as the new dense array; the table stays ordered or stretched, and ordered throughout for `Safe` hashes |
| RhEngine.RhMap.ReinsertNext | rhmap.h:248-251 | one pass of the loop appends `all[i]` to the dense hashes `all[..i]`, keeps the table ordered or stretched, and keeps it ordered for `Safe` hashes |
| RhEngine.RhMap.Reinsert | rhmap.h:248-251 | one hash reinserted, resuming past potential matches, ends up appended to the dense array; an ordered table stays ordered for `Safe` hashes or with no clamped field, and otherwise becomes ordered or stretched; a stretched table stays stretched |
| RhEngine.RhMap.ReinsertLoop | rhmap.h:251 | the loop `while (rhmap_insert(...))` on one hash appends it to the dense array, keeping an ordered table ordered from an ordered start and a stretched table stretched |
| RhEngine.RhMap.Reprobe | rhmap.h:251 | one call to insert inside rehash: a match changes nothing and gives the insert function's next scan, and a placement leaves the table the insert function gives and appends the hash |
| RhEngine.RhMap.Find | rhmap.h:256-285 | on the sentinel table find returns 0 at once; otherwise its result is the probe function's, and it changes nothing |
| RhEngine.RhMap.Insert | rhmap.h:287-359 | a match changes nothing but the scan; otherwise the hash (masked to 28 bits) becomes dense index `size` and size grows by one, with the table as the insert function gives it |
| RhEngine.RhMap.Remove | rhmap.h:361-414 | remove keeps the Robin Hood invariant, lowers size by one, reports a move exactly when the removed index is below the new size with `dst` the removed and `src` the old last index, and swap-removes the dense hash array |
| RhEngine.RhMap.RemoveSlot | rhmap.h:367-413 | the same as Remove, given the slot the resumed scan points to |
| RhEngine.RhMap.RemoveIndex | rhmap.h:416-427 | removing dense index `index` is remove at that index's slot, with the same results |
| RhEngine.Sized | rhmap.h:187-196 | a power-of-two slot count's capacity rehashes to the same slot count, and its allocation fits in 32 bits |
| RhEngine.InsertArrays | rhmap.h:287-359 | the two insert loops on the arrays compute the insert function: a match leaves both arrays unchanged, a placement writes the hash at `size` |
| RhEngine.ProbeLoop | rhmap.h:263-284 | the find loop computes the probe function |
| RhEngine.ProbeStep | rhmap.h:266-283 | one iteration of the find loop |
| RhEngine.ResolveScan | rhmap.h:317-319 | the clamped-distance resolution, in its corrected form |
| RhEngine.InsertLoop | rhmap.h:296-330 | the first insert loop computes the insert function |
| RhEngine.InsertProbe | rhmap.h:296-320 | the read-only part of the first insert loop reaches the slot where it matches, places or swaps |
| RhEngine.DisplaceLoop | rhmap.h:335-358 | the displacement loop computes the displacement function |
| RhEngine.RemoveArrays | rhmap.h:367-413 | the remove on the arrays computes the corrected remove function, keeps the Robin Hood invariant and swap-removes the hashes |
| RhEngine.ShiftLoop | rhmap.h:373-392 | the shift loop computes the shift function |
| RhEngine.ShiftEntry | rhmap.h:378-386 | the inline decrement or the clamped re-resolution of one shifted entry computes the shift word |
| RhEngine.SeekLoop | rhmap.h:402-405 | the search for the last element's entry computes the seek function |
| RhEngine.ScanTo | rhmap.h:419-425 | the scan loop of `rhmap_remove_index` stops at the index's slot, one less than its true distance |
| TypedMap.ErasedPairs | extra/hash_map.h:176-179 | erasing by swap keeps keys distinct and leaves exactly the pairs with a different key |
| TypedMap.ErasedHashes | extra/hash_map.h:177-178 | the hashes of the erased pair sequence are the engine's swap-removed hashes |
| TypedMap.PlacedPair | extra/hash_map.h:143-146 | appending a pair with a new key keeps the keys distinct and appends its hash |
| TypedMap.AssignedPair | extra/hash_map.h:163 | assigning a value leaves the keys and hashes unchanged |
| TypedMap.HashMap.constructor | extra/hash_map.h:44-48 | an engine with no arrays and no pairs |
| TypedMap.HashMap.Size | extra/hash_map.h:195-198 | the number of pairs |
| TypedMap.HashMap.Capacity | extra/hash_map.h:200-203 | the engine's capacity: that of its slot count, 0 without a table, never below the size |
| TypedMap.HashMap.ImpRehash | extra/hash_map.h:63-73 | a rehash keeps every pair at its dense index; the table is ordered or stretched, and ordered for `Safe` hashes or when no scan field is clamped |
| TypedMap.HashMap.Clear | extra/hash_map.h:75-78 | no pairs, same slot count and capacity |
| TypedMap.HashMap.Reserve | extra/hash_map.h:80-87 | on any coherent map, duplicate keys included: nothing changes when the request fits; otherwise the map rehashes to the resize target and keeps every pair; distinct keys stay distinct |
| TypedMap.HashMap.ResizeFor | extra/hash_map.h:82-86 | on any coherent map, duplicate keys included: the resize branch rehashes to the corrected resize target, with room for the request and the pair sequence unchanged |
| TypedMap.HashMap.Locate | extra/hash_map.h:89-99 | returns the index and scan of the pair with the key, or reports absence, which on an ordered table means the key is missing |
| TypedMap.HashMap.Search | extra/hash_map.h:93-97 | the find loop with key comparison finds a stored key |
| TypedMap.HashMap.SearchStep | extra/hash_map.h:93-94 | one round of that loop |
| TypedMap.HashMap.Find | extra/hash_map.h:89-99 | a result is a pair with the key, and on an ordered table a key is found exactly when it is stored |
| TypedMap.HashMap.PlaceKey | extra/hash_map.h:120-126 | the insert loop with key comparison returns the index of the stored key, or places the key's hash as a new dense index, never a second time on an ordered table; an ordered table stays ordered or becomes stretched, ordered when the key was met or is `Safe` with the stored hashes, and a stretched one stays stretched |
| TypedMap.HashMap.PlaceLoop | extra/hash_map.h:121-125 | the loop of PlaceKey on a fixed starting table: it meets an ordered table's stored key before placing anything, and a placement keeps the ordering from an ordered resume point and keeps a stretched table stretched |
| TypedMap.HashMap.PlaceStep | extra/hash_map.h:121-124 | one round of that loop: the engine insert's result on the starting table, with the placed table ordered or stretched exactly as the insert function's is |
| TypedMap.HashMap.MakeRoom | extra/hash_map.h:115-119 | after the grow check the engine has room for one more element and every pair; a map with room is left as it was, and a full one is rehashed, ordered for safe growth |
| TypedMap.HashMap.Enlarge | extra/hash_map.h:116-118 | a full map grows and rehashes, keeping every pair, into an ordered or stretched table, ordered when its hashes are `Safe` in the grown table |
| TypedMap.HashMap.GrowCount | extra/hash_map.h:116-117 | the grown count of a full map has room for one more pair, at the slot count the insert then works in |
| TypedMap.HashMap.ImpInsert | extra/hash_map.h:113-127 | returns the stored key's index, or appends its hash as a new index awaiting its pair; the hash is new, and the table ordered, when no scan field ends up clamped or the map was ordered and its growth safe |
| TypedMap.HashMap.Construct | extra/hash_map.h:143-146 | placement-constructing the pair appends it, keeps keys distinct for a new key, and completes an ordered map |
| TypedMap.HashMap.Subscript | extra/hash_map.h:129-137 | the index of the key's pair; an absent key is appended with `Val()`; with no clamped field at the end, or an ordered map and safe growth, a present key changes nothing and the keys stay distinct |
| TypedMap.HashMap.Store | extra/hash_map.h:163 | assigning through the returned reference changes only that pair's value |
| TypedMap.HashMap.Insert | extra/hash_map.h:139-152 | the pair is appended, or nothing changes and the key was present; with no clamped field at the end, or an ordered map and safe growth, inserted exactly when the key was absent, with the keys kept distinct |
| TypedMap.HashMap.InsertOrAssign | extra/hash_map.h:154-168 | the key's pair holds the value afterwards: a new pair is appended, or the met pair's value alone is overwritten; with no clamped field at the end, or an ordered map and safe growth, inserted exactly when the key was absent |
| TypedMap.HashMap.Emplace | extra/hash_map.h:158-165 | the branch of `insert_or_assign`: the new pair is constructed, or the met pair's value overwritten, with the keys kept distinct and an ordered table kept |
| TypedMap.HashMap.MovePair | extra/hash_map.h:177-179 | on any coherent, ordered map, duplicate keys included: `data[dst] = data[src]` after the engine's remove leaves the swap-erased pairs, and distinct keys stay distinct |
| TypedMap.HashMap.EraseKey | extra/hash_map.h:170-184 | on any coherent, ordered map, duplicate keys included: true exactly when the key was present; then one pair holding the key is swap-erased (with distinct keys, the pair at its index), otherwise nothing changes; distinct keys stay distinct |
| TypedMap.HashMap.RemoveLocated | extra/hash_map.h:176-180 | on any coherent, ordered map: removing at the located scan swap-erases that pair, and distinct keys stay distinct |
| TypedMap.HashMap.EraseAt | extra/hash_map.h:186-193 | on any coherent, ordered map: erase swap-erases the pair and returns the same position, and distinct keys stay distinct |
| RhHash.MixFixedPoints | extra/rh_hash.cpp:51-69 | both mixers map 0 to 0 |
| RhHash.Mix32StepsInvertible | extra/rh_hash.cpp:51-59 | each step of the 32-bit mixer has an inverse: the xor-shifts by 16 and 15 and the two odd multipliers |
| RhHash.Mix64StepsInvertible | extra/rh_hash.cpp:61-69 | the xor-shift by 32 and the odd multiplier of the 64-bit mixer have inverses |
| RhHash.RoundInvertible | extra/rh_hash.cpp:20 | one fold round is invertible in the word for a fixed hash, undoing the multiply, the xor and the rotation |
| RhHash.ChainAppend | extra/rh_hash.cpp:19-22 | folding two word sequences one after the other is folding their concatenation |
| RhHash.Words | extra/rh_hash.cpp:18-21 | the `size / 4` whole words of the buffer, each read little-endian |
| RhHash.WordsAppend | extra/rh_hash.cpp:18-21 | the words of a concatenation split at a word boundary |
| RhHash.BufferHashAppend | extra/rh_hash.cpp:19-22 | hashing a concatenation continues the fold from the first part's hash |
| RhHash.BufferHashIgnoresTail | extra/rh_hash.cpp:19-24 | the trailing bytes are ignored, so any buffer below 4 bytes hashes to 0 |
| RhHash.TailWordSnoc | extra/rh_hash.cpp:41-43 | each tail byte shifts the word left by 8 and lands in the low byte |
| RhHash.TailWordBytes | extra/rh_hash.cpp:38-44 | the tail word packs 1 to 3 bytes with the first byte most significant |
| RhHash.HashBuffer | extra/rh_hash.cpp:13-25 | the loop computes the fold over the whole words |
| RhHash.HashBufferAlign4 | extra/rh_hash.cpp:27-49 | equal to `hash_buffer` when the size is a multiple of 4, and otherwise exactly one more round with the packed tail word |
| RhHash.PackTail | extra/rh_hash.cpp:38-44 | the byte loop computes the packed tail word |

## Left out

- RhEngine.RhMap.Insert: Robin Hood preservation is proved when the insert resumes from an ordered point. The source has a hazard here. A potential match that is only clamped can be resumed past: stored distance 15, equal hash bits above the mask, but a different home. The element is then placed behind an element nearer its home. That a later backward shift can then hide it from find is an inference from the code; the model does not prove it and nothing was executed. A match below 15 keeps the resume point ordered (`RhInsert.InsertedResume`); so does any match on a table with no clamped field, or for `Safe` hashes.
- RhEngine.RhMap.Reinsert: promises the Robin Hood invariant when the table starts with no clamped field or the hashes are `Safe`, and otherwise only "ordered or stretched". A run on a clamped, unsafe table whose every potential match happens to lie below 15 also stays ordered; the method does not promise this, because it is a fact about the matches met on the way and not about the states before and after.
- RhEngine.RhMap.ReinsertLoop: the same condition as Reinsert.
- RhEngine.RhMap.ReinsertAll: promises the Robin Hood invariant only for `Safe` hashes, and otherwise "ordered or stretched", for the reason given for Reinsert. The same holds for `ReinsertNext`.
- RhEngine.RhMap.Rehash: promises the Robin Hood invariant for `Safe` hashes or when no scan field of the new table is clamped, and otherwise "ordered or stretched", for the reason given for Reinsert.
- TypedMap.HashMap.ImpRehash: the same condition as Rehash.
- TypedMap.HashMap.Reserve: the same condition as Rehash when it resizes. The same holds for `ResizeFor`.
- TypedMap.HashMap.PlaceKey: the same condition as Reinsert, for the key's hash.
- TypedMap.HashMap.PlaceLoop: the same condition as Reinsert.
- TypedMap.HashMap.Insert: an insert into a grown table that is stretched can place a key that is already stored, as the source can. So "inserted exactly when the key was absent", distinct keys (`Valid`) and the ordering are promised only when no scan field ends up clamped or the map was ordered and its growth `Safe`.
- TypedMap.HashMap.InsertOrAssign: the same condition as Insert.
- TypedMap.HashMap.Subscript: the same condition as Insert.
- TypedMap.HashMap.ImpInsert: the same condition as Insert.
- RhEngine.RhMap.Insert: runs the corrected resolution of a clamped scan field, `((ix - hashes[entry & mask]) & mask) + 1`, where rhmap.h:319 and rhmap.h:350 compute `(ix - hashes[ix]) & mask` (see Findings). The as-written resolution is `RhInsert.SlotScanAsWritten`; the two agree whenever the field is below 15 (`RhInsert.SlotScanAsWrittenAgrees`).
- RhEngine.InsertArrays: runs the same corrected resolution.
- RhEngine.InsertProbe: runs the same corrected resolution.
- RhEngine.DisplaceLoop: runs the same corrected resolution.
- RhEngine.ResolveScan: is the corrected resolution itself, which every insert and rehash method runs.
- RhEngine.RhMap.Remove: copies the hash of the element that moved into the hole, where rhmap.h:398 copies `hashes[map->size - 1]` after the decrement (see Findings). The as-written remove is `RhRemove.RemoveAsWritten`.
- RhEngine.RhMap.RemoveSlot: runs the same corrected hash copy.
- RhEngine.RhMap.RemoveIndex: runs the same corrected hash copy.
- RhEngine.RemoveArrays: is the corrected remove itself.
- TypedMap.HashMap.EraseKey: the pair moved into the hole keeps its key's hash only because of the corrected copy of `RhEngine.RhMap.Remove`; as written, the engine's `hashes` and the pairs disagree after such a move.
- TypedMap.HashMap.MovePair: relies on the same corrected copy.
- TypedMap.HashMap.RemoveLocated: relies on the same corrected copy.
- TypedMap.HashMap.EraseAt: relies on the same corrected copy.
- TypedMap.HashMap.Find: a miss means the key is absent only on a Robin Hood table. The same holds for `Locate`.
- RhEngine.RhMap.Remove: requires the Robin Hood invariant, which `rhmap_remove` relies on in its comments (rhmap.h:124-128). Without it the clamped branch can write distance 0. The same holds for `RemoveIndex`, `TypedMap.HashMap.EraseKey`, `TypedMap.HashMap.EraseAt` and `TypedMap.HashMap.RemoveLocated`.
- RhEngine.RhMap.Find: requires an allocated table or the sentinel table that a rehash to 0 leaves. On a map that was never grown, `entries` is null and `mask` is 0, so the guard `mask == ~0u` does not fire. The same holds for `RhEngine.RhMap.Clear`, `TypedMap.HashMap.Clear`, `TypedMap.HashMap.Find` and `TypedMap.HashMap.EraseKey`.
- RhEngine.RhMap.Grow: requires `initial_size` to be 0 or a power of two, because `rhmap_rehash` rounds the slot count up and would disagree with the allocation otherwise.
- RhEngine.RhMap.Grow: requires the target slot count to be at most 2^28, which keeps `alloc_size` and the index field within 32 bits. The same holds for `Resize` and `TypedMap.HashMap.Reserve`.
- RhEngine.RhMap.Resize, TypedMap.HashMap.Reserve and TypedMap.HashMap.ResizeFor: use the corrected resize target (see Findings).
- The float load factor: the field is taken as 0, so the default `0.8f` is always used, as its exact value 13421773 / 2^24. The products and the quotient are computed exactly. `double` rounding of `count / 0.8f - 0.5` is not modelled.
- The link between the `bv32` bithack (`RhRoundUp.RoundUp32`) and the integer round-up the engine uses (`RhSizing.RoundUpPow2`) is not mechanised. Both are proved to give the least power of two at least their input. Relating the two needs conversions between `bv32` and integers that the solver cannot discharge within the resource limit.
- 32-bit arithmetic of the engine: a hash is masked to its low 28 bits on entry, as `& 0x0fffffff` does. Slot counts stay at or below 2^28, so no other word wraps. Wrap-around of `scan` near 2^32 is excluded by a precondition.
- RhHash.Mix32StepsInvertible: states each step's inverse separately. Injectivity of the whole 32-bit mixer is not proved, because the solver cannot carry bit-vector equalities through the intermediate values of the chain.
- The single allocation that `rhmap_rehash` carves into `entries` and `hashes`, and `malloc`/`free` in the typed map. The arrays are separate Dafny arrays, and the returned old buffer is the old `entries` array.
- C++ object lifetime in the typed map: placement `new` is a sequence update, and `data` is the sequence of live pairs, not a raw array. The copy and move constructors, the destructor, `begin`/`end` and the `const` overload of `find` are not modelled. Pointer results are returned as indices.
- The `operator[]` example of the test program (three assignments, then a lookup) is not stated as a lemma. It follows from the contracts of `Subscript` and `Store`.
- `rhmap_iter` is not a type of its own: its `hash` and `scan` are passed to and returned from each call.
- extra/rh_hash.h, extra/rh_hash_map.h and extra/rh_hash_map.cpp are not part of this model, and neither are the allocator and `hash_base` parts of extra/rh_hash.cpp (lines 7-11 and 71 onward). They call engine functions that rhmap.h does not define. The default hasher of the typed map is a constructor parameter.
- Byte order: a buffer word is read little-endian, as on the platforms the code targets.

## Findings

| source | as written | input that shows it | evidently intended | confidence | as-written member | corrected member |
|---|---|---|---|---|---|---|
| rhmap.h:398-400 | after `map->size--` the swap copies `hashes[map->size - 1]` into the hole | hashes 1, 2, 3 in a 4-slot table, remove the element with dense index 0: `hashes` becomes 2, 2, but the entry renumbered to index 0 has hash 3 | copy `hashes[map->size]`, the hash of the element that moved | not executed | RhRemove.RemoveAsWrittenExample | RhRemove.RemoveOk |
| rhmap.h:319-350 | a clamped distance is resolved as `(ix - hashes[ix]) & mask`, which reads the hash array at the slot number and gives a 0-based distance | an ordered 32-slot table whose slot 14 holds an element 15 slots from home: the resolution gives 1, so an insert of hash 13 at probe 2 displaces it | `((ix - hashes[entry & mask]) & mask) + 1` | not executed | RhInsert.SlotScanAsWrittenExample | RhInsert.Resolve |
| rhmap.h:212-219 | the doubling loop of `rhmap_resize` tests only the current size, so the count can be below the requested size | `rhmap_resize` to 7 on an empty map: 8 slots, count 6 | keep doubling until the count holds the requested size as well | not executed | RhSizing.ResizeAsWrittenShort | RhSizing.ResizeTargetOk |

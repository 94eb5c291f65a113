# pkmLSH in Dafny

A verified model of `pkm::LSH` from `pkmLSH/pkmLSH.h`. It is a locality-sensitive-hashing index over rows of numbers.

- **Drawing dimensions.** `buildHashes` gives every hash table its own list of dimensions. Each dimension is drawn with probability proportional to its column variance, and no dimension appears twice in one table.
- **Signatures.** A row's signature in a table packs one bit per listed dimension into a `uint64_t`. The bit says whether the row is above the column mean in that dimension.
- **Storing rows.** Every table maps a signature to the id of the first row stored under it. `insert` never overwrites an entry.
- **Querying.** `query` collects the ids in the whole bucket of the query's signature, from every table. It returns them ascending and without repeats.
- **Ranking.** The two `knn` overloads reorder the candidates by squared Euclidean distance, nearest first. They do this through `sortIndices`, which sorts an index vector by negated distance in descending order.

The model keeps the source's form:
- **The class.** `PkmLSH.LSH` is a class whose methods update its fields: `hashes`, `originalData`, `means`, `mapHashes`, `prehash` and `initialized`.
- **The working buffers stay arrays.** These are the `used` vector of `buildHashes`, the `tmp` and `result` vectors of `getHashes`, and the `range`/`dists`/`new_neighbors` vectors of `knn`, all updated in place.
- **`sortIndices` sorts in place.** It fills an `array<nat>` and sorts it there.
- **Each loop is a method with invariants.** Each loop that computes a value is proved against a pure specification function, and the properties are proved about that function. The loops that draw the tables of `buildHashes` are proved against predicates over the draws instead:
  - `Drawing` describes a table part-way through its draws;
  - `TableDraw` describes a finished table and its window of draws, `targets[lo..hi]`;
  - `DrawnInTurn` says the tables were drawn from consecutive windows.

Modules:
- `Stats`: exact column means, variances with N-1 normalisation, and sums.
- `Selection`: the cumulative-variance walk, and the ascending list of used dimensions.
- `Signature`: the `uint64_t` bit packing and its big-endian reference value.
- `Buckets`: the per-table `unordered_map` with its insert-if-absent rule, and the bucket probe.
- `Rerank`: distances, `sortIndices`, and the reordering done by `knn`.
- `Seqs`: shared sequence and set facts.
- `PkmLSH`: the class.

Inputs the model takes as parameters:
- **Random draws.** The random numbers of `buildHashes` (`random_device`, `mt19937`, `uniform_real_distribution(0, vSum)`) become a sequence `targets` of values in [0, vSum]. The values are consumed in order.
- **The library hash.** The hash that `unordered_map::bucket` reduces is a function `hash` given to the constructor. A key's slot is `hash(k) % 65535`.

## Model

| member | source | states |
|---|---|---|
| PkmLSH.LSH.constructor | pkmLSH/pkmLSH.h:127-136 | the index holds `n_tables` empty tables and no rows, hashes, means or prehash; `n_bits` defaults to 32; it is not built |
| PkmLSH.LSH.IsBuilt | pkmLSH/pkmLSH.h:171-173 | returns exactly the `initialized` flag (false after the constructor, true after `Initialize`, untouched by `Insert`) |
| PkmLSH.LSH.Initialize | pkmLSH/pkmLSH.h:148-169 | builds the hashes from the data, then appends every row in order (row i gets id old size + i and is stored by `StoreRows`), then marks the index built; the means are the data's column means; the tables are drawn in turn (`DrawnInTurn`), table t from the draws `targets[bounds[t]..bounds[t + 1]]`, and the ghost result `consumed` is the last bound; a table shorter than `n_bits` means every target was consumed; by `DrawnInTurnUnique` the targets determine the tables |
| PkmLSH.LSH.InsertRows | pkmLSH/pkmLSH.h:163-166 | inserting the rows of the dataset one after the other appends them all to the stored rows and leaves the tables equal to `StoreRows` of the old tables |
| PkmLSH.LSH.InsertNext | pkmLSH/pkmLSH.h:165 | one iteration of that loop advances the tables from `StoreRows` of i rows to `StoreRows` of i + 1 rows |
| PkmLSH.LSH.BuildHashes | pkmLSH/pkmLSH.h:243-295 | the means become the column means; there are `n_tables` tables; the tables are drawn in turn from consecutive windows of the targets: table t takes `targets[bounds[t]..bounds[t + 1]]` from `bounds[0] = 0`, and `consumed = bounds[n_tables]` is the number of draws taken. Each table satisfies `TableDraw` for its window: at most `n_bits` distinct columns, listed in the order they were first drawn; every draw in the window landed on the table; a full table stops at the draw that filled it; and a table has fewer than `n_bits` dimensions only if all the targets were consumed. By `DrawnInTurnUnique` this fixes the tables and the bounds given the targets; `prehash` grows by exactly the used dimensions, ascending; the stored rows and the hash maps are untouched |
| PkmLSH.DrawTables | pkmLSH/pkmLSH.h:260-284 | `n_tables` tables drawn in turn, each from where the previous one stopped (`DrawnInTurn`); `used[d]` is 1 exactly for the dimensions some table uses |
| PkmLSH.DrawTable | pkmLSH/pkmLSH.h:262-284 | one table is `TableDraw` of its window `targets[start..next]`: at most `n_bits` columns, none twice, in order of first draw; every draw in the window landed on the table; it is short only when the targets ran out, and when full it stops at the draw that filled it; afterwards `used[d]` is 1 exactly for the dimensions some table (this one included) uses |
| PkmLSH.DrawDims | pkmLSH/pkmLSH.h:263-278 | the rejection loop yields `TableDraw` of its window, and `used[d]` is 2 exactly for the table's dimensions; other entries are unchanged |
| PkmLSH.MarkFinished | pkmLSH/pkmLSH.h:279-282 | marking a duplicate-free table turns its 2s into 1s, so `used[d]` is 1 exactly for the dimensions of the finished tables |
| PkmLSH.Drawing | pkmLSH/pkmLSH.h:262-279 | definition: a table part-way through its draws from `targets[lo..hi]`: at most `n_bits` distinct columns in order of first draw, every draw landed on it, and a full table's last draw is the first draw of its last dimension |
| PkmLSH.TableDraw | pkmLSH/pkmLSH.h:262-284 | definition: a finished table, `Drawing` and short only when the targets ran out; `TableDrawUnique` shows it is determined by `lo` |
| PkmLSH.DrawnInTurn | pkmLSH/pkmLSH.h:260-285 | definition: the tables are `TableDraw`s of consecutive windows `targets[bounds[t]..bounds[t + 1]]` from `bounds[0] = 0` |
| PkmLSH.TableDrawStopsFirst | pkmLSH/pkmLSH.h:263-278 | of two draws of a table from the same start, neither runs past the point where the other stops |
| PkmLSH.TableDrawUnique | pkmLSH/pkmLSH.h:263-284 | the draws from a given start determine the table, in order, and where its drawing stops: the rejection loop is modelled exactly |
| PkmLSH.DrawnInTurnAgree | pkmLSH/pkmLSH.h:260-285 | two families of tables drawn in turn from the same targets agree on their first n tables and bounds |
| PkmLSH.DrawnInTurnUnique | pkmLSH/pkmLSH.h:260-285 | the targets determine every table of `buildHashes` and every window of draws |
| PkmLSH.DrawingStep | pkmLSH/pkmLSH.h:263-278 | one more draw into a table that is not full appends a dimension not yet in the table and skips a repeat, and the table stays `Drawing` |
| PkmLSH.DrawnInTurnSnoc | pkmLSH/pkmLSH.h:260-284 | a table drawn from where the previous one stopped extends the tables drawn in turn |
| PkmLSH.DrawnInTurnWell | pkmLSH/pkmLSH.h:260-284 | tables drawn in turn are well drawn: each dimension is a column that some target picks |
| PkmLSH.ShortTableEndsDraws | pkmLSH/pkmLSH.h:260-284 | once a table is short of `n_bits` the targets are used up: every later table is empty, the last bound is the number of targets, and an empty table drew nothing |
| Selection.LandsIn | pkmLSH/pkmLSH.h:263-278 | definition: every draw of a window picks a dimension of the table |
| Selection.FirstDrawn | pkmLSH/pkmLSH.h:263-278 | definition: entry j of the table is picked by a draw before which every draw landed on the first j entries |
| Selection.InDrawOrder | pkmLSH/pkmLSH.h:263-278 | definition: every entry of the table is first drawn in that sense, so entries are listed in order of first draw, as `push_back` at 276 does |
| Selection.PickUnique | pkmLSH/pkmLSH.h:265-272 | the walk picks one dimension per target |
| Selection.FirstDrawIndex | pkmLSH/pkmLSH.h:263-278 | the draw at which an entry was first drawn lies in the window and every earlier draw landed on the entries before it |
| Selection.InDrawOrderWithin | pkmLSH/pkmLSH.h:263-278 | every dimension drawn in a window lies in any table on which that window's draws, or a longer window's, land |
| Selection.FirstDrawsMeet | pkmLSH/pkmLSH.h:263-278 | with the first j entries shared, entry j of one table cannot be first drawn before the other table's entry j |
| Selection.InDrawOrderSame | pkmLSH/pkmLSH.h:263-278 | two duplicate-free tables in order of first draw from one window agree entry by entry |
| Selection.LandsInStep | pkmLSH/pkmLSH.h:263-278 | a draw that picks a dimension of the grown table keeps every draw of the window landing on it |
| Selection.InDrawOrderWiden | pkmLSH/pkmLSH.h:263-278 | later draws leave the order of first draws unchanged |
| Selection.InDrawOrderStep | pkmLSH/pkmLSH.h:263-278 | a draw that picks a new dimension appends it after the dimensions drawn before it |
| Selection.InDrawOrderDrawn | pkmLSH/pkmLSH.h:263-278 | every dimension listed in draw order is picked by a draw of the window |
| Selection.EmptyWindowDrawsNothing | pkmLSH/pkmLSH.h:263-278 | a window with no draws lists no dimension |
| PkmLSH.DrawnTablesFitColumns | pkmLSH/pkmLSH.h:263-279 | a well-drawn table has at most as many dimensions as there are columns |
| PkmLSH.UsedDimensions | pkmLSH/pkmLSH.h:288-294 | the final loop appends to `prehash` the dimensions marked as used, ascending |
| PkmLSH.PrehashCovers | pkmLSH/pkmLSH.h:288-294 | the appended dimensions are columns, and every dimension of every table is in `prehash` |
| PkmLSH.AboveMeanBits | pkmLSH/pkmLSH.h:300-305 | `tmp[d]` is the bit `p[d] > means[d]` for every dimension of `prehash` |
| PkmLSH.PackTable | pkmLSH/pkmLSH.h:308-311 | folding a table's bits by shifting each into the accumulator yields the packing of the table's above-mean bits |
| PkmLSH.PackTables | pkmLSH/pkmLSH.h:306-312 | the per-table loop yields one packed signature per table |
| PkmLSH.LSH.GetHashes | pkmLSH/pkmLSH.h:298-314 | the result is the signature of `p` in every table |
| Signature.AboveMean | pkmLSH/pkmLSH.h:302-305 | one bit per listed dimension, whether the row is above the column mean there |
| Signature.Signatures | pkmLSH/pkmLSH.h:298-314 | one `uint64_t` value per table, the packing of the table's above-mean bits |
| Signature.ShiftIn | pkmLSH/pkmLSH.h:310 | a `uint64_t` shift-in stays below 2^64 and its low bit is the new bit |
| Signature.Pack | pkmLSH/pkmLSH.h:308-311 | the packed accumulator is a `uint64_t` value |
| Signature.PackIsWeightModulo | pkmLSH/pkmLSH.h:308-311 | the packed value is the big-endian value of the bits, first dimension most significant, reduced modulo 2^64 |
| Signature.PackIsWeight | pkmLSH/pkmLSH.h:308-311 | with at most 64 bits the packed value is exactly the big-endian value, below 2^(number of bits) |
| Signature.WeightBound | pkmLSH/pkmLSH.h:308-311 | the big-endian value of k bits is below 2^k |
| Signature.WeightInjective | pkmLSH/pkmLSH.h:308-311 | bit strings of one length have equal big-endian values if and only if they are equal |
| Signature.PackInjective | pkmLSH/pkmLSH.h:308-311 | with at most 64 bits, packings agree if and only if the bit strings agree |
| Signature.SignatureValue | pkmLSH/pkmLSH.h:298-314 | a table of at most 64 dimensions gives the big-endian value of its bits, below 2^(table size) |
| Signature.SameSignatureIffSameSides | pkmLSH/pkmLSH.h:298-314 | two rows share a table's signature if and only if they lie on the same side of the mean in every dimension of that table |
| PkmLSH.LSH.Insert | pkmLSH/pkmLSH.h:226-233 | each table stores the new id (the old number of rows) under the row's signature, unless that signature is already present; the row is appended; nothing else changes |
| Buckets.Put | pkmLSH/pkmLSH.h:230 | `unordered_map::insert` adds the key; an existing entry keeps its id; no other entry changes |
| Buckets.PutAll | pkmLSH/pkmLSH.h:229-231 | storing into every table keeps the number of tables |
| Buckets.Slot | pkmLSH/pkmLSH.h:332 | a key's bucket is one of the 65535 requested buckets |
| Buckets.SlotKeys | pkmLSH/pkmLSH.h:333 | the keys walked in a bucket are keys of the table |
| Buckets.Ids | pkmLSH/pkmLSH.h:333-336 | definition: the ids a table holds under a set of keys, each key's `second`; `AddBucket` collects them one key at a time |
| Buckets.Probe | pkmLSH/pkmLSH.h:332-336 | definition: the ids under every key in the slot of the query key, the whole bucket and not only the exact key |
| Buckets.CandidatesUpTo | pkmLSH/pkmLSH.h:330-337 | definition: the union of the bucket probes of the first n tables, each with its own signature |
| Buckets.Candidates | pkmLSH/pkmLSH.h:330-337 | definition: that union over all tables, the content of `unique_values`; soundness and completeness in `CandidatesSound` and `CandidatesComplete` |
| Buckets.PutAllIdsBelow | pkmLSH/pkmLSH.h:229-232 | after an insert, every stored id is below the new number of rows |
| Buckets.PutKeepsProbe | pkmLSH/pkmLSH.h:230 | an insert removes no id from any bucket |
| Buckets.PutAllKeepsCandidates | pkmLSH/pkmLSH.h:226-233 | after an insert, any query still finds every candidate it found before |
| Buckets.PutAllRetrieves | pkmLSH/pkmLSH.h:226-233 | right after an insert, the row's own signature is in every table; the entry is the new id if the signature was new and the old id otherwise; that id is a candidate of a query with the same signatures |
| PkmLSH.StoreRows | pkmLSH/pkmLSH.h:163-166 | storing rows keeps the number of tables |
| PkmLSH.StoreRowsIdsBelow | pkmLSH/pkmLSH.h:163-166 | after storing n rows from id f on, every id is below f + n |
| PkmLSH.StoreRowsKeepsSignature | pkmLSH/pkmLSH.h:163-166 | after storing n rows, every table holds the signature of each row i < n, under an id no later than row i's own |
| PkmLSH.StoredRowRetrieved | pkmLSH/pkmLSH.h:163-166 | a stored row queried by its own signatures finds the entry under its signature in every table, an id no later than its own |
| PkmLSH.StoreRowsKeepsAbsent | pkmLSH/pkmLSH.h:163-166 | a signature absent from a table and carried by none of the stored rows there stays absent |
| PkmLSH.StoreRowsFirstKeepsOwnId | pkmLSH/pkmLSH.h:163-166 | the first row stored with a given signature in a table keeps its own id under that signature, whatever rows follow |
| PkmLSH.StoredRowRetrievesOwnId | pkmLSH/pkmLSH.h:163-166 | a row that was the first with its signature in some table is returned under its own id by a query with its own signatures |
| PkmLSH.AddBucket | pkmLSH/pkmLSH.h:332-336 | walking one bucket adds exactly the ids of every key sharing the query key's slot |
| Buckets.CandidatesComplete | pkmLSH/pkmLSH.h:330-337 | every id stored under a key in the query's bucket of some table is a candidate |
| Buckets.OwnSignatureRetrieved | pkmLSH/pkmLSH.h:330-337 | an id stored under the query's own signature in some table is a candidate |
| Buckets.CandidatesSound | pkmLSH/pkmLSH.h:330-337 | every candidate is stored, in some table, under a key in the query's bucket of that table |
| Buckets.CandidatesBelow | pkmLSH/pkmLSH.h:330-337 | candidates are bounded like the stored ids |
| PkmLSH.InOrder | pkmLSH/pkmLSH.h:339-343 | a traversal of a `std::set` yields its elements in ascending order |
| Seqs.AscendingSpec | pkmLSH/pkmLSH.h:339-343 | that ascending sequence is strictly increasing, has the set's size, and holds exactly the set's elements |
| PkmLSH.LSH.QueryResult | pkmLSH/pkmLSH.h:322-345 | every returned id names a stored row |
| PkmLSH.LSH.Query | pkmLSH/pkmLSH.h:322-345 | the result is strictly ascending (sorted, no repeats); an id is in it if and only if it is a candidate of the query's signatures; every id is below the number of rows |
| Rerank.SqDist | pkmLSH/pkmLSH.h:189-190 | definition of `dot(diff, diff)` for `diff = p - row`: the sum of the squared coordinate differences; properties in `SqDistNonNegative` and `SqDistSelf` |
| Rerank.Gather | pkmLSH/pkmLSH.h:193-196 | definition of `new_neighbors[i] = neighbors[range[i]]`; property in `GatherPermutation` |
| Rerank.SqDistNonNegative | pkmLSH/pkmLSH.h:189-190 | `dot(diff, diff)` is non-negative |
| Rerank.SqDistSelf | pkmLSH/pkmLSH.h:189-190 | a row is at squared distance 0 from itself |
| Rerank.Iota | pkmLSH/pkmLSH.h:362-364 | the index vector holds 0..n-1 in order |
| Rerank.SortIndices | pkmLSH/pkmLSH.h:361-371 | the indices are a permutation of 0..n-1, and the key read through them does not increase |
| Rerank.InsertIntoPrefix | pkmLSH/pkmLSH.h:367-370 | one sorting step keeps the indices a permutation and extends the non-increasing prefix by one |
| Rerank.GatherPermutation | pkmLSH/pkmLSH.h:193-196 | reading the candidates through a permutation of their positions gives a permutation of the candidates |
| Rerank.RankByDistance | pkmLSH/pkmLSH.h:183-197 | `dists[i]` is minus the squared distance of candidate i, in query order; the result is a permutation of the candidates with squared distance non-decreasing |
| Rerank.ExactMatchFirst | pkmLSH/pkmLSH.h:180-198 | if a ranked candidate equals the query, the first result is at distance 0 |
| PkmLSH.LSH.Knn | pkmLSH/pkmLSH.h:180-198 | the result is a permutation of the query's candidates, all stored rows, sorted by non-decreasing squared distance to `p` |
| PkmLSH.LSH.KnnWithDists | pkmLSH/pkmLSH.h:204-223 | as `Knn`; also `dists` keeps query order, with `dists[i]` equal to minus the squared distance of the i-th query result |
| Selection.Prefix | pkmLSH/pkmLSH.h:265-271 | definition: `sum_dist` standing at dimension k, the sum of the variances 0..k |
| Selection.IsPick | pkmLSH/pkmLSH.h:265-272 | definition of the stopping rule: d is the least dimension whose prefix sum reaches the target; `Walk` meets it and `PickInterval` characterises it |
| Selection.Walk | pkmLSH/pkmLSH.h:265-272 | for a target in [0, sum of variances], the walk stops at the least dimension whose prefix sum of variances reaches the target; a positive target never stops on a zero-variance dimension |
| Selection.PickInterval | pkmLSH/pkmLSH.h:265-272 | dimension d is picked exactly by the targets in (prefix(d-1), prefix(d)], an interval whose length is the variance of d, which makes the draw variance-weighted |
| Selection.PickPositive | pkmLSH/pkmLSH.h:265-272 | a positive target never picks a dimension of zero variance |
| Selection.Referenced | pkmLSH/pkmLSH.h:280-284 | definition of `used[d] == 1` after the tables so far: some finished table lists d |
| Selection.ReferencedBelow | pkmLSH/pkmLSH.h:288-294 | definition: the closed form of the `prehash` loop, the used dimensions below n in ascending order; properties in `ReferencedBelowSpec` |
| Selection.ReferencedIff | pkmLSH/pkmLSH.h:280-284 | a dimension is marked used if and only if some table lists it |
| Selection.ReferencedSnoc | pkmLSH/pkmLSH.h:280-284 | finishing a table adds exactly that table's dimensions to the used ones |
| Selection.ReferencedBelowSpec | pkmLSH/pkmLSH.h:288-294 | the dimensions appended to `prehash` are strictly ascending and are exactly the used dimensions below the column count |
| Seqs.ElementsCard | pkmLSH/pkmLSH.h:263-279 | a list has at most as many distinct elements as entries |
| Seqs.DistinctWithin | pkmLSH/pkmLSH.h:263-279 | pigeonhole: a duplicate-free list whose entries all occur in another list is no longer than it |
| Seqs.DistinctBelowLength | pkmLSH/pkmLSH.h:263-279 | a duplicate-free list of dimensions below n has at most n entries |
| Stats.Means | pkmLSH/pkmLSH.h:246 | `mean(mat_data)`: one value per column, the column sum divided by the number of rows |
| Stats.Variances | pkmLSH/pkmLSH.h:249 | `var(mat_data)`: one value per column, the sum of squared deviations from the column mean divided by N-1, and 0 for a single row |
| Stats.Sum | pkmLSH/pkmLSH.h:252 | definition of `sum(variances)`; non-negativity in `SumNonNegative` |
| Stats.VariancesNonNegative | pkmLSH/pkmLSH.h:249 | there is one variance per column, and each is non-negative |
| Stats.SquaredDeviationsNonNegative | pkmLSH/pkmLSH.h:249 | a column's sum of squared deviations is non-negative |
| Stats.SumNonNegative | pkmLSH/pkmLSH.h:252 | `vSum` of non-negative variances is non-negative |

## Left out

- Randomness. `random_device`, `mt19937` and `uniform_real_distribution` are replaced by the input sequence `targets`, each value in [0, vSum].
- BuildHashes: stops drawing once its targets run out, leaving the current table and every later one short of `n_bits`. The source draws forever. When `n_bits` exceeds the number of columns it never fills a table and never returns. When `n_bits` exceeds only the number of positive-variance columns it almost surely never returns: a draw of exactly 0.0 stops the walk at dimension 0 whatever its variance, so a zero-variance dimension 0 can still be drawn. When `n_bits` exceeds the number of columns, `DrawnTablesFitColumns` shows that every table ends short. `ShortTableEndsDraws` then shows that all targets are consumed and that every table after the first is empty.
- Floating point. The element type `T` is modelled as exact reals. Rounding, NaN and the `double`/`T` mix in the variance walk are not modelled. In the source, rounding could let the walk step past the last column; with exact reals and targets at most vSum it never does.
- Stats: `mean` and `var` are exact column formulas. `var` divides by N-1, and gives 0 for a single row.
- The `unordered_map` internals. The library hash is a parameter, and the bucket count is fixed at 65535. So the model leaves out the following:
  - `max_load_factor`;
  - the rounding up of `rehash(65535)` to a prime bucket count;
  - rehashing as tables grow.
- Integer widths. `n_tables` and `n_bits` are `uint32_t` and ids are `size_t`; all are modelled as unbounded naturals. The signature accumulator is the only place where a width matters, and it is modelled modulo 2^64.
- Calls before `initialize`. `GetHashes`, `Insert`, `InsertRows`, `Query`, `Knn` and `KnnWithDists` require `|hashes| == nTables`, which holds only after `BuildHashes` (or with no tables at all). The source accepts these calls at any time: `insert` does not look at `b_initialized`, and before `initialize` `getHashes` indexes `hashes[table_i]` of an empty vector, which is undefined behaviour. The model does not describe that behaviour.
- Undefined behaviour and exceptions. Where the source reads out of bounds or Armadillo throws, the model requires instead:
  - `data` is a non-empty, rectangular matrix with at least one column. The source reads `variances[0]` unchecked, which is undefined for no columns, and Armadillo's statistics of an empty matrix are not meaningful.
  - Every row given to `insert` or `query` reaches every dimension in `prehash` (`Accepts`). The source reads `p[hash_i]` and writes `tmp[hash_i]` with unchecked `operator[]`, so a shorter row is an out-of-bounds access, not an exception.
  - Every candidate row of `knn` has the query's width (`CandidateRowsMatch`). Armadillo's `p - original_data[...]` throws on mismatched sizes.
- Tie order. `std::sort` is not stable, so the order among candidates at equal distance is unspecified. The model proves only the sorted and permutation properties, which any tie order satisfies.
- ExactMatchFirst: states that the nearest result is at squared distance 0, not that it is the matching row itself. Another candidate at distance 0 could come first. Proving that distance 0 implies equal rows needs nonlinear real arithmetic that the solver does not discharge reliably.
- Repeated `initialize`. The source does not guard a second call. The model likewise appends to `prehash` and keeps the stored rows and tables. That behaviour is in `BuildHashes`' contract; nothing more about it is proved.
- The destructor and `main.cpp` (a demo driver with console output) are not part of this model.

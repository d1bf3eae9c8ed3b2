# yt point-combining kernels and FOF merger tree, modelled in Dafny

This project models two parts of yt, the volumetric data analysis toolkit:

- **The array kernels of `yt/lagos/PointCombine.c`.**
  - `Py_CombineGrids` merges a sparse list of integer-indexed source points into a destination point list at an integer refinement factor. It accumulates weights and values, combines masks, consumes matched source points and returns the number of matches.
  - `Py_Bin2DProfile` accumulates a two-dimensional weighted histogram in place.
  - `DataCubeGeneric`, with its two transfer rules `dcRefine` and `dcReplace` and the wrappers `Py_DataCubeRefine` and `Py_DataCubeReplace`, copies values between a three-dimensional grid and an overlapping uniform cube. It returns the number of transfers.
- **The core of the Enzo friends-of-friends merger tree in `yt/analysis_modules/halo_merger_tree/enzofof_merger_tree.py`.**
  - `MaxLengthDict` is a dictionary with a 50-slot recency list.
  - `EnzoFOFMergerBranch` picks the children and the progenitor of one halo.
  - The part of `EnzoFOFMergerTree` that builds the tree:
    - `find_outputs` with a cycle range;
    - `build_tree`;
    - `generate_tree`;
    - `filter_small_halos`;
    - `get_massive_progenitors`.

## Dafny modules

**`Outcomes`** (`outcomes.dfy`) holds the shared `Result` and `Option` types.

**`CombineGrids`** (`combine_grids.dfy`)
- A `PointSet` class holds each side's buffers as arrays. The value lists are one `array2<real>`, with row k holding quantity k.
- The nested loops are the methods `Merge`, `MergeSource`, `ScanColumn` and `ScanDestinations`. Each is proved against ghost functions over the coordinates as they stand when the merge starts:
  - `FedSet`: the destinations a source point feeds;
  - `FoundBefore`: the match count;
  - `WgtSum`, `ValSum` and `MaskAfter`: the accumulated updates.
- Lemmas state what the source promises about those functions.

**`Bin2DProfile`** (`bin2d_profile.dfy`)
- The histogram tables are `array2<real>` updated in place.
- The loop is `Accumulate`, proved against the bin sums `BinSum` and the bin counts `BinCount`. Its invariant is the predicate `Binned`: the tables hold their starting contents plus the first n entries. `BinnedStep` moves it past one entry.

**`DataCube`** (`data_cube.dfy`)
- The six nested loops are the methods `Walk`, `WalkPlane`, `WalkRow`, `VisitCell`, `TransferBox`, `TransferPlane` and `TransferRow`, over `array3<real>` buffers.
- The loop invariant says what the walk has left in the buffers at each position `(x, y, z)`:
  - for Refine, each cube cell holds the value of the last grid cell so far that covers it;
  - for Replace, each grid cell holds the value of the last cube cell it transferred with.
- `TotalBefore` counts the transfers made so far.

**`HaloRelations`** (`halo_relations.dfy`) holds the pure rules of the merger tree:
- sorted keys;
- the children and progenitor selection of a branch;
- the particle filter;
- de-duplication of child halos;
- the cycle-range filter;
- descending order.

**`MaxLengthDicts`** (`max_length_dict.dfy`)
- The dictionary as a value (`Dict`), with one specification function per operation.
- A class `MaxLengthDict` whose methods update the `order` and `entries` fields.

**`MergerTree`** (`merger_tree.dfy`)
- The classes `Branch` and `MergerTree`.
- `MergerTree` has fields `numbers`, `outputNumbers`, `levels` and `halonum`, which its methods reassign. The relationships and redshifts are given.
- `Grown` states what one level of the tree is, in terms of the level before it.

Halo keys are integers. The source skips every relationship key whose text is not all digits (`str(k).isdigit()`). That is the `"NumberOfParticles"` entry, whose value the model keeps separately as `Node.npart`, and any negative halo number. The model tests this with `IsDigitKey(k)`, which holds when `k >= 0`.

## Model

| member | source | states |
|---|---|---|
| Bin2DProfile.CheckProfile | yt/lagos/PointCombine.c:284-347 | The checks pass exactly when bins_y, wsource and bsource have the size of bins_x and bresult and used have the size and first dimension of wresult. The bins_y error is reported exactly when bins_y's size differs. The used error is reported only when every earlier check passes. |
| Bin2DProfile.AddEntry | yt/lagos/PointCombine.c:353-359 | The entry's bin gains its weight in wresult and weight times value in bresult, and its used flag becomes 1.0. Every other cell of the three tables is unchanged. Tables holding the first n entries then hold the first n + 1. |
| Bin2DProfile.BinnedStep | yt/lagos/PointCombine.c:352-360 | Adding entry n to its bin, and nothing elsewhere, turns tables holding the first n entries into tables holding the first n + 1. |
| Bin2DProfile.Accumulate | yt/lagos/PointCombine.c:352-360 | After the pass over all entries, each bin holds its old weight plus the weights of its entries, its old weighted sum plus their weight-times-value products, and the flag 1.0 exactly when some entry falls into it (its old flag otherwise). |
| Bin2DProfile.Bin2DProfile | yt/lagos/PointCombine.c:284-371 | A failed check returns that check's error and changes no table. Otherwise the result is 1. Each bin gains the sum of the weights of its entries, and the sum of weight times value. Its flag is 1.0 when some entry falls into it and keeps its old value otherwise. |
| Bin2DProfile.BinCountPositive | yt/lagos/PointCombine.c:352-360 | A bin's entry count is positive exactly when some entry falls into it, so `used` is set exactly at the touched bins. |
| Bin2DProfile.UntouchedBinUnchanged | yt/lagos/PointCombine.c:352-360 | A bin no entry falls into gains nothing. |
| Bin2DProfile.UniformValue | yt/lagos/PointCombine.c:355-358 | When every entry of a bin carries the same value v, the bresult gain is v times the wresult gain, so their quotient is the weighted mean v. |
| Bin2DProfile.BinSumPrefix | yt/lagos/PointCombine.c:352-360 | A bin's sum over the first n entries ignores the entries after them. |
| Bin2DProfile.BinSumAppend | yt/lagos/PointCombine.c:352-360 | Accumulating two batches of entries in turn gives each bin the sum over both batches. |
| Bin2DProfile.SameShapeDims | yt/lagos/PointCombine.c:332-333 | Two tables of equal size and equal, positive first dimension have equal second dimensions. |
| CombineGrids.CheckShapes | yt/lagos/PointCombine.c:76-143 | The checks pass exactly when every buffer of a side has the length of its x buffer and both value lists have the same positive length; that length is the result. The src_y error is reported exactly when src_y's length differs. The dst_wgt error is reported only after the earlier checks pass. The empty-list error is reported only for fewer than one value array, and the list-length error only for differing counts. |
| CombineGrids.MergeMask | yt/lagos/PointCombine.c:199-200 | The new mask is 0 or 1. At factor 1 it is 1 exactly when both masks are nonzero. At any other factor it is 1 exactly when the destination mask is nonzero. |
| CombineGrids.AddValues | yt/lagos/PointCombine.c:204-206 | Every quantity of destination di gains the source's value; no other value changes. |
| CombineGrids.MergePoint | yt/lagos/PointCombine.c:197-206 | Only destination di changes. Its weight gains `src_wgt[di]`, the source weight at the destination's index. Its mask follows MergeMask, and every value gains the source's. Source si's x becomes -1, and no other source x changes. |
| CombineGrids.ScanDestinations | yt/lagos/PointCombine.c:193-209 | The destinations that gain the source's contribution are exactly the live ones at the fine cell; at factor 1 only the first of them. The result counts them. The source is consumed exactly when the count is positive. |
| CombineGrids.ScanColumn | yt/lagos/PointCombine.c:190-210 | One column of the source's block feeds exactly the destinations its fine cells match, each once, and the result counts them. |
| CombineGrids.MergeSource | yt/lagos/PointCombine.c:186-211 | A source point feeds exactly `FedSet`, its block's matches; a consumed source feeds nothing. The result is the number of matches. The source is consumed exactly when that number is positive. |
| CombineGrids.Merge | yt/lagos/PointCombine.c:185-212 | After all source points: the count is the total number of matches. Each destination's weight, mask and values are its old ones plus the contributions of the sources that feed it. Each source that feeds something is consumed and the others keep their x. |
| CombineGrids.CombineGrids | yt/lagos/PointCombine.c:76-237 | A failed check returns that check's error before any buffer changes. Otherwise the result is the number of matches, and the buffers are as Merge states. |
| CombineGrids.SameLevelFeedsOne | yt/lagos/PointCombine.c:193-207 | At factor 1 a source point feeds at most one destination, because the scan stops at the first live match. |
| CombineGrids.SameLevelCount | yt/lagos/PointCombine.c:185-207 | At factor 1 the match count of the first n source points is at most n. |
| CombineGrids.WeightGain | yt/lagos/PointCombine.c:198 | A destination's weight gain is its number of matches times `src_wgt` at the destination's own index. |
| CombineGrids.CrossLevelMask | yt/lagos/PointCombine.c:199-200 | At factor above 1, a matched destination ends with mask 1 exactly when its mask was nonzero. An unmatched one keeps its mask. |
| CombineGrids.SameLevelMask | yt/lagos/PointCombine.c:199-200 | At factor 1, a matched destination ends with mask 1 exactly when its own mask and the mask of every source matched to it were nonzero. |
| CombineGrids.NoHitsBelow | yt/lagos/PointCombine.c:193-196 | A destination has no match among the first n sources exactly when none of them feeds it. |
| CombineGrids.DeadDestination | yt/lagos/PointCombine.c:193-194 | A destination with negative x is never matched, so its weight, mask and values gain nothing. |
| CombineGrids.ConsumedSourceFeedsNothing | yt/lagos/PointCombine.c:186 | A source with negative x feeds nothing. |
| CombineGrids.RefinedExample | yt/lagos/PointCombine.c:187-206 | At factor 2, one source point feeds all four destinations in its block, because consuming it does not stop the scan. |
| CombineGrids.SameLevelDuplicateExample | yt/lagos/PointCombine.c:207 | At factor 1, of two live destinations at the same cell only the first is matched. |
| DataCube.CheckGeometry | yt/lagos/PointCombine.c:424-490 | The checks pass exactly when all five edge and spacing vectors hold three values. The g_le error is reported exactly when g_le does not. The c_dx error is reported only after the other four pass. |
| DataCube.Ceil | yt/lagos/PointCombine.c:518 | The result is the least integer at or above its argument. |
| DataCube.AxisSpan | yt/lagos/PointCombine.c:515-518 | A cell spans the cube on an axis exactly when its lower edge is at most the cube's right edge and its upper edge at least its left edge. The clamped range lies in [0, dim]. |
| DataCube.AxisSpanExact | yt/lagos/PointCombine.c:515-518 | With a positive cube spacing, the range holds exactly the cube cells inside the cube whose interval overlaps the grid cell's. |
| DataCube.VolumeIsProduct | yt/lagos/PointCombine.c:531-533 | A box holds the product of its three widths in cells. |
| DataCube.CellBox | yt/lagos/PointCombine.c:514-530 | A grid cell gets a box exactly when it is kept (ll set or nonzero child mask) and spans the cube on all three axes. The box lies inside the cube. |
| DataCube.Transfer | yt/lagos/PointCombine.c:261-267 | Refine sets exactly the one cube cell to the grid value and leaves the grid alone. Replace sets exactly the one grid cell to the cube value and leaves the cube alone. |
| DataCube.TransferRow | yt/lagos/PointCombine.c:533-537 | The row's cube cells take the grid value (Refine), or the grid cell takes the value of the row's last cube cell (Replace). The count is the row's width. |
| DataCube.TransferPlane | yt/lagos/PointCombine.c:532-538 | The same for a plane of the box. The count is the product of its widths. |
| DataCube.TransferBox | yt/lagos/PointCombine.c:531-538 | The same for the whole box. The count is its volume. |
| DataCube.VisitCell | yt/lagos/PointCombine.c:523-538 | One grid cell makes `Visits` transfers. Under Refine it writes exactly the cube cells it covers. Under Replace it takes the value of its last covered cube cell. |
| DataCube.WalkRow | yt/lagos/PointCombine.c:522-539 | One grid row moves the walk's invariant and its running total past the row. |
| DataCube.WalkPlane | yt/lagos/PointCombine.c:519-540 | One grid plane moves the walk past it; rows whose y range misses the cube are skipped. |
| DataCube.Walk | yt/lagos/PointCombine.c:514-541 | The whole grid in x, y, z order. The total is the number of transfers made. |
| DataCube.RowSkipped | yt/lagos/PointCombine.c:520-521 | Skipping a row whose x or y range misses the cube changes no buffer and no count. |
| DataCube.PlaneSkipped | yt/lagos/PointCombine.c:515-516 | Skipping a plane whose x range misses the cube changes no buffer and no count. |
| DataCube.LastBeforeIsLatest | yt/lagos/PointCombine.c:514-541 | The grid cell whose value Refine leaves in a cube cell covers it and comes after every other covering cell in walk order: the last visit wins. When there is none, no cell covers it. |
| DataCube.RefineFinished | yt/lagos/PointCombine.c:514-541 | A finished Refine walk leaves each cube cell the old value of the last grid cell covering it, or its own old value when none does. |
| DataCube.ReplaceFinished | yt/lagos/PointCombine.c:514-541 | A finished Replace walk leaves each transferring grid cell the old value of the last cube cell of its box. Every other grid cell keeps its value. |
| DataCube.DataCubeGeneric | yt/lagos/PointCombine.c:387-570 | The call fails exactly when a vector does not hold three values, and then changes nothing. Otherwise the result is the number of transfers, and the buffers are refined or replaced as above. |
| DataCube.DataCubeRefine | yt/lagos/PointCombine.c:572-577 | DataCubeGeneric with the Refine rule: the cube is refined. |
| DataCube.DataCubeReplace | yt/lagos/PointCombine.c:579-584 | DataCubeGeneric with the Replace rule: the grid is replaced. |
| DataCube.VisitsPositive | yt/lagos/PointCombine.c:531-538 | A grid cell adds to the total exactly when its box holds a cube cell. Every cube cell it covers lies inside the cube. |
| DataCube.NoTransfers | yt/lagos/PointCombine.c:514-556 | The returned total is 0 exactly when no grid cell transfers. |
| HaloRelations.Enumerate | yt/analysis_modules/halo_merger_tree/enzofof_merger_tree.py:183 | sorted() of a key set has one element per key. |
| HaloRelations.EnumerateMembers | yt/analysis_modules/halo_merger_tree/enzofof_merger_tree.py:183 | The sorted keys are exactly the set's keys. |
| HaloRelations.EnumerateIncreasing | yt/analysis_modules/halo_merger_tree/enzofof_merger_tree.py:183 | The sorted keys strictly increase. |
| HaloRelations.InsertAscending | yt/analysis_modules/halo_merger_tree/enzofof_merger_tree.py:266 | Inserting into an ascending list keeps it ascending. |
| HaloRelations.SortedOf | yt/analysis_modules/halo_merger_tree/enzofof_merger_tree.py:266 | Sorting gives an ascending permutation of the list. |
| HaloRelations.SortedDistinct | yt/analysis_modules/halo_merger_tree/enzofof_merger_tree.py:266 | Sorting a list without repeats gives a strictly increasing list. |
| HaloRelations.TakeSpec | yt/analysis_modules/halo_merger_tree/enzofof_merger_tree.py:187-189 | Capping a list keeps only its elements. A capped list shorter than the cap is the whole list. |
| HaloRelations.TakeAppend | yt/analysis_modules/halo_merger_tree/enzofof_merger_tree.py:187-189 | Appending a candidate adds it exactly when the cap has not been reached; otherwise the list is unchanged. |
| HaloRelations.QualifyingMembers | yt/analysis_modules/halo_merger_tree/enzofof_merger_tree.py:184-189 | The qualifying entries are exactly the digit keys with a share above min_relation. Each is the tuple (k, v[1], v[2]). |
| HaloRelations.QualifyingIncreasing | yt/analysis_modules/halo_merger_tree/enzofof_merger_tree.py:183-189 | Visiting keys in increasing order gives children in increasing halo order. |
| HaloRelations.ChildrenQualify | yt/analysis_modules/halo_merger_tree/enzofof_merger_tree.py:183-189 | A branch has at most max_children children, and each is a qualifying entry (k, v[1], v[2]). |
| HaloRelations.ChildrenIncreasing | yt/analysis_modules/halo_merger_tree/enzofof_merger_tree.py:183-189 | The children come in increasing key order. |
| HaloRelations.ChildrenComplete | yt/analysis_modules/halo_merger_tree/enzofof_merger_tree.py:187-189 | A branch with fewer than max_children children took every qualifying entry. |
| HaloRelations.LeaderIsFirstMaximum | yt/analysis_modules/halo_merger_tree/enzofof_merger_tree.py:180-192 | The progenitor is -1 exactly when no child has a positive share. Otherwise it is the first child with the largest share, because the comparison is strict. |
| HaloRelations.ProgenitorIffChildren | yt/analysis_modules/halo_merger_tree/enzofof_merger_tree.py:180-192 | With a non-negative min_relation, a branch has a progenitor exactly when it has children. |
| HaloRelations.Heavy | yt/analysis_modules/halo_merger_tree/enzofof_merger_tree.py:305-309 | The filtered children are exactly those with more than min_particles particles. |
| HaloRelations.HeavyAppend | yt/analysis_modules/halo_merger_tree/enzofof_merger_tree.py:306-308 | Filtering keeps the order: the filter of a concatenation is the concatenation of the filters. |
| HaloRelations.HeavyIdempotent | yt/analysis_modules/halo_merger_tree/enzofof_merger_tree.py:302-309 | Filtering twice is filtering once. |
| HaloRelations.FirstOccurrencesSpec | yt/analysis_modules/halo_merger_tree/enzofof_merger_tree.py:317-325 | The halos taken through `this_halos` have no repeats and are exactly the child halos met. |
| HaloRelations.FirstOccurrencesOrder | yt/analysis_modules/halo_merger_tree/enzofof_merger_tree.py:317-325 | Halos keep the order of their first appearance. |
| HaloRelations.InRange | yt/analysis_modules/halo_merger_tree/enzofof_merger_tree.py:263-265 | The kept numbers are exactly the file numbers within the cycle range, inclusive, taken from the file list. |
| HaloRelations.DescendingSpec | yt/analysis_modules/halo_merger_tree/enzofof_merger_tree.py:349 | sorted(numbers, reverse=True) holds the same numbers, largest first. |
| HaloRelations.DescendingDistinct | yt/analysis_modules/halo_merger_tree/enzofof_merger_tree.py:349 | Without repeats the descending order is strict. |
| MaxLengthDicts.IndexOf | yt/analysis_modules/halo_merger_tree/enzofof_merger_tree.py:71 | `list.index` finds the first occurrence. |
| MaxLengthDicts.RemoveAt | yt/analysis_modules/halo_merger_tree/enzofof_merger_tree.py:64 | `list.pop(i)` removes exactly element i and keeps the others in order. |
| MaxLengthDicts.RemoveAtMultiset | yt/analysis_modules/halo_merger_tree/enzofof_merger_tree.py:77 | Popping removes one copy of the element. |
| MaxLengthDicts.Empty | yt/analysis_modules/halo_merger_tree/enzofof_merger_tree.py:58-60 | A new dictionary meets the invariant (every key with an entry is listed in `order`) with exactly 50 slots, lists no key and holds no entry. |
| MaxLengthDicts.EvictSpec | yt/analysis_modules/halo_merger_tree/enzofof_merger_tree.py:65 | `pop(to_remove, None)`: a key keeps its entry exactly when it is not the slot's key, every kept entry keeps its value, and (Evict's own ensures) no key is added. |
| MaxLengthDicts.StoredSpec | yt/analysis_modules/halo_merger_tree/enzofof_merger_tree.py:62-67 | After setting a key, the key maps to the value. For a key `order` does not list, `order` keeps its length and only the front slot's key loses its entry. For a listed key, `order` grows by one, no entry is lost, and every other entry keeps its value. |
| MaxLengthDicts.TouchedSpec | yt/analysis_modules/halo_merger_tree/enzofof_merger_tree.py:69-73 | Reading moves a listed key to the end of `order`, keeping its length, its contents and every entry. |
| MaxLengthDicts.DeletedSpec | yt/analysis_modules/halo_merger_tree/enzofof_merger_tree.py:75-78 | Deleting removes the entry and one occurrence of the key from `order`, and puts an empty slot in front, keeping the length. |
| MaxLengthDicts.EntriesBounded | yt/analysis_modules/halo_merger_tree/enzofof_merger_tree.py:60 | While `order` has exactly its 50 slots, the dictionary holds at most 50 entries. |
| MaxLengthDicts.Overfilled | yt/analysis_modules/halo_merger_tree/enzofof_merger_tree.py:62-67 | As written: setting key 0 twice, then keys 1 to 51, leaves 51 entries, more than the 50 slots. |
| MaxLengthDicts.StoredOnceBounded | yt/analysis_modules/halo_merger_tree/enzofof_merger_tree.py:62-67 | Corrected: when a listed key is moved to the end instead of appended again, `order` keeps 50 slots, at most 50 entries remain, and the key maps to the value. |
| MaxLengthDicts.MaxLengthDict.constructor | yt/analysis_modules/halo_merger_tree/enzofof_merger_tree.py:58-60 | The new dictionary is empty with 50 empty slots. |
| MaxLengthDicts.MaxLengthDict.Set | yt/analysis_modules/halo_merger_tree/enzofof_merger_tree.py:62-67 | The new state is `Stored` of the old, and the invariant that every key with an entry is listed is kept. |
| MaxLengthDicts.MaxLengthDict.Get | yt/analysis_modules/halo_merger_tree/enzofof_merger_tree.py:69-73 | A listed key moves to the end of `order`. A key with an entry returns its value, and one without raises KeyError. |
| MaxLengthDicts.MaxLengthDict.Delete | yt/analysis_modules/halo_merger_tree/enzofof_merger_tree.py:75-78 | A missing key raises KeyError and changes nothing. Otherwise the new state is `Deleted` of the old, and the lookup in `order` cannot fail. |
| MergerTree.Branch.constructor | yt/analysis_modules/halo_merger_tree/enzofof_merger_tree.py:173-192 | The branch records its output, halo and particle count. Its children are `Children` of the halo's links, and its progenitor is `Leader` of the children. |
| MergerTree.GrownLevel | yt/analysis_modules/halo_merger_tree/enzofof_merger_tree.py:313-326 | A grown level has no halo twice, is empty when the output has no relationships, and holds only child halos of the previous level. |
| MergerTree.GrownCovers | yt/analysis_modules/halo_merger_tree/enzofof_merger_tree.py:317-325 | When the output has relationships, every child halo of the previous level has a branch in the grown level. |
| MergerTree.MostMassive | yt/analysis_modules/halo_merger_tree/enzofof_merger_tree.py:356-362 | The step goes to a digit key whose share exceeds both min_relation and 0 (`max_rel` starts at 0.0), and is largest among such keys. With no such key the halo stays. |
| MergerTree.WalkMatchesProgenitor | yt/analysis_modules/halo_merger_tree/enzofof_merger_tree.py:356-362 | When a branch had room for every qualifying link and one exists, the walk's step is one of the branch's children and has the progenitor's share. |
| MergerTree.WalkedStep | yt/analysis_modules/halo_merger_tree/enzofof_merger_tree.py:349-362 | Appending one output's redshift, cycle and halo, then stepping, extends a walk. |
| MergerTree.Latest | yt/analysis_modules/halo_merger_tree/enzofof_merger_tree.py:295 | `sorted(relationships, reverse=True)` lists exactly the outputs with relationships. |
| MergerTree.LatestSpec | yt/analysis_modules/halo_merger_tree/enzofof_merger_tree.py:295 | Those outputs come in strictly decreasing order, each once. |
| MergerTree.MergerTree.constructor | yt/analysis_modules/halo_merger_tree/enzofof_merger_tree.py:226-228 | The tree keeps the given relationships and redshifts. `numbers` is the sorted list of file numbers in the cycle range. |
| MergerTree.MergerTree.FindOutputs | yt/analysis_modules/halo_merger_tree/enzofof_merger_tree.py:249-266 | `numbers` becomes ascending and holds exactly the file numbers within the cycle range, as a permutation of those kept. No other field changes. |
| MergerTree.MergerTree.FilterSmallHalos | yt/analysis_modules/halo_merger_tree/enzofof_merger_tree.py:302-309 | Every branch of the level keeps exactly its children with more than min_particles particles, in their order. |
| MergerTree.MergerTree.NextLevel | yt/analysis_modules/halo_merger_tree/enzofof_merger_tree.py:314-325 | The level holds new branches, one per distinct child halo of the previous level, in first-met order. It holds none when the output has no relationships. |
| MergerTree.MergerTree.BranchChildren | yt/analysis_modules/halo_merger_tree/enzofof_merger_tree.py:318-325 | One branch's children add a new branch exactly for each halo not yet in `this_halos`, and none when the output has no relationships. |
| MergerTree.MergerTree.Adopt | yt/analysis_modules/halo_merger_tree/enzofof_merger_tree.py:322-323 | The new branch is built for the given halo of the output. |
| MergerTree.MergerTree.GrowLevel | yt/analysis_modules/halo_merger_tree/enzofof_merger_tree.py:313-326 | One pass sets exactly `levels[this]`, to new branches grown from `levels[prev]` and pruned. |
| MergerTree.MergerTree.GrowNext | yt/analysis_modules/halo_merger_tree/enzofof_merger_tree.py:313-326 | One pass keeps every earlier level grown and adds the next one. |
| MergerTree.MergerTree.GrowLevels | yt/analysis_modules/halo_merger_tree/enzofof_merger_tree.py:313-326 | After the loop, every output after the trunk has a level grown from the one before it. No other level changes. |
| MergerTree.MergerTree.GenerateTree | yt/analysis_modules/halo_merger_tree/enzofof_merger_tree.py:311-326 | The trunk level's children are filtered, and every later output's level is grown from the one before it. |
| MergerTree.MergerTree.PlantTrunk | yt/analysis_modules/halo_merger_tree/enzofof_merger_tree.py:294-299 | The outputs are the outputs with relationships, latest first. The only level is the trunk's, one new branch for halo `halonum`. |
| MergerTree.MergerTree.BuildTree | yt/analysis_modules/halo_merger_tree/enzofof_merger_tree.py:282-300 | Every output with relationships gets a level. The trunk is halo `halonum` with its filtered children, and every later level is grown from the one before it. |
| MergerTree.MergerTree.GetMassiveProgenitors | yt/analysis_modules/halo_merger_tree/enzofof_merger_tree.py:328-363 | The three output lists have equal length. The cycles are the outputs in descending order, each with its redshift and the halo the walk is at. Each step follows the most massive qualifying link. The walk stops at the first output that lacks relationships or lacks the halo. |

## Left out

- The Python C-API layer is not modelled: argument parsing, conversion of arrays with `PyArray_FromAny`, reference counting, `malloc`/`free` and exception objects. A conversion that fails, for example on a wrong rank, is not modelled. Only the size checks are, as `Err` results.
- Floating point: weights, values and geometry are `real`, `floorl` is `Floor` and `ceill` is `Ceil`. IEEE rounding is not modelled.
- `Interpolate` and `Py_Interpolate` in PointCombine.c are not part of this model.
- Bin2DProfile.Bin2DProfile: reads entry n of bins_x, bins_y, wsource and bsource as the n-th element. The C code indexes the buffers as `char *` (`->data[n]`, lines 353-358), which reads the n-th byte; byte reinterpretation of the buffers is not modelled.
- Bin2DProfile.Bin2DProfile: bin indices must lie inside the tables (a requires that binds only when the size checks pass; the error paths are modelled for all inputs). The C code does not check them, and an index outside is undefined behaviour.
- Bin2DProfile.Bin2DProfile: wresult, bresult and used must be distinct arrays (a requires that, like the bins one, binds only when the size checks pass). The C code does not check this. One array passed twice accumulates both sums into the same cells, and the model does not state that outcome.
- Bin2DProfile.AddEntry: requires distinct result tables, for the same reason. So does Bin2DProfile.Accumulate, which also requires the bins to lie inside the tables.
- CombineGrids.CombineGrids: the value rows must be at least as long as the point lists. Every `src_wgt[di]` read must fall inside the source weight buffer. The written buffers must not alias. The C code checks none of these, and a violation is undefined behaviour.
- DataCube.DataCubeGeneric: a zero cube spacing is excluded by a requires (the C code would divide by zero). The child mask must be at least as large as the grid, and the grid and the cube must be distinct buffers. These requires bind only when the vector checks pass, so the error path is modelled for all inputs. DataCube.DataCubeRefine and DataCube.DataCubeReplace carry the same guarded requires.
- DataCube.AxisSpanExact: the overlap reading of AxisSpan's range is proved only for a positive cube spacing. With a negative spacing the ranges are the code's, with no geometric reading.
- `EnzoFOFMergerTree.__init__`, `run_merger_tree`, `find_halo_relationships`, `save_tree` and `load_tree` compute or read the relationships and redshifts from files. The model takes them as given.
- The `zrange` branch of `find_outputs` reads halo catalogues, and the file-name parsing `int(f[-9:-4])` and `glob` read the file system. The file numbers are a parameter.
- `HaloCatalog`, `calculate_parentage_fractions`, `find_relative_parentage`, `print_tree`, `write_dot` and `clear_data` are I/O or library calls and are not part of this model.
- MergerTree.MergerTree.GetMassiveProgenitors: `node.items()` visits the links in the dictionary's order, which is not specified. The model lets the step go to any candidate with the largest share; with ties, the source takes the first in dictionary order.
- MergerTree.MergerTree.GetMassiveProgenitors: requires a redshift for every output the walk can reach. The source raises KeyError otherwise, which the model does not represent.
- MergerTree.MergerTree.BuildTree: requires `Traceable`. The latest output must have relationships and halo `halonum`, and every child that any halo of one output keeps (not only the halos the tree reaches) must be a halo of the next output; relationships computed by `find_halo_relationships` always meet this. The source raises KeyError otherwise, which the model does not represent.
- MergerTree.MergerTree.GenerateTree: requires every child kept by the trunk to be a halo of the next output, and every child that any halo of a later output keeps to be a halo of the output after it (`Resolves`); relationships computed by `find_halo_relationships` always meet this. The source raises KeyError otherwise, which the model does not represent.
- MergerTree.MergerTree.GrowLevels: requires the same halo presence (`Reaches`, `Resolves`), for the same reason.
- MergerTree.MergerTree.NextLevel: requires every child halo of the previous level to be a halo of the output (`Reaches`), for the same reason.
- MergerTree.MergerTree.BranchChildren: requires the branch's child halos to be halos of the output, for the same reason.
- MergerTree.MergerTree.Adopt: requires the halo to be present in the output's relationships, for the same reason.
- MergerTree.Branch.constructor: requires the output and the halo to be present in the relationships, for the same reason.
- MergerTree.MergerTree.BuildTree: does not restate that the branches of the later levels are new objects. GrowLevel and NextLevel state it per level.
- MergerTree.MergerTree.GenerateTree: does not restate that the branches of the later levels are new objects, for the same reason.
- MergerTree.Branch.constructor: `max_children` defaults to `1e20`, a float. The model takes any integer, and a value at least the number of links means no cap.
- MaxLengthDicts.MaxLengthDict.constructor: initial entries passed through `*args, **kwargs` to `dict.__init__` are not modelled. The dictionary starts empty.
- MaxLengthDicts.MaxLengthDict.Set: `None` as a key is not modelled. Empty slots are `None` and keys are `Some(k)`.
- Integer widths: coordinates, counts and indices are unbounded `int`s. The C code uses `npy_int64` coordinates and box indices (including `refinement_factor * src_x[si]`, lines 187-188, and the clamped indices, lines 509-510), an `int num_found` (line 183) and a `long int total` (line 512). Wrap-around of these is not modelled; it cannot happen at realistic grid sizes.
- Halo keys: the relationship key `"NumberOfParticles"` is the field `Node.npart`, and the other keys are integers. `str(k).isdigit()` is modelled as `k >= 0`.

## Findings

| source | as written | input that shows it | evidently intended | confidence | as-written member | corrected member |
|---|---|---|---|---|---|---|
| yt/analysis_modules/halo_merger_tree/enzofof_merger_tree.py:62-67 | Setting a key that `order` already lists appends it a second time without evicting anything, so `order` grows past 50 slots. Later evictions of the duplicate slot remove nothing. | On a new dictionary, set key 0 twice, then keys 1 to 51: it holds 51 entries. | At most 50 entries: a listed key moves to the end of `order`, as `__getitem__` does. | not executed | MaxLengthDicts.Overfilled | MaxLengthDicts.StoredOnceBounded |

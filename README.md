# aiida-atomistic structure core, modelled in Dafny

This project models the core of the `StructureData` classes of aiida-atomistic. That core covers how sites get their kinds, how the periodicity of a structure is checked, and how a structure is built, sliced and validated.

- **Kinds.** `get_kinds` clusters every site property by a threshold (`_to_kinds`). It groups the sites whose cluster labels agree on every property and names each group after the last row equal to it that the walk visits before it stops (`Li1`, `Cu2`, ...). It then lets user-given `kind_tags` override the names and checks the tags against the grouping.
- **Dimensionality.** `_get_dimensionality` counts the periodic axes and measures the length, surface or volume they span. `_validate_dimensionality` rejects a periodic structure whose measure is zero.
- **Layout.** A structure is a dictionary with the keys `pbc`, `cell` and `sites`; missing keys take defaults. `to_dict` deep-copies it. `__getitem__` slices the site list with Python's list indexing, and `__len__` counts the sites.
- **Validation.** `_validate` checks the cell, the periodicity, the dimensionality and the kinds.
- **Pydantic models.** The `validate_pbc` and `validate_cell` field validators either warn (mutable model) or raise and freeze (immutable model). `check_minimal_requirements` demands sites, a cell and a pbc before the immutable model is built.

Modules, one per file:

| file | module | models |
|---|---|---|
| common.dfy | `Common` | `Option` (Python's `None`), `Result` (a value or the exception raised) and `list.index` |
| decimal.dfy | `Decimal` | `str(n)` inside the f-strings that build kind names |
| clustering.dfy | `Clustering` | `_to_kinds` |
| kinds.dfy | `KindResolution` | step 2 of `get_kinds`, the walk over the rows of the label matrix, and the tag check of step 4 |
| get_kinds.dfy | `Kinds` | the whole of `get_kinds` |
| dimensionality.dfy | `Dimensionality` | `_get_dimensionality`, `_validate_dimensionality`, `_DEFAULT_CELL` |
| list_indexing.dfy | `ListIndexing` | Python list indexing by `int` and by `slice` |
| structure.dfy | `Structure` | `__init__`, `from_dict`, `to_dict`, `__getitem__`, `__len__`, the checks of `_validate` |
| models.dfy | `Models` | `validate_pbc`, `validate_cell`, the field defaults, `check_minimal_requirements` |

Loops that update state step by step in the source are imperative methods, proved against specification functions:
- the two loops of `_to_kinds`, which write into Dafny arrays (`kinds_values`, `kinds_labels`);
- the walk of `get_kinds` step 2, where `kinds` and `check_array` are arrays;
- the loop over the site properties of step 1, which extends a sequence of label columns and a map of representatives.

The rest is functions and lemmas.

## Model

| member | source | states |
|---|---|---|
| Common.IndexOf | src/aiida_atomistic/data/structure/core.py:629 | `list.index` returns the first position holding the value |
| Clustering.ToKinds | src/aiida_atomistic/data/structure/core.py:1296-1350 | The labels and representative values returned are `ClusterLabels` and `ClusterValues`: threshold 0 gives each site its own label and value, any other threshold gives the buckets' dense ascending relabelling and each bucket's minimum value |
| Clustering.FillRepresentatives | src/aiida_atomistic/data/structure/core.py:1336-1342 | Whatever order the buckets are visited in, every site ends up holding the minimum value among the sites of its bucket |
| Clustering.Relabel | src/aiida_atomistic/data/structure/core.py:1344-1348 | The loop gives every site the place of its bucket among the distinct buckets in ascending order |
| Clustering.LabelLeast | src/aiida_atomistic/data/structure/core.py:1347-1348 | One pass labels every site of the least pending bucket with the next label; the labelled sites keep pointing at their bucket's place in the ascending enumeration |
| Clustering.Trunc | src/aiida_atomistic/data/structure/core.py:1334 | The cast to `int` truncates toward zero: a non-negative quotient gives the largest integer not above it, a negative one the smallest integer not below it |
| Clustering.Buckets | src/aiida_atomistic/data/structure/core.py:1334 | One bucket per site; the sites holding the minimum fall into bucket 0, and with a positive threshold no bucket is negative |
| Clustering.Min | src/aiida_atomistic/data/structure/core.py:1334 | `np.min` of a non-empty array is one of its values and no larger than any of them |
| Clustering.MinWhere | src/aiida_atomistic/data/structure/core.py:1339-1342 | The minimum over the sites of bucket `b` is the value of one such site and no larger than any of them |
| Clustering.BucketIsFloor | src/aiida_atomistic/data/structure/core.py:1334 | With a positive threshold, `int((v - min) / thr)` is the non-negative floor of the quotient |
| Clustering.SameBucketWithinThreshold | src/aiida_atomistic/data/structure/core.py:1334 | Two values in the same bucket lie less than one threshold apart |
| Clustering.ClustersAreBuckets | src/aiida_atomistic/data/structure/core.py:1334-1348 | Two sites share a label exactly when they share a bucket; labels follow bucket order; every label is below the number of buckets |
| Clustering.EveryClusterUsed | src/aiida_atomistic/data/structure/core.py:1345-1348 | Every label from 0 up to the number of buckets minus 1 is carried by some site |
| Clustering.RepresentativeIsClusterMinimum | src/aiida_atomistic/data/structure/core.py:1336-1342 | A site's representative is a value of its cluster, the cluster's smallest, between the overall minimum and the site's own value, and less than one threshold below the site's value |
| Clustering.ExactThresholdSeparatesSites | src/aiida_atomistic/data/structure/core.py:1328-1329 | With threshold 0, two sites share a label exactly when they are the same site, and the values are returned unchanged |
| Clustering.UniformValuesOneBucket | src/aiida_atomistic/data/structure/core.py:1334 | Equal values all fall into bucket 0 |
| Clustering.UniformValuesFormOneCluster | src/aiida_atomistic/data/structure/core.py:1334-1348 | Equal values form one cluster labelled 0, each keeping its value |
| Clustering.RelabelledSameIffSameKey | src/aiida_atomistic/data/structure/core.py:1345-1348 | Relabelling gives two sites the same label exactly when their buckets are equal |
| Clustering.RelabelledKeepsOrder | src/aiida_atomistic/data/structure/core.py:1345-1348 | Relabelling preserves the order of the buckets in both directions |
| Clustering.RelabelledDense | src/aiida_atomistic/data/structure/core.py:1345-1348 | The labels are exactly 0, 1, ..., up to the number of distinct buckets minus 1 |
| Clustering.ClusterCountNotMonotoneInThreshold | src/aiida_atomistic/data/structure/core.py:1334 | A larger threshold can give more clusters: 0, 4, 5 form 2 clusters at threshold 2 and 3 at threshold 2.5, because buckets are anchored at the minimum |
| Decimal.NatToString | src/aiida_atomistic/data/structure/core.py:676 | `str(n)` of a non-negative integer is a non-empty run of digits, one character exactly for n < 10 |
| Decimal.NatToStringInjective | src/aiida_atomistic/data/structure/core.py:676 | Different numbers print differently |
| KindResolution.RowDistanceZeroIffEqual | src/aiida_atomistic/data/structure/core.py:664-667 | `np.sum(np.abs(k - k[i]))` is 0 for a row exactly when that row equals row `i` |
| KindResolution.Rows | src/aiida_atomistic/data/structure/core.py:653-654 | `k.T` has one row per site (none without columns), each with one entry per clustered property |
| KindResolution.RowsEqualIffColumnsAgree | src/aiida_atomistic/data/structure/core.py:653-654 | Two sites share a row exactly when every column gives them the same label |
| KindResolution.LastMatch | src/aiida_atomistic/data/structure/core.py:667 | After the first `t` rows, a site's kind is the last of those rows equal to its own, or -1 |
| KindResolution.VisitedIffFirstBefore | src/aiida_atomistic/data/structure/core.py:667 | A site has a kind after `t` rows exactly when its row first occurs before `t` |
| KindResolution.Visited | src/aiida_atomistic/data/structure/core.py:680-682 | The number of rows the walk visits before it stops is at most the number of sites, and positive when there are sites |
| KindResolution.AllNamedIffVisited | src/aiida_atomistic/data/structure/core.py:680-682 | Every site has a kind after `t` rows exactly when the walk's stopping point is at most `t` |
| KindResolution.AllAssignedIffVisited | src/aiida_atomistic/data/structure/core.py:680-682 | The stop test `no kind is -1` holds after row `t` exactly when the walk stops there or earlier |
| KindResolution.MarkRow | src/aiida_atomistic/data/structure/core.py:667 | After `kinds[diff_sum == 0] = i`, each site's kind is its last match among the first `i + 1` rows |
| KindResolution.Number | src/aiida_atomistic/data/structure/core.py:669-674 | Row `i` is numbered `i`, or `i + N` exactly when `symbol + str(i)` is one of the tags |
| KindResolution.KindName | src/aiida_atomistic/data/structure/core.py:669-676 | A generated kind name is the row's chemical symbol followed by a non-empty run of digits |
| KindResolution.NamesAt | src/aiida_atomistic/data/structure/core.py:656-678 | `kind_names` has one entry per site, and before any row is visited every site carries its chemical symbol |
| KindResolution.CheckAt | src/aiida_atomistic/data/structure/core.py:657-678 | `check_array` has one entry per site; each entry is 0 before the walk and afterwards the index of a row already visited |
| KindResolution.Numeration | src/aiida_atomistic/data/structure/core.py:668-674 | Every entry of `kind_numeration` is a row number `i` or `i + N`, so it lies in `0..2N-1` |
| KindResolution.NameSite | src/aiida_atomistic/data/structure/core.py:669-678 | Handling one site of row `i` appends `i` (or `i + N` when `symbol + str(i)` is a tag), names the site from that last entry and records `i` in the check array |
| KindResolution.NameRow | src/aiida_atomistic/data/structure/core.py:668-678 | The inner loop names exactly the sites equal to row `i`, records `i` for exactly them, and appends row `i`'s number once per such site |
| KindResolution.VisitRow | src/aiida_atomistic/data/structure/core.py:661-679 | Visiting row `i` takes names, numeration, check array and kinds from their state after `i` rows to their state after `i + 1` |
| KindResolution.GroupSites | src/aiida_atomistic/data/structure/core.py:656-682 | Step 2 returns the names, the numeration and the check array of the walk stopped after `Visited(rows)` rows |
| KindResolution.EverySiteNamed | src/aiida_atomistic/data/structure/core.py:661-682 | When the walk stops, every site carries the name and the check value of the last visited row equal to its own |
| KindResolution.SameRowSameKind | src/aiida_atomistic/data/structure/core.py:661-682 | Sites with equal rows end with the same name and the same check value |
| KindResolution.NumbersDistinct | src/aiida_atomistic/data/structure/core.py:669-674 | Different rows are numbered differently, whether or not their names collide with tags |
| KindResolution.DifferentRowsDifferentNames | src/aiida_atomistic/data/structure/core.py:669-676 | With digit-free chemical symbols, sites with different rows end with different names |
| KindResolution.UntaggedNumbers | src/aiida_atomistic/data/structure/core.py:669-674 | Without tags, row `i` is numbered `i` |
| KindResolution.NumerationEntries | src/aiida_atomistic/data/structure/core.py:668-674 | Every entry of `kind_numeration` is the number of a visited row |
| KindResolution.CheckGroupsLikeRows | src/aiida_atomistic/data/structure/core.py:678 | When the walk stops, two sites have the same check value exactly when their rows are equal |
| KindResolution.FirstOccurrencesGroup | src/aiida_atomistic/data/structure/core.py:629 | Two tags have the same `kind_tags.index` exactly when they are equal |
| KindResolution.FirstOccurrencesIffSamePartition | src/aiida_atomistic/data/structure/core.py:693 | Two sequences have the same first-occurrence lists exactly when they group positions the same way |
| KindResolution.CorrectedCheckIffSamePartition | src/aiida_atomistic/data/structure/core.py:693 | A check array holding each site's first equal row matches the tags' first occurrences exactly when tags and rows group the sites alike |
| KindResolution.LastVisitCheckRejectsConsistentTags | src/aiida_atomistic/data/structure/core.py:678 | For rows r, r, s the tags A, A, B group the sites like the rows, yet the check array is [1, 1, 2] and the tags' first occurrences are [0, 0, 2] |
| KindResolution.WalkExampleNames | src/aiida_atomistic/data/structure/core.py:661-682 | Sites Li, Li, Cu with rows r, r, s are named Li1, Li1, Cu2: the second visit of the Li row overwrites the first |
| KindResolution.WalkExampleNumeration | src/aiida_atomistic/data/structure/core.py:668-674 | For the same sites `kind_numeration` is [0, 0, 1, 1, 2]: one entry per site per visit |
| KindResolution.DistinctRowsOneKindPerSite | src/aiida_atomistic/data/structure/core.py:661-682 | When all rows differ, the walk visits every row, names site `j` after row `j`, and numbers the sites 0..N-1 in order |
| Kinds.DefaultThreshold | src/aiida_atomistic/data/structure/core.py:615-619 | Exactly charge, mass and magnetization have a built-in threshold, each positive |
| Kinds.ThresholdOf | src/aiida_atomistic/data/structure/core.py:640-642 | A custom threshold takes precedence; otherwise the built-in one, which is positive, or none for a property other than charge, mass and magnetization |
| Kinds.PropertyKinds | src/aiida_atomistic/data/structure/core.py:1328-1334 | `_to_kinds` succeeds exactly for threshold 0 or for a present threshold on a non-empty array; otherwise it raises for the empty array first, then for the missing threshold |
| Kinds.ClusterProperties | src/aiida_atomistic/data/structure/core.py:634-652 | The loop over the site properties yields the columns and representatives of step 1, or the first property's error |
| Kinds.Selected | src/aiida_atomistic/data/structure/core.py:638 | A property is clustered exactly when it is not symbol, position, kind_name or excluded |
| Kinds.ClusterAllSucceeds | src/aiida_atomistic/data/structure/core.py:637-652 | Step 1 succeeds exactly when `_to_kinds` accepts every clustered property with its threshold |
| Kinds.ClusterAllColumns | src/aiida_atomistic/data/structure/core.py:637-652 | After step 1, column `k` is the cluster labelling of the `k`-th clustered property and its representatives are stored under its name |
| Kinds.ColumnCount | src/aiida_atomistic/data/structure/core.py:649 | Step 1 gives one column per clustered property |
| Kinds.ColumnsFitSites | src/aiida_atomistic/data/structure/core.py:646-649 | Every column of step 1 holds one label per site |
| Kinds.ApplyTags | src/aiida_atomistic/data/structure/core.py:684-688 | Step 3 succeeds exactly when every falsy tag has a generated name; then truthy tags replace names position by position; otherwise it raises at the first falsy tag past the last name |
| Kinds.KindsOf | src/aiida_atomistic/data/structure/core.py:561-698 | `get_kinds` raises step 1's error when step 1 fails; on success it returns the symbols as given, step 1's representatives, and one kind per site (or per tag when tags are given) |
| Kinds.GetKinds | src/aiida_atomistic/data/structure/core.py:561-698 | `get_kinds` returns `KindsOf`: step 1, the walk, the tag override and the step-4 check |
| Kinds.RowsEqualIffSameClusters | src/aiida_atomistic/data/structure/core.py:653-667 | Two sites share a row of `k.T` exactly when every clustered property clusters them together |
| Kinds.NoTagsKeepNames | src/aiida_atomistic/data/structure/core.py:621-626 | Without tags, step 3 keeps every generated name |
| Kinds.UntaggedOnlyStepOneFails | src/aiida_atomistic/data/structure/core.py:621-698 | Without tags, `get_kinds` fails exactly when step 1 fails; then it returns the walk's names, its numeration, the representatives and the symbols |
| Kinds.NothingClusteredKeepsSymbols | src/aiida_atomistic/data/structure/core.py:653-688 | With every property fixed or excluded, the kinds are the chemical symbols and the index is empty |
| Kinds.SameKindIffSameClusters | src/aiida_atomistic/data/structure/core.py:637-688 | Without tags and with digit-free symbols, two sites get the same kind exactly when every clustered property clusters them together |
| Kinds.TagsOverrideNames | src/aiida_atomistic/data/structure/core.py:684-696 | A successful call with tags has one tag per site and one kind per tag, and every truthy tag is its site's kind |
| Kinds.AcceptedTagsGroupLikeClusters | src/aiida_atomistic/data/structure/core.py:692-696 | When the check accepts the tags, two sites carry equal tags exactly when every clustered property clusters them together |
| Kinds.FullTagsOnlyCheckFails | src/aiida_atomistic/data/structure/core.py:684-696 | With one tag per site, steps 2 to 4 fail exactly when the check array differs from the tags' first occurrences |
| Kinds.IntendedCheckWithoutColumns | src/aiida_atomistic/data/structure/core.py:692-696 | With no clustered property, the intended check accepts exactly the tags that are all equal |
| Kinds.IntendedCheckNoColumns | src/aiida_atomistic/data/structure/core.py:692-696 | With no clustered property, the intended check accepts exactly the tags that match the single cluster |
| Kinds.IntendedCheckWithColumns | src/aiida_atomistic/data/structure/core.py:692-696 | With clustered properties, the intended check accepts exactly the tags that group the sites as the clusters do |
| Kinds.IntendedCheckAcceptsExactlyMatchingTags | src/aiida_atomistic/data/structure/core.py:692-696 | With the intended check, `get_kinds` with one tag per site succeeds exactly when the tags group the sites as the clustered properties do |
| Kinds.ExampleLabels | src/aiida_atomistic/data/structure/core.py:1334-1348 | Charges 0, 0, 1 at threshold 0.1 put the first two sites in one cluster and the third in another |
| Kinds.ExampleClusters | src/aiida_atomistic/data/structure/core.py:637-652 | For Li, Li, Cu with charges 0, 0, 1, step 1 gives one column with the two Li sites together and Cu apart |
| Kinds.ExampleTagsMatch | src/aiida_atomistic/data/structure/core.py:692-696 | The tags A, A, B group Li, Li, Cu as the charges do |
| Kinds.ExampleRejected | src/aiida_atomistic/data/structure/core.py:692-696 | `get_kinds` as written raises the inconsistent-tags error on Li, Li, Cu with charges 0, 0, 1 and tags A, A, B |
| Kinds.OneColumnTwoGroupsRejected | src/aiida_atomistic/data/structure/core.py:692-696 | Any three sites that one clustered property splits as {0, 1} and {2} make the tags A, A, B fail the check |
| Kinds.ConsistentTagsRejected | src/aiida_atomistic/data/structure/core.py:692-696 | Tags that match the clusters are rejected as written and accepted by the intended check |
| Dimensionality.NormSq | src/aiida_atomistic/data/structure/core.py:1268-1269 | The squared norm is non-negative and zero exactly for the zero vector |
| Dimensionality.VolumeSq | src/aiida_atomistic/data/structure/core.py:1273-1274 | The squared cell volume is non-negative and zero exactly when the triple product is zero |
| Dimensionality.CountTrue | src/aiida_atomistic/data/structure/core.py:1257 | `len(pbc[pbc])` is at most the number of axes |
| Dimensionality.Periodic | src/aiida_atomistic/data/structure/core.py:1269-1271 | `cell[pbc]` has one vector per periodic axis, each the cell vector of a periodic axis |
| Dimensionality.GetDimensionality | src/aiida_atomistic/data/structure/core.py:1240-1276 | The dimension is the number of periodic axes, at most 3, with its label; a 0-dimensional structure has measure 0 |
| Dimensionality.ValidateDimensionality | src/aiida_atomistic/data/structure/core.py:1278-1294 | A failure reports the number of periodic axes, which is positive |
| Dimensionality.ValidationFailsIffDegenerate | src/aiida_atomistic/data/structure/core.py:1278-1294 | Validation fails exactly when the periodic vectors are degenerate: one periodic vector that is zero, two whose cross product is zero, or three whose triple product is zero |
| Dimensionality.DimensionAtMostThree | src/aiida_atomistic/data/structure/core.py:1262-1263 | The error for a dimension outside 0 to 3 cannot be raised |
| Dimensionality.NonPeriodicAlwaysValid | src/aiida_atomistic/data/structure/core.py:1284-1286 | A structure periodic along no axis passes whatever its cell |
| Dimensionality.NonPeriodicVectorsIrrelevant | src/aiida_atomistic/data/structure/core.py:1257-1274 | Cell vectors along non-periodic axes do not affect the dimensionality |
| Dimensionality.ZeroPeriodicVectorFails | src/aiida_atomistic/data/structure/core.py:1288-1292 | A zero cell vector along a periodic axis always fails validation |
| Dimensionality.ParallelPeriodicVectorsFail | src/aiida_atomistic/data/structure/core.py:1270-1272 | Two periodic vectors, one an integer multiple of the other, span no surface, so validation fails |
| Dimensionality.DefaultCellFailsWhenPeriodic | src/aiida_atomistic/data/structure/core.py:43 | With the default all-zero cell, every structure periodic along some axis fails validation |
| Dimensionality.DefaultsFailAsVolume | src/aiida_atomistic/data/structure/core.py:119-120 | The default pbc with the default cell fails as a 3-dimensional structure of volume 0 |
| ListIndexing.At | src/aiida_atomistic/data/structure/core.py:1357 | `xs[i]` succeeds exactly for `-len <= i < len`, counting negative indices from the end |
| ListIndexing.Adjust | src/aiida_atomistic/data/structure/core.py:1357 | A slice bound is clamped to `0..n` for a positive step and to `-1..n-1` for a negative one |
| ListIndexing.Range | src/aiida_atomistic/data/structure/core.py:1357 | `range(start, stop, step)` lists `start + k*step`, all before `stop` in the step's direction |
| ListIndexing.SliceIndices | src/aiida_atomistic/data/structure/core.py:1357 | A slice fails exactly for step 0; otherwise it selects only valid positions |
| ListIndexing.Slice | src/aiida_atomistic/data/structure/core.py:1357 | `xs[start:stop:step]` fails exactly for step 0 and otherwise holds the elements at the selected positions |
| ListIndexing.RangeLength | src/aiida_atomistic/data/structure/core.py:1357 | A unit-step range has `stop - start` elements, or none |
| ListIndexing.ContiguousSlice | src/aiida_atomistic/data/structure/core.py:1357 | `xs[a:b]` within bounds is the contiguous sub-list |
| ListIndexing.WholeSlice | src/aiida_atomistic/data/structure/core.py:1357 | `xs[:]` is the whole list |
| ListIndexing.ReversingSlice | src/aiida_atomistic/data/structure/core.py:1357 | `xs[::-1]` is the reversed list |
| ListIndexing.SliceBeyondEndIsEmpty | src/aiida_atomistic/data/structure/core.py:1357 | A start at or past the end, or a stop at or before minus the length, gives an empty slice instead of an error |
| ListIndexing.SingletonSlice | src/aiida_atomistic/data/structure/core.py:1357 | `xs[i:i+1]` holds exactly `xs[i]` |
| Structure.Len | src/aiida_atomistic/data/structure/core.py:1362-1365 | A structure has a length exactly when its sites are a list |
| Structure.GetItem | src/aiida_atomistic/data/structure/core.py:1352-1360 | A successful lookup keeps pbc and cell; an index that is neither int nor slice raises the type error |
| Structure.GetItemIntended | src/aiida_atomistic/data/structure/core.py:1352-1360 | The intended lookup keeps pbc and cell and always stores a site list |
| Structure.FromDict | src/aiida_atomistic/data/structure/core.py:117-121 | A key given to the constructor is stored as given; a missing pbc becomes periodic along all axes, a missing cell the zero cell, missing sites the empty list |
| Structure.ToDict | src/aiida_atomistic/data/structure/core.py:86-87 | `to_dict` reports all three keys, each holding the structure's own value |
| Structure.FromDictToDict | src/aiida_atomistic/data/structure/core.py:233-235 | `from_dict(to_dict())` gives back the same structure |
| Structure.ToDictKeepsGivenKeys | src/aiida_atomistic/data/structure/core.py:86-87 | `to_dict` reports every key and keeps every value given to the constructor |
| Structure.EmptyDictDefaults | src/aiida_atomistic/data/structure/core.py:117-121 | An empty dictionary gives a structure periodic along all axes, with the zero cell and no sites |
| Structure.GetItemFailures | src/aiida_atomistic/data/structure/core.py:1352-1360 | `__getitem__` fails exactly for a wrong index type, a bare site dictionary, an int out of range or a zero step |
| Structure.SliceSelectsSites | src/aiida_atomistic/data/structure/core.py:1355-1358 | A slice keeps pbc and cell and holds exactly the sliced sites |
| Structure.ContiguousSliceLength | src/aiida_atomistic/data/structure/core.py:1355-1365 | `s[a:b]` within bounds holds the sites `a..b` and has length `b - a` |
| Structure.WholeSliceCopies | src/aiida_atomistic/data/structure/core.py:1355-1358 | `s[:]` equals `s` |
| Structure.IntIndexStoresBareSite | src/aiida_atomistic/data/structure/core.py:1356-1358 | As written, `s[i]` stores a bare site dictionary: the result has no length and cannot be indexed again, while `s[i:i+1]` has length 1 |
| Structure.IntendedIntIndexIsOneSiteSlice | src/aiida_atomistic/data/structure/core.py:1356-1358 | The intended `s[i]` equals the one-site slice at the same position, negative positions counted from the end, and has length 1 |
| Structure.IntendedFailsLikeWritten | src/aiida_atomistic/data/structure/core.py:1352-1360 | The intended lookup fails on the same indices as the written one, with the same error |
| Structure.KindNames | src/aiida_atomistic/data/structure/core.py:822-826 | The kind set holds exactly the sites' kind names |
| Structure.ListOfSet | src/aiida_atomistic/data/structure/core.py:830 | Listing the kind set gives each kind exactly once |
| Structure.FirstRepeated | src/aiida_atomistic/data/structure/core.py:830-835 | The duplicate check finds nothing exactly when the counter counts every listed kind once |
| Structure.FirstUnknownKind | src/aiida_atomistic/data/structure/core.py:843-847 | The unknown-kind check finds nothing exactly when every site's kind is in the set |
| Structure.KindChecks | src/aiida_atomistic/data/structure/core.py:822-853 | The kind checks can only fail with a duplicate kind, an unknown kind or kinds without sites |
| Structure.KindChecksNeverFail | src/aiida_atomistic/data/structure/core.py:822-853 | The kind set is built from the sites, so none of the three kind checks can fail |
| Structure.ListOfSetDistinct | src/aiida_atomistic/data/structure/core.py:830 | A listed set has no repeats |
| Structure.DistinctCountsOnce | src/aiida_atomistic/data/structure/core.py:830-832 | In a list without repeats the counter counts every entry once |
| Structure.Validate | src/aiida_atomistic/data/structure/core.py:804-853 | A cell without three entries is reported first, then a pbc without three entries; a bare site dictionary never validates; a structure that validates has three cell vectors, three pbc flags and a passing dimensionality check |
| Structure.ValidateIsDimensionalityCheck | src/aiida_atomistic/data/structure/core.py:804-853 | A structure with a site list passes validation exactly when its cell and pbc have three entries and its dimensionality check passes |
| Structure.DefaultCellStructureInvalid | src/aiida_atomistic/data/structure/core.py:117-121 | A structure built without cell and pbc fails validation as a 3-dimensional structure of volume 0 |
| Models.ValidatePbc | src/aiida_atomistic/data/structure/models.py:74-95 | `validate_pbc` raises exactly in the immutable model on a value that is not a list of three; it warns exactly on such a value; the mutable model returns the value unchanged, the immutable one a frozen list with the same entries |
| Models.ValidateCell | src/aiida_atomistic/data/structure/models.py:97-111 | `validate_cell` raises exactly in the immutable model on a value that is not a list; it warns exactly on such a value; the mutable model returns the value unchanged, the immutable one a frozen list with the same rows |
| Models.ImmutablePbcRejectsIffMalformed | src/aiida_atomistic/data/structure/models.py:74-95 | The immutable model rejects `pbc` exactly when it is not a list or not of length 3, with the message for the first failed test |
| Models.MutableOnlyWarns | src/aiida_atomistic/data/structure/models.py:74-111 | The mutable model never raises in either validator: it returns the value unchanged, warning exactly when the value is malformed |
| Models.WellFormedPassesThrough | src/aiida_atomistic/data/structure/models.py:92-111 | A well-formed value is returned without warning, frozen by the immutable model and as it is by the mutable one |
| Models.CellShapeUnchecked | src/aiida_atomistic/data/structure/models.py:97-111 | `validate_cell` accepts any list, whatever its shape, though its message speaks of a 3x3 list |
| Models.ValidatorsIdempotent | src/aiida_atomistic/data/structure/models.py:74-111 | Validating the value a validator returned, the frozen list in the immutable model, gives the same result again |
| Models.DefaultsAccepted | src/aiida_atomistic/data/structure/models.py:57-67 | The default pbc and the default all-zero cell are well formed, and both validators would accept them silently in either model; pydantic does not run the validators on defaults (`validate_default` is off), so this is not a path the program takes |
| Models.CheckMinimalRequirements | src/aiida_atomistic/data/structure/models.py:175-187 | The requirements pass exactly when sites, cell and pbc are truthy and the sites are valid, and the data is then passed on unchanged |
| Models.MinimalRequirementsOrder | src/aiida_atomistic/data/structure/models.py:177-184 | Missing sites are reported before a missing cell, and a missing cell before a missing pbc |
| Models.DefaultsDoNotSatisfyRequirements | src/aiida_atomistic/data/structure/models.py:175-187 | The requirements run before defaults apply, so an immutable model without a cell or pbc is rejected although both fields have defaults |
| Models.BuildImmutable | src/aiida_atomistic/data/structure/models.py:164-187 | A failed requirement is reported before any field validator runs; once the requirements pass, only a field validator can reject; a built model keeps the given sites and carries no warnings |
| Models.BuildMutable | src/aiida_atomistic/data/structure/models.py:74-111 | A built mutable model warns about pbc or cell exactly when that field was given malformed; a missing field takes its default silently |
| Models.ImmutableModelWellFormed | src/aiida_atomistic/data/structure/models.py:164-187 | A built immutable model holds the given sites and the frozen given pbc and cell: a pbc of three entries, a cell list, truthy sites |
| Models.ImmutableBuildIff | src/aiida_atomistic/data/structure/models.py:164-187 | An immutable model is built exactly when the requirements pass, the pbc is a list of three and the cell is a list |
| Models.MutableAlwaysBuilds | src/aiida_atomistic/data/structure/models.py:158-162 | A mutable model is always built; a missing field takes its default and a given field is kept as given |

## Left out

- I/O, the AiiDA node storage (`base.attributes`), ASE and pymatgen conversions and everything else in these files beyond the operations above are not part of this model.
- The site accessors `get_site_property` and `get_property_names` are not modelled. `get_kinds` receives the chemical symbols and one `SiteProperty` per site property instead, each holding one value per site (`SitesAgree`). `check_array` is sized by the positions, which are taken to be one per site.
- Floating point: property values and thresholds are exact reals. Rounding, infinities and NaN are not modelled; the int64 cast `np.array(..., dtype=int)` is truncation toward zero (`Clustering.Trunc`).
- Clustering.Trunc: the result is an unbounded integer. numpy's int64 cast overflows for quotients of 2^63 or more (values 0 and 1 with a custom threshold of 1e-19, say), so two such sites can share a bucket in the source while the model keeps them apart.
- Clustering.ToKinds: the source relabels the buckets in the iteration order of a Python `set`, which nothing in the program fixes; the model takes ascending bucket order. For a positive threshold the buckets are non-negative integers, which CPython usually but not always iterates in ascending order.
- Kinds.ThresholdOf: a custom threshold given explicitly as `None` is not modelled; `custom_thr` maps names to numbers.
- Kinds.KindsDictionary keeps the representative values in their own map. In the source, step 3 (core.py:685-690) writes `kinds`, `index` and `symbols` after step 1 has stored the representatives, so a site property named `kinds`, `index` or `symbols` is overwritten by those keys in the returned dictionary; the model keeps both.
- The docstring of `get_kinds` (core.py:588-590) says that tags force every threshold to 0 (`if not None in kind_tags: thr = 0`). The code has no such branch and clusters with the custom or built-in thresholds whether or not tags are given; the model follows the code.
- KindResolution.Tag: a kind tag is `None` or a string; tags of other Python types are not modelled.
- Dimensionality: cell coordinates are integers, not floats, so the proofs can use products of coordinates; over reals even `x * x == 0 <==> x == 0` needs nonlinear reasoning the solver does not do reliably. In exact arithmetic the integer cell loses nothing for the zero test: every finite float is a dyadic rational, so a cell can be scaled to integers by a positive common denominator, and a length, surface or volume is zero before scaling exactly when it is zero after. The source does the test in floating point, though, and underflow and rounding in `np.linalg.norm`, `np.cross` and the volume can make a non-degenerate periodic cell fail there: a periodic vector (1e-200, 0, 0) has a squared norm that underflows to 0.0, and v0 = (1+2^-30, 1, 0), v1 = (1+2^-29, 1+2^-30, 0) have an exact cross product of (0, 0, 2^-60) that rounds to 0.0. The model's exact test (`Dimensionality.ValidationFailsIffDegenerate`) accepts such cells and does not capture these rejections. Lengths, surfaces and volumes are kept squared (no square root); a measure is zero exactly when its square is.
- Dimensionality.VolumeSq: `calc_cell_volume` (utils.py) is not part of this model; it is taken to be the absolute triple product of the cell vectors.
- Structure.FromDict: `_get_valid_pbc` and `_get_valid_cell` (utils.py) are not part of this model. The constructor stores pbc and cell as given. `Validate` stands for those checks with a test that each has three entries.
- Structure.Validate: the node-level checks of `super()._validate()` and the errors that building `Site` objects can raise are not modelled.
- Structure.Len: for a bare site dictionary the source iterates its keys, and `Site` construction (site.py) is not part of this model; `Len` reports no length there.
- Structure: the shared `_DEFAULT_CELL` tuple is immutable in core.py. The list-of-lists default in models.py shares one row object three times; that aliasing is not modelled, because no modelled operation mutates a cell.
- Models.ValidatePbc: only the validator's body is modelled. In pydantic's default after-validation mode, the `t.List[bool]` type and the `min_length`/`max_length` constraints check the field first. So only `None` reaches the not-a-list branch through a model, and no list of the wrong length reaches the validator.
- Models.MutableAlwaysBuilds: states that building never fails for the validators as modelled. Pydantic's own type and length checks can still reject a field, and they are not modelled.
- Models: pydantic's type coercion of field values and the content of `freeze_nested` are not modelled. Freezing is a flag on the returned list, and warnings are the message strings. A frozen list is taken to still count as a list for `isinstance(v, list)`, and freezing it again to give the same frozen list.
- Models.ImmutableBuildIff: only the validators' own tests are modelled. Pydantic's field validation of `cell: List[List[float]]` and `sites: List[SiteImmutable]` can still reject a model the iff accepts, for instance `cell = [1.0, 2.0]`.
- Models.CheckMinimalRequirements: `_check_valid_sites` (utils.py) is not part of this model; its outcome is the parameter `sitesValid`.
- ListIndexing: `sys.maxsize`, which stands for an omitted slice bound, is replaced by the bound it is clamped to; Python integers are unbounded, as Dafny's are.

## Findings

| source | as written | input that shows it | evidently intended | confidence | as-written member | corrected member |
|---|---|---|---|---|---|---|
| src/aiida_atomistic/data/structure/core.py:678 | `check_array[where] = i` keeps the index of the last row that visited each site. The walk revisits groups, so a group of several sites ends with the index of the last equal row visited before the walk stops (rows r, r give [0, 0] and rows r, s, r give [0, 1, 0], since the walk stops once every site has a kind, but rows r, r, s give [1, 1, 2]). Step 4 compares this with the first occurrences of the tags. | Sites Li, Li, Cu with charges 0, 0, 1 and `kind_tags=["A", "A", "B"]`: `check_array` is [1, 1, 2], the tags' first occurrences are [0, 0, 2], and `get_kinds` raises although the tags group the sites exactly as the charges do | Accept the tags exactly when they group the sites as the clustered properties do, e.g. by recording each site's first equal row | high; not executed | Kinds.ConsistentTagsRejected | Kinds.IntendedCheckAcceptsExactlyMatchingTags |
| src/aiida_atomistic/data/structure/core.py:1357 | For an `int` index, `sites[index]` is one site dictionary, and it is stored under `sites` in place of a list | Any structure with at least one site, indexed as `s[0]`: the new structure's `sites` is a dictionary, so `len(s[0])` and `s[0][0]` do not work on a list of sites | `s[i]` is the one-site structure `s[i:i+1]` (with negative `i` counted from the end) | medium; not executed | Structure.IntIndexStoresBareSite | Structure.IntendedIntIndexIsOneSiteSlice |

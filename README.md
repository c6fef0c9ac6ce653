# Group transform of Plot, modelled in Dafny

This project models the group transform of Plot, `src/transforms/group.js`:

- `groupX`, `groupY` and `group` build channel definitions plus a transform.
- The transform groups the data rows by one key (`group1`) or by two keys (`group2`).
- Groups whose key is undefined are dropped (`defined1`).
- `regroup` subdivides the global group list by facet. It uses `subset2`/`subset3` and `nonempty2`/`nonempty3`, and records the range of output positions each facet takes.
- The size channel counts the rows of each group (`length2`/`length3`). With `normalize`, `maybeNormalizeLength2` divides that count by the data length captured when the transform runs, and scales it by `k`.

Modules:

- `Seqs` (seqs.dfy): the sequence vocabulary.
  - `Filter` is `Array.prototype.filter`, `Map` is `Array.prototype.map`.
  - `Interval` is `range`/`offsetRange`.
  - `Concat` and `Ranges` give the concatenation of the per-facet slices and the position range of each slice.
- `Grouping` (grouping.dfy): d3's `groups` over row indices, one or two levels deep.
  - `GroupBy` takes the first item's key. It opens a group holding every item with that key, then continues with the items not yet grouped.
  - `Group1` is the one-key pipeline, `Group2` the two-key pipeline with its `flatMap`.
- `Facets` (regroup.dfy): `subset2`, `subset3`, `nonempty2`, `nonempty3` and the `regroup` loop, written as an imperative method.
- `Channels` (channels.dfy):
  - JavaScript numbers: NaN, finite or infinite;
  - `length2`/`length3`;
  - `maybeNormalizeLength2`, a class whose field `n` the transform sets in place;
  - the two transforms;
  - the channel maps that `groupX`, `groupY` and `group` return.
- `Scenarios` (scenarios.dfy): a worked example of four rows with keys "a", "a", "b" and a missing value.

The data is given to the model by its key columns: `X[i]`, and `Y[i]` for two-key grouping. The facet `index` is a sequence of row-index sequences.

### Normalization: which row count is the divisor

- The code sets `n = data.length` (line 115), which counts every row, including rows whose key is undefined.
- A reading of the option as "the share of the defined rows" would divide by the number of rows with a defined key. The code does not do that.
- The model follows the code. `Channels.Group1SharesSum` states the consequence: the normalized values add up to `k · (defined rows) / (all rows)`. They add up to `k` when every key is defined (`Channels.Group1SharesWhole`), and, for a non-zero `k`, only then (`Channels.Group1SharesWholeOnly`).
- `Scenarios.ScenarioNormalized` works the example through. Its four rows "a", "a", "b", missing give:
  - "a": 2·100/4 = 50;
  - "b": 25;
  - total: 75, not 100.

## Model

| member | source | states |
|---|---|---|
| Seqs.Filter | src/transforms/group.js:27 | the result has only elements of the input that pass the predicate, and every element that passes is kept |
| Seqs.FilterIsSubseq | src/transforms/group.js:71 | a filter keeps elements in their original order (a subsequence) |
| Seqs.FilterIncreasing | src/transforms/group.js:71 | filtering an increasing row list leaves it increasing |
| Seqs.Interval | src/transforms/group.js:63 | `offsetRange(g, k)` is the positions k, k+1, …, k+g.length-1 and nothing else |
| Seqs.RangesTile | src/transforms/group.js:61-65 | the slice ranges, one after another, are exactly the positions 0 … total-1, without gap or overlap |
| Seqs.ConcatAt | src/transforms/group.js:64 | element t of slice j sits in the output at slice j's offset plus t |
| Seqs.IndexOf | src/transforms/group.js:27 | first-occurrence position: the element is there and at no earlier position |
| Grouping.GroupByMembers | src/transforms/group.js:27 | every entry of d3's `groups` holds exactly the items with its key, in input order, and is non-empty |
| Grouping.GroupByKeysDistinct | src/transforms/group.js:27 | no key appears in two entries of `groups` |
| Grouping.GroupByCovers | src/transforms/group.js:27 | every item's key has an entry |
| Grouping.GroupByIncreasing | src/transforms/group.js:27 | the members of each entry are in increasing row order when the rows are |
| Grouping.GroupByOrder | src/transforms/group.js:27 | entries are listed by their first member (first-occurrence order) |
| Grouping.GroupByFirstOccurrence | src/transforms/group.js:27 | each entry of `groups(range(data), …)` starts at the first row with its key, and entries follow the order of first occurrence of their keys in the data |
| Grouping.GroupByDefinedTotal | src/transforms/group.js:27 | the entries that survive `defined1` hold, together, exactly the items whose key is defined |
| Grouping.Group1Members | src/transforms/group.js:25-27 | every group of `group1` has a defined key, is non-empty and increasing, and holds exactly the rows with that key |
| Grouping.Group1KeyOrder | src/transforms/group.js:27 | group1's keys are distinct and in first-occurrence order, and each group starts at its key's first row |
| Grouping.Group1Partition | src/transforms/group.js:27 | a row is in some group exactly when its key is defined, and never in two groups |
| Grouping.Group1Total | src/transforms/group.js:27 | the groups hold exactly as many rows as there are rows with a defined key |
| Grouping.NestedEntries | src/transforms/group.js:44 | each X entry of the nested grouping holds the Y grouping of exactly the rows with that X key |
| Grouping.FlattenMembers | src/transforms/group.js:44 | a triple is produced by the `flatMap` exactly when it comes from an X entry and a Y entry of it whose Y key is defined |
| Grouping.Group2Members | src/transforms/group.js:44 | every triple of `group2` has two defined keys and holds exactly, in row order, the rows with both keys |
| Grouping.Group2Covers | src/transforms/group.js:44 | every row with two defined keys is in some triple |
| Grouping.FlattenOrdered | src/transforms/group.js:44 | flattening keeps X order, first to last, and within one X key the Y entries in first-member order with no Y key twice |
| Grouping.Group2Order | src/transforms/group.js:44 | group2's triples are ordered by X first occurrence, then by first row within an X key, with no key pair twice |
| Facets.Subset2Keeps | src/transforms/group.js:69-72 | subset2 keeps the key; the new members are the old ones that lie in the facet, in their order |
| Facets.Subset3Keeps | src/transforms/group.js:74-77 | subset3 keeps both keys; the new members are the old ones that lie in the facet, in their order |
| Facets.Regroup | src/transforms/group.js:57-67 | the output data is the facets' non-empty restricted groups, facet after facet; the output index gives each facet the range of its own groups' positions |
| Facets.SliceStep | src/transforms/group.js:62-64 | one iteration appends facet j's groups to the output and their range to the index |
| Facets.RegroupTiles | src/transforms/group.js:58-65 | one range per facet, and together the ranges tile the output exactly |
| Facets.RegroupSliceAt | src/transforms/group.js:62-64 | facet j's range is as long as its group list, and position t of the range holds the facet's t-th group |
| Facets.RegroupRangesOrdered | src/transforms/group.js:61-65 | positions of an earlier facet come before those of a later facet |
| Facets.RegroupNonempty | src/transforms/group.js:62 | no output group fails `nonempty`, and each is a global group restricted to some facet |
| Facets.RestrictOrder | src/transforms/group.js:62 | within one facet the groups keep global order, and only groups left empty are dropped |
| Facets.FacetGroups1 | src/transforms/group.js:26-31 | in each facet, each one-key group has a defined key and holds exactly the facet's rows with that key, in order |
| Facets.FacetKeys1 | src/transforms/group.js:26-31 | in each facet, the one-key groups have distinct keys, in the order in which their keys first occur in the whole data (not within the facet) |
| Facets.FacetGroups2 | src/transforms/group.js:43-48 | in each facet, each triple has defined keys and holds exactly the facet's rows with both keys, in order |
| Facets.FacetTriple | src/transforms/group.js:74-77 | one group2 triple restricted to a facet keeps defined keys and holds, in increasing order, exactly the facet's rows with both keys |
| Facets.RegroupSingle | src/transforms/group.js:57-67 | with a single facet, the output is that facet's groups and the index is the one range 0 … count-1 |
| Facets.Unfaceted1 | src/transforms/group.js:26-31 | without faceting (one facet holding every row), restricting group1's groups changes nothing and drops nothing |
| Facets.Unfaceted2 | src/transforms/group.js:43-48 | without faceting, restricting group2's triples changes nothing and drops nothing |
| Channels.Length2 | src/transforms/group.js:95-97 | `length2` is positive exactly when `nonempty2` holds |
| Channels.Length3 | src/transforms/group.js:99-101 | `length3` is positive exactly when `nonempty3` holds |
| Channels.ScaleFactor | src/transforms/group.js:110 | `normalize: true` gives 100; unset or false gives a falsy k; a number is taken as is |
| Channels.NormalizedLabel | src/transforms/group.js:114 | the label is "Frequency (%)" exactly when k is 100, "Frequency" otherwise |
| Channels.NormalizedLength2.constructor | src/transforms/group.js:111-112 | a normalized channel has a truthy k and no data length yet |
| Channels.NormalizedLength2.Capture | src/transforms/group.js:115 | the callback sets `n` to the data length |
| Channels.NormalizedLength2.Value | src/transforms/group.js:113 | NaN before `n` is set; the group's length times k over n once it is; an infinity when n is 0 |
| Channels.MaybeNormalizeLength2 | src/transforms/group.js:109-116 | `length2` and no callback when k is 0 or NaN, otherwise a fresh normalized channel with that k, unset n, and itself as callback |
| Channels.SizeLabel | src/transforms/group.js:103-114 | "Frequency" for length2; "Frequency (%)" exactly for a normalized channel with k = 100 |
| Channels.SharesTotal | src/transforms/group.js:113 | the normalized values of a group list add up to (rows in the groups) · k / n |
| Channels.Group1SharesSum | src/transforms/group.js:105-115 | with n the full data length, the one-key normalized values add up to (defined rows) · k / (all rows) |
| Channels.Group1SharesWhole | src/transforms/group.js:105-108 | when every key is defined the normalized values add up to k |
| Channels.Group1SharesWholeOnly | src/transforms/group.js:105-115 | for a non-zero k, normalized values adding up to k imply that every key is defined |
| Channels.Transform1 | src/transforms/group.js:23-32 | the callback captures n = data length before grouping; each output group's normalized value is its share of the data times k; output and index are regroup's over group1; without faceting the output is group1's groups themselves, in one range |
| Channels.Unfaceted1Output | src/transforms/group.js:23-32 | without faceting, regroup over group1 yields group1's groups and the single range covering them |
| Channels.UnfacetedShares1 | src/transforms/group.js:23-32 | without faceting, the normalized values of the groups the transform outputs add up to (defined rows) · k / (all rows) |
| Channels.Transform2 | src/transforms/group.js:40-49 | output and index are regroup's over group2, and every output triple has a positive `length3`; without faceting the output is group2's triples themselves, in one range |
| Channels.ChannelLabel | src/transforms/group.js:103 | both `length2` and `length3` are labelled "Frequency"; a size channel carries its size label, "Frequency (%)" exactly for a normalized channel with k = 100 |
| Channels.GroupX | src/transforms/group.js:5-8 | the size on y is normalized exactly when k is truthy, and then it is the freshly made channel the transform's callback updates |
| Channels.GroupY | src/transforms/group.js:10-13 | as GroupX with x and y exchanged |
| Channels.GroupXYSwap | src/transforms/group.js:5-13 | groupY's channels are groupX's with x and y swapped |
| Channels.GroupChannels | src/transforms/group.js:15-18 | group puts X on x, Y on y and `length3` on `out`, which overrides x or y when it names one; that channel is labelled "Frequency"; no size channel is normalized |
| Scenarios.ScenarioGroups | src/transforms/group.js:27 | keys "a", "a", "b", missing give the groups "a" = rows 0, 1 and "b" = row 2 |
| Scenarios.ScenarioNormalized | src/transforms/group.js:110-115 | with `normalize: true` on that data, the group "a" (two rows) gets 2 · 100 / 4 = 50 and the values add up to 75 |
| Scenarios.ScenarioPipeline | src/transforms/group.js:5-8 | `groupX` with `normalize: true`, then its transform over that data without facets: the y channel, labelled "Frequency (%)", gives "a" 50 and "b" 25 |

## Left out

- Key hashing (d3's `InternMap`): keys are values of an abstract type `K` compared by Dafny equality. That equality stands for the key identity `InternMap` uses: primitives compared by SameValueZero (NaN equals NaN, +0 equals −0), and objects by their `valueOf()`, so that, for example, Dates group by time value.
- Coercing the `normalize` option (`+normalize`): a `Normalize.Scale` value carries the already-coerced number, and strings and objects are not modelled.
- Floating point: `Number` is computed exactly over the reals, with no rounding and no signed zero.
- Helpers defined outside group.js are not part of this model:
  - `valueof`: the data is given as key columns;
  - `maybeLabel`: in the source the key channels carry a label derived from their accessor (a field name such as "c" for field `c`); `ChannelLabel` gives them None, which stands for that unmodelled label;
  - `maybeComposeTransform`: no preceding transform is composed;
  - `identity`, `first` and `second`: the key accessors;
  - `defined`: an abstract predicate `defined` on keys, the same one for X and Y.
- The spread of the remaining `options` into the returned object: only channels are modelled.
- `range(data)` is `Interval(0, |xs|)`.
- `new Set(facet)` is a Dafny `set`, so membership is the same. Facets are sequences of row indices.
- The X-level `defined1` filter is applied after d3 has built the nested grouping, as the code does. Rows with an undefined X key are still fed to the Y grouping of their own X entry, but that entry is then dropped.
- `group` has no default for `out`: when it is omitted, `[out]: L` writes a property named "undefined". `GroupChannels` covers that case as `out == "undefined"`; the model has no separate absent value for `out`.
- JavaScript arrays are Dafny sequence values. The model does not capture aliasing between the returned arrays and the caller's data.

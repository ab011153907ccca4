# vis4mesh traffic aggregation, modelled in Dafny

vis4mesh browses recorded network-on-chip traffic traces. A trace directory holds:

- `meta.json`;
- `flat.json`, a per-slice overview with one record per (slice, message type);
- `nodes.json`;
- `edge_prefix_sum/{k}.json`, one cumulative snapshot per time slice `k`, plus an optional all-zero template `-1.json`.

Every edge carries a packed traffic vector. It has one entry per (transfer type, hop unit, message type, channel), in that mixed-radix order.

This project models the engine that turns those files into what the views show:

- **FileLoader** (`src/data/fileloader.ts`): indexes the edge files by slice, then looks a slice up. If the slice is missing it falls back to the cached `-1.json` template, and if that is missing too it answers `""`.
- **LocalPort** (`src/data/localport.ts`):
  - `range(start, end)` reads the snapshot of `end - 1` and subtracts the snapshot of `start - 1`.
  - `edgeEmptyData` answers the `(0, 0)` sentinel with a zeroed template, or with a synthesised `W × H` grid.
  - `densifyOverview` completes the overview to every (slice, message type).
- **FilterMsg** (`src/controller/module/filtermsg.ts`): the truth tables behind the filter checkboxes, and `aggregate_data`. `aggregate_data` walks the packed vector with an unconditional running index and sums the entries whose four predicates all hold.
- **Timebar** (`src/timebar/timebar.ts`): the data side of the stacked bar chart.
  - It rolls the overview up per (slice, group) and per (slice, data-or-command tag).
  - It densifies the roll-up to every slice and every shown key.
  - It builds the `max_flits` row and infers the elapse.
- **Classification** (`src/data/classification.ts`): the message-type, group, data-or-command and transfer-type tables, and their reversed forms.

Supporting modules:

- **Js**: JavaScript numbers, with NaN and `undefined` reads, `|| 0` and `| 0`.
- **Text**: `${n}`, `parseInt` and string order.
- **Sorting**: a stable sort under a (number, string) comparator, with its permutation and stability lemmas.
- **Data**: the parsed records.
- **Arith**: a few multiplication facts.
- **Findings**: the two channel-factor defects below, as written and corrected.

Design choices:

- **I/O is a parameter.** Every read of the directory goes through the immutable `Loader` value. `JSON.parse` is a parameter `parse: string -> Option<seq<Edge>>`: `None` is a parse that throws, and `""` is expected to be one.
- **Numbers are `Num = Int(i) | NaN`.** `undefined + x` and `undefined - x` give NaN, so reading past a vector's end is visible in the contracts.
- **`range(0, 0)` reads slice 0.** It returns `edgeEmptyData` (`src/data/localport.ts:179-184`), and `edgeEmptyData` reads slice 0 as its template (`src/data/localport.ts:37-42`). `LocalPort.RangeSentinel` states that read.

## Model

| member | source | states |
|---|---|---|
| `FileLoader.GetEdgeFilesSpec` | src/data/fileloader.ts:25-48 | After the first `getEdgeFiles`, the file list is a permutation of the directory's edge files, sorted by filename index. A slice is a key of the map iff some edge file's name parses to it, and it maps to the last such file. |
| `FileLoader.ScanSlice` | src/data/fileloader.ts:29-42 | The scan's `Map.set` lets a later file with the same index replace an earlier one. A slice no scanned file names keeps its previous entry. |
| `FileLoader.ScanFiles` | src/data/fileloader.ts:29-42 | The scan appends exactly the entries under `edge_prefix_sum/` that are not the directory itself, in directory order. |
| `FileLoader.GetEdgeFilesIdempotent` | src/data/fileloader.ts:25-28 | A second `getEdgeFiles` changes nothing. |
| `FileLoader.SliceFileIndex` | src/data/fileloader.ts:116-118 | A file named `{k}.json` is indexed under slice `k`. |
| `FileLoader.ZeroTemplateIndex` | src/data/fileloader.ts:116-118 | `-1.json` parses to index -1, so the zero template is also indexed as slice -1. |
| `FileLoader.GetFileContent` | src/data/fileloader.ts:51-61 | The answer is the text of the first entry named `filename + ".json"`, or `""` when no entry has that name. |
| `FileLoader.EdgeFileContentBySliceSpec` | src/data/fileloader.ts:25-75 | After `getEdgeFiles` on the directory, `{slice}.json` is answered iff some edge file's name parses to `slice`. The answer is then the text of the last such file in directory order. |
| `FileLoader.ZeroTemplate` | src/data/fileloader.ts:121-136 | The template is the first entry under the edge directory named `-1.json`. It is absent iff no entry qualifies. |
| `FileLoader.ContentOrZero` | src/data/fileloader.ts:82-96 | The fallback chain: the slice's own text if indexed, else the template's, else `""`. |
| `FileLoader.SliceOrZeroIsCacheFree` | src/data/fileloader.ts:82-104 | Given a cache that agrees with the directory, `getEdgeFileContent` answers what `ContentOrZero` answers. The cache it leaves behind still agrees, and the index is unchanged. |
| `FileLoader.ZeroTemplateCached` | src/data/fileloader.ts:121-132 | Once the template has been read it is cached, and the next read returns the same text without changing the loader. |
| `Classification.ToMapEntry` | src/data/classification.ts:39-44 | A property read on an object literal yields the value of an entry with that key, and no later entry has that key. |
| `Classification.ReverseArrayIdxAndValue` | src/data/classification.ts:23-29 | The reversed array has exactly the array's values as keys. Each maps to a position holding that value, and to the last such position. |
| `Classification.IndexMapInvertsOrder` | src/data/classification.ts:31 | `MsgTypesInOrderIndexMap` sends the `i`-th message type back to `i`. |
| `Classification.ReverseObjectLookup` | src/data/classification.ts:46-56 | `reverseObject(obj)[v]` is undefined when no key has value `v`. Otherwise it lists exactly the keys with value `v`, in key order. |
| `Classification.AddKeyLookup` | src/data/classification.ts:49-53 | One step appends `k` to the list of `v`, creating `[k]` when absent. Every other value's list is unchanged. |
| `Classification.KeysWithValueMembership` | src/data/classification.ts:46-56 | A key appears in the list of `v` iff the object has that key with value `v`. |
| `Classification.MsgGroupsMapTotal` | src/data/classification.ts:39-44 | Every message type has a group in `MsgGroupsDomain`, only `Read` and `Write` occur, and the map has no other keys. |
| `Classification.DataOrCommandMapTotal` | src/data/classification.ts:73-78 | Every message type has a tag in `DataOrCommandDomain`, and the map has no other keys. |
| `Classification.TransferTypesCount` | src/data/classification.ts:80-85 | There are four distinct transfer types. This matches the literal 4 in the strides, as do the four distinct message types. |
| `Classification.DataOrCommandDomainNameExtend` | src/data/classification.ts:62-71 | `D` is `Data` and `C` is `Command`. Exactly the values outside the domain give `Invalid`. |
| `LocalPort.EdgeEmptyDataSpec` | src/data/localport.ts:37-82 | With a non-empty slice-0 template, every edge keeps its endpoints and detail, and every vector becomes zeros as long as the first edge's vector. Otherwise a negative length throws, and any other length gives the synthesised grid. |
| `LocalPort.GridEdgesSpec` | src/data/localport.ts:58-81 | The grid has `2(W-1)H + 2W(H-1)` directed links. An edge is in the grid iff it joins an in-bounds node `y*W+x` to an in-bounds 4-neighbour and carries an all-zero vector. |
| `LocalPort.RangeSentinel` | src/data/localport.ts:179-184 | `range(0, 0)` is `edgeEmptyData`, and its only read is slice 0. |
| `LocalPort.RangeRejectsExactly` | src/data/localport.ts:179-186 | The bounds error is thrown iff the window is not the sentinel and violates `0 <= start < end <= elapse`. |
| `LocalPort.RangeFromZero` | src/data/localport.ts:188-196 | With `start = 0` the window is the parsed `end - 1` snapshot unchanged. When that does not parse, the window is `edgeEmptyData`, which reads slice 0. |
| `LocalPort.RangeSubtracts` | src/data/localport.ts:198-212 | With `start > 0`, each edge's first `stride` entries become the `end - 1` entry minus the `start - 1` entry. A missing counterpart counts as 0, and writing past the end gives NaN. Entries at or beyond the stride keep their cumulative value, and endpoints are kept. |
| `LocalPort.RangeMissingStart` | src/data/localport.ts:202-215 | When the `start - 1` answer does not parse, nothing is subtracted. |
| `LocalPort.PrefixSumLaw` | src/data/localport.ts:176-221 | For two stored snapshots of one topology whose vectors are exactly `stride` long, the window is their entrywise difference. |
| `Overview.ZeroOf` | src/data/localport.ts:101-110 | A filler record has count, max flits and hop units 0 and transfer type 1. A known type gets the group and tag its own entries in `MsgGroupsMap` and `DataOrCommandMap` give it. An unknown type gets `Others` and `C`. |
| `Overview.EmptySliceBranch` | src/data/localport.ts:113-126 | The "entire slice missing" branch pushes the same records as the "missing types" branch does for an empty slice. |
| `Overview.SliceBlockSpec` | src/data/localport.ts:113-126 | One slice's block keeps the slice's records in order and holds only records of that slice. Every message type is present, and every added record is a filler. |
| `Overview.DensifyOverviewSpec` | src/data/localport.ts:88-132 | The result is ordered by id and has ids in `[0, elapse)`. Each slice keeps its input records in order as a prefix. Every in-range input record survives, every other record is a filler, and every (slice, type) is present. |
| `Overview.DensifySortIsIdentity` | src/data/localport.ts:129-130 | The final sort does not move anything: the blocks are built in ascending slice order. |
| `Overview.DensifyIdempotent` | src/data/localport.ts:88-132 | Densifying a densified overview changes nothing. |
| `Overview.InitSortIsInvisible` | src/data/localport.ts:147-154 | Sorting the overview by id before densifying does not change the result. |
| `Overview.DensifyOverviewSize` | src/data/localport.ts:112-127 | With at most one record per (slice, type) and only known types, the result has exactly `elapse × \|MsgTypes\|` records. |
| `FilterMsg.GenerateTruthTable` | src/controller/module/filtermsg.ts:238-250 | The table's keys are the full domain plus the selection, and a key is true iff it is selected. |
| `FilterMsg.IndexDomainMembership` | src/controller/module/filtermsg.ts:33 | `${i}` is in the domain `["0", …, "n-1"]` iff `i < n`, so `NumHopsDomain` is fixed to `"0"` to `"3"`. |
| `FilterMsg.InitDefaults` | src/controller/module/filtermsg.ts:54-79 | After construction the mode is ByMsgGroup and no meta is known. Every group except `Translation` is on, every tag and transfer type is on, and exactly hops 0 to 3 are on. |
| `FilterMsg.Signal` | src/controller/module/filtermsg.ts:103-113 | `"group"` and `"doc"` set the mode, any other value leaves it, and nothing else changes. |
| `FilterMsg.EnsureMeta` | src/controller/module/filtermsg.ts:118-128 | Only the first call records the meta, and it turns on exactly the channels `"0"` to `"NCH-1"`. Later calls change nothing. |
| `FilterMsg.UpdateInstTypeMsgGroupDomain` | src/controller/module/filtermsg.ts:199-204 | A group is on iff it is in the new selection. Nothing but the group table changes. |
| `FilterMsg.UpdateInstTypeDoCDomain` | src/controller/module/filtermsg.ts:206-211 | A tag is on iff selected. Nothing but the tag table changes. |
| `FilterMsg.UpdateNoCMsgTypeDomain` | src/controller/module/filtermsg.ts:213-218 | A transfer type is on iff selected. Nothing but that table changes. |
| `FilterMsg.UpdateNoCNumHopsDomain` | src/controller/module/filtermsg.ts:220-225 | A hop is on iff selected, and the full domain stays `"0"` to `"3"`. |
| `FilterMsg.UpdateChannelsDomain` | src/controller/module/filtermsg.ts:228-235 | A channel is on iff selected. The full domain has `num_channels ?? 1` entries, and 1 while no meta is known. |
| `FilterMsg.EarlyChannelUpdateIsLost` | src/controller/module/filtermsg.ts:119-128 | A channel selection made before the first `decorateData` is overwritten by the lazy initialisation. |
| `FilterMsg.Decode` | src/controller/module/filtermsg.ts:147-148 | Every index splits into (transfer type, hop, message type, channel) coordinates in range that encode back to it. |
| `FilterMsg.DecodeEncode` | src/controller/module/filtermsg.ts:147-148 | Encoding in range and decoding are inverse: the vector layout is a bijection. |
| `FilterMsg.DecodeBelowTotal` | src/controller/module/filtermsg.ts:160-185 | Every index below `4 × hops × \|MsgTypes\| × NCH` decodes to one of the four transfer types. |
| `FilterMsg.EdgeWeight` | src/controller/module/filtermsg.ts:161-185 | The four nested loops end with the index at `4 × hops × \|MsgTypes\| × NCH`. The weight is the reference sum of the entries whose four predicates hold, in index order, with an `undefined` read making it NaN. |
| `FilterMsg.AggregateData` | src/controller/module/filtermsg.ts:149-195 | One display record per edge, in edge order, with its endpoints, detail and weight, and an empty label. |
| `FilterMsg.DecorateData` | src/controller/module/filtermsg.ts:115-145 | The first call records the meta. In group mode one record per edge is appended after what was shown. In data-or-command mode nothing is shown. |
| `FilterMsg.AllSelectedIsSum` | src/controller/module/filtermsg.ts:178-181 | When every index is selected, the weight is the plain running sum. |
| `FilterMsg.NoneSelectedIsZero` | src/controller/module/filtermsg.ts:178-181 | When no index is selected, the weight is 0. |
| `FilterMsg.SumDefined` | src/controller/module/filtermsg.ts:179 | The running sum is a number iff it stays inside the vector and every entry read is a number. |
| `FilterMsg.FirstDecorateSelectsAll` | src/controller/module/filtermsg.ts:115-185 | For at most four hop units, the first `decorateData` selects every index. Its weight is the plain sum of all `4 × hops × \|MsgTypes\| × NCH` entries. |
| `FilterMsg.HopsBeyondDomainFiltered` | src/controller/module/filtermsg.ts:167-168 | Under the default hop table, entries of hop unit 4 and above are never counted. |
| `Timebar.HandleFlatResponseSpec` | src/timebar/timebar.ts:85-119 | The roll-up has one bucket per distinct (id, key) of the input, strictly ascending by id and then key. Each bucket's count is the total of its pair's records, and every record's pair has a bucket. |
| `Timebar.RollupSpec` | src/timebar/timebar.ts:88-93 | `flatRollup` yields distinct pairs, only pairs that occur, and every pair that occurs. Each pair's bucket total equals its records' total. |
| `Timebar.HandleFlatResponseSums` | src/timebar/timebar.ts:94-100 | Sorting the roll-up changes no pair's total. |
| `Timebar.AccKeyInjective` | src/timebar/timebar.ts:138 | `${s}\|${g}` determines `s` and `g`, so two pairs never share an accumulator slot. |
| `Timebar.AccumulateSum` | src/timebar/timebar.ts:139-145 | The accumulator slot of a kept pair holds the total count of that pair's compact records. |
| `Timebar.DensifyBySpec` | src/timebar/timebar.ts:133-188 | There are `max(elapse, 0) × \|domain\|` buckets, in id-then-key order. Each is in range and in the domain, with the pair's compact total (0 when absent), and every (slice, domain key) is covered. |
| `Timebar.DensifyByDistinct` | src/timebar/timebar.ts:147-158 | With a duplicate-free domain, the densified buckets are strictly ascending, so no pair appears twice. |
| `Timebar.TimebarCountsAreRawTotals` | src/timebar/timebar.ts:243-257 | After rolling up and densifying, every shown bucket's count is the total of the overview records for its slice and key. |
| `Timebar.GetMaxFlitsSpec` | src/timebar/timebar.ts:122-130 | The row is `max(id \| 0) + 1` long. Slot `i` holds the `max_flits` of the last record landing there, or 0, and negative ids leave no trace. |
| `Timebar.PadTo` | src/timebar/timebar.ts:253 | Padding keeps the row as a prefix and appends zeros up to `elapse`. |
| `Timebar.InferElapseSpec` | src/timebar/timebar.ts:199-206 | The inferred elapse is at least 1 and exceeds every `id \| 0`. It is 1, or one past some id. |
| `Timebar.ChooseElapse` | src/timebar/timebar.ts:195 | A truthy meta elapse wins. Otherwise the elapse is inferred, and it is at least 1. |
| `Timebar.ConstructorElapse` | src/timebar/timebar.ts:239 | A given elapse is kept, 0 included. Only a missing one is inferred, and it is then at least 1. |
| `Timebar.ElapseChoicesAgree` | src/timebar/timebar.ts:239 | The constructor's `??` and `RenderTimebar`'s `\|\|` (line 195) pick the same elapse iff the given elapse is not an explicit 0. |
| `Timebar.NewTimebar` | src/timebar/timebar.ts:236-241 | Without data nothing is loaded. With data, the state is exactly `loadFlatResponse` of that data at the given elapse, or at the inferred one when none is given. The elapse is truncated to 32 bits. |
| `Timebar.TimebarGroupDomainValue` | src/timebar/timebar.ts:34 | The timebar's group domain is `Read`, `Write`, `Others`. |
| `Timebar.LoadFlatResponse` | src/timebar/timebar.ts:243-265 | The elapse is truncated to 32 bits, and the shown domain is the group domain. The `max_flits` row is `max(elapse, max(id \| 0) + 1)` long. Slot `i` holds the `max_flits` of the last record landing there, or 0. The stored roll-ups are the group and tag roll-ups of the data, and the shown grid is the group roll-up densified over the default domain. |
| `Timebar.LoadFlatResponseSpec` | src/timebar/timebar.ts:243-265 | The shown chart has `3 × elapse` buckets, strictly ordered. Each is in range with a domain group and the raw overview total, and every (slice, group) is covered. |
| `Timebar.UpdateMsgGroupDomain` | src/timebar/timebar.ts:267-278 | When some selected group is not `Translation`, exactly the selection without `Translation` is shown, in order. Otherwise the full group domain is shown. The chart is re-densified, and nothing else changes. |
| `Timebar.UpdateDataOrCommandDomain` | src/timebar/timebar.ts:280-291 | A non-empty selection is shown as given, and an empty one falls back to `D`, `C`. The chart is re-densified from the tag roll-up, and nothing else changes. |
| `Timebar.LoadThenDataOrCommandCounts` | src/timebar/timebar.ts:243-291 | After loading and then choosing tags, every shown bucket lies in `[0, elapse)` and the chosen tags. Each holds its slice's raw overview total for that tag. |
| `Findings.RangeLeavesTrailingEntriesCumulative` | src/data/localport.ts:200-211 | With two or more channels, every entry at index `4 × num_hop_units × \|MsgTypes\|` or beyond keeps its `end - 1` cumulative value. The channel is the innermost coordinate, so these are the trailing transfer types' entries in every channel. It differs from the snapshot difference wherever `start - 1` had traffic. |
| `Findings.RangeCorrected` | src/data/localport.ts:176-221 | `range` with the full packed stride throws the bounds error exactly when the code as written does. |
| `Findings.CorrectedPrefixSumLaw` | src/data/localport.ts:176-221 | With the full packed stride, every entry in every channel of the window is the difference of the two snapshots. |
| `Findings.SynthesisedGridWeightIsNaN` | src/data/localport.ts:55 | With 1 to 4 hop units, two or more channels and no slice-0 template, every synthesised edge weighs NaN under the first `decorateData`. |
| `Findings.CorrectedGridWeightIsZero` | src/data/localport.ts:55 | With the full packed length, every synthesised edge weighs 0. |

## Findings

| source | as written | input that shows it | evidently intended | confidence | as-written member | corrected member |
|---|---|---|---|---|---|---|
| src/data/localport.ts:200 | The subtraction stride is `4 × num_hop_units × \|MsgTypes\|`, without the channel factor the vector layout has. | `num_hop_units = 1`, `num_channels = 2`, two stored snapshots with 32-entry vectors, and `start - 1` non-zero at entry 16. Entry 16 of the window keeps the `end - 1` value. | Subtract over all `4 × num_hop_units × \|MsgTypes\| × num_channels` entries. | high; not executed | `Findings.RangeLeavesTrailingEntriesCumulative` | `Findings.CorrectedPrefixSumLaw` |
| src/data/localport.ts:55 | The synthesised vector length `VLEN` omits the channel factor. | Slice 0 has no usable template: neither `0.json` nor the `-1.json` fallback parses to a non-empty array. With `num_hop_units = 1` and `num_channels = 2`, the vectors have 16 zeros while `aggregate_data` reads 32 entries, so every weight is NaN. | Synthesise `4 × num_hop_units × \|MsgTypes\| × num_channels` zeros, so the empty view weighs 0. | high; not executed | `Findings.SynthesisedGridWeightIsNaN` | `Findings.CorrectedGridWeightIsZero` |

## Left out

- Browser I/O: the directory picker, `File.text()`, async/await and console logging are left out. A directory is a sequence of entries with their text already read.
- `JSON.parse` is left out: it is the `parse` parameter. A snapshot whose elements lack a `value` array, or parse to something other than an array, is not modelled.
- Numbers are integers or NaN. Floating point, `snapshotByEdge` with its `count /= 20`, `CompressBigNumber` and the bandwidth percentages are left out.
- Record ids are integers from the start: `Number(d.id)` on string ids, and the NaN-named edge files that the `edgeFiles` sort compares, are left out.
- String order is code-point order on `seq<char>`. UTF-16 surrogate details of JavaScript's `<` are not modelled.
- Object property order and prototype keys are left out. An object literal is a list of entries, and a property read is a map lookup.
- Rendering is left out: the stacked chart, brush, colours, `timebar_opt` mutation, the DOM, and the event wiring between checkboxes and the modules.
- `TransferTypesInOrderExtendNames` and the colour tables are left out: they are display names only.
- The data-or-command filter mode only raises an `alert` in `decorateData`, so the model leaves the display unchanged. The tag truth table is kept but never read, as in the code.
- Loop bounds `hop_unit < num_hop_units` and `ch < NCH` with non-positive counts run no iterations. The model writes this as `Count`, and the index arithmetic assumes positive counts.
- `Timebar.LoadFlatResponse`: `Number(elapse) | 0` is modelled on integer inputs only, so the truncation of non-integers is not stated.

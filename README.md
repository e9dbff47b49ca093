# Sample loading and partitioning of the InternVL training and evaluation data pipeline

This project is a Dafny model of the index arithmetic and sample-loading logic that feeds InternVL's
training and evaluation loops, with proofs about that model. It covers three components.

- **The sharded interleaved corpus** (`InterleavedDataset`, `internvl_chat_dev/internvl/train/interleaved_dataset.py`):
  - JSON-lines parsing with trailing-character trimming (`JsonLines`);
  - the strided rank partition (`RankPartition`);
  - the hard-coded table of 6144 shards of 34190 samples (`ShardTable`);
  - the object that keeps one "hot" shard in memory and swaps it on a miss (`Interleaved.InterleavedDataset`);
  - record validation, image selection, `<image>` placeholder splicing, text rendering, the truncation check and label masking (`SampleAssembly`);
  - the skip-on-failure loop of `__getitem__`.
- **Dynamic tiling and rank slicing of `LazySupervisedDataset`** (`internvl_chat_dev/internvl/train/internvl_chat_pretrain.py`):
  - the candidate grid set, the closest-aspect-ratio search with its two overrides, and the row-major crop boxes plus the optional thumbnail (`Tiling`);
  - the contiguous per-rank line slices, `__len__`, the retry loop of `__getitem__`, the `<image>\n` prefix rule, and the patch counts of multi-modal and text-only items (`LazySupervised`).
- **The balanced contiguous inference partition** `InferenceSampler` (`internvl_chat/eval/refcoco/evaluate_grounding.py`, module `InferenceSampler`).

Collaborators the code calls but does not define are parameters of the model:
- the JSON parser (`string -> LineParse`);
- the lines of each shard file;
- SHA-256;
- whether an image loads;
- the tokenizer (`string -> seq<int>`);
- every `random.shuffle` (a function required to permute its argument);
- every `random.randint` draw (a sequence of picks);
- the rank and world size of the process group.

`common.dfy` holds the shared `Option`/`Result` types and the counting functions: Python's `sum` over booleans, `None` counts and tensor `(t == x).sum()`.

## Model

| member | source | states |
|---|---|---|
| JsonLines.FirstAccepted | internvl_chat_dev/internvl/train/interleaved_dataset.py:46-54 | the first attempt in range whose trimmed line parses; every earlier attempt is malformed |
| JsonLines.Trimmed | internvl_chat_dev/internvl/train/interleaved_dataset.py:54 | `line[:-1]` applied `k` times is a prefix of the line, `k` characters shorter, or empty |
| JsonLines.TrimmedStep | internvl_chat_dev/internvl/train/interleaved_dataset.py:54 | each retry drops exactly one trailing character |
| JsonLines.LoadJsonLine | internvl_chat_dev/internvl/train/interleaved_dataset.py:44-57 | the attempt loop returns exactly what the reference `LoadLine` describes |
| JsonLines.LoadLineSpec | internvl_chat_dev/internvl/train/interleaved_dataset.py:44-57 | the value of `line[:len-k]` is returned for the first parsable `k < try_times`; a JSON `null` there raises with the trimmed text |
| JsonLines.LoadLineAllMalformed | internvl_chat_dev/internvl/train/interleaved_dataset.py:53-56 | when no attempt parses, the error carries the line trimmed `try_times` times, not the original |
| JsonLines.LoadLineSuccessHasWitness | internvl_chat_dev/internvl/train/interleaved_dataset.py:44-57 | every success comes from a first parsable attempt below `try_times` |
| JsonLines.StripStart | internvl_chat_dev/internvl/train/interleaved_dataset.py:77 | leading whitespace removed: a suffix of the input not starting with a space, and every removed character is a space |
| JsonLines.StripEnd | internvl_chat_dev/internvl/train/interleaved_dataset.py:77 | trailing whitespace removed: a prefix of the input not ending with a space, and every removed character is a space |
| JsonLines.KeptLines | internvl_chat_dev/internvl/train/interleaved_dataset.py:76-77 | no more lines than the input, each one kept (stripped length above 2) |
| JsonLines.KeptLinesExact | internvl_chat_dev/internvl/train/interleaved_dataset.py:76-77 | a line is in the output iff it is in the input and its stripped length exceeds 2 |
| JsonLines.KeptLinesConcat | internvl_chat_dev/internvl/train/interleaved_dataset.py:76-77 | the kept lines of a concatenation are the kept lines of each part, concatenated: input order is kept |
| JsonLines.LoadJsonl | internvl_chat_dev/internvl/train/interleaved_dataset.py:75-83 | the line loop returns exactly the reference `LoadLines` |
| JsonLines.LoadLinesFailureSticks | internvl_chat_dev/internvl/train/interleaved_dataset.py:78-82 | once a prefix of the file fails, the whole file fails with the same line |
| JsonLines.LoadLinesSuccess | internvl_chat_dev/internvl/train/interleaved_dataset.py:75-83 | on success, one record per kept line, in input order, each the result of `load_json_line` on that line |
| JsonLines.LoadLinesFailure | internvl_chat_dev/internvl/train/interleaved_dataset.py:76-82 | on failure, the error names the first kept line that `load_json_line` rejects, untrimmed, and all earlier kept lines load |
| RankPartition.PartitionForRank | internvl_chat_dev/internvl/train/interleaved_dataset.py:92-97 | output position `k` exists iff `rank + k*W < len`, and holds `items[rank + k*W]` |
| RankPartition.StridePositionUnique | internvl_chat_dev/internvl/train/interleaved_dataset.py:94 | position `i` is taken by rank `r` at place `k` iff `r = i % W` and `k = i / W`, so the ranks' outputs partition the input |
| RankPartition.SingleRankIsIdentity | internvl_chat_dev/internvl/train/interleaved_dataset.py:127 | with `rank=0, world_num=1` the partition returns its input |
| ShardTable.Decimal | internvl_chat_dev/internvl/train/interleaved_dataset.py:134 | the decimal rendering is non-empty and has one digit iff `n < 10` |
| ShardTable.DecimalInjective | internvl_chat_dev/internvl/train/interleaved_dataset.py:134 | distinct numbers have distinct decimal renderings |
| ShardTable.ShardNameInjective | internvl_chat_dev/internvl/train/interleaved_dataset.py:134 | distinct shard ids give distinct file names |
| ShardTable.BuildTable | internvl_chat_dev/internvl/train/interleaved_dataset.py:133-139 | one table entry per position of the shard order |
| ShardTable.TableLayout | internvl_chat_dev/internvl/train/interleaved_dataset.py:133-139 | position `i` holds the name of `shard_order[i]` and the inclusive range `[N*i, N*(i+1)-1]`; consecutive ranges abut |
| ShardTable.TableNamesDistinct | internvl_chat_dev/internvl/train/interleaved_dataset.py:126-139 | for a permutation of `range(6144)` the table's names are pairwise distinct |
| ShardTable.CoversDivision | internvl_chat_dev/internvl/train/interleaved_dataset.py:171 | the inclusive test at position `i` accepts exactly the indices with `index // N == i` |
| ShardTable.ScanHalfOpen | internvl_chat_dev/internvl/train/interleaved_dataset.py:174-175 | the miss scan as written: the first position whose half-open range holds the index, or none anywhere |
| ShardTable.Scan | internvl_chat_dev/internvl/train/interleaved_dataset.py:174-175 | the corrected miss scan: the first position whose inclusive range holds the index, or none anywhere |
| ShardTable.ScanFindsOwner | internvl_chat_dev/internvl/train/interleaved_dataset.py:174-176 | every index in `[0, _length)` is found at position `index // N`; negative indices are found nowhere |
| ShardTable.ScanHalfOpenMissesShardEnd | internvl_chat_dev/internvl/train/interleaved_dataset.py:171-175 | the last index `N*(i+1)-1` of every shard is missed by the scan as written but served by the inclusive test |
| ShardTable.HalfOpenDivision | internvl_chat_dev/internvl/train/interleaved_dataset.py:175 | a half-open range holds only its own shard's indices other than the last |
| ShardTable.ShardEndMissed | internvl_chat_dev/internvl/train/interleaved_dataset.py:175 | for every shard order, an index whose remainder by `N` is `N-1` is held by no half-open range |
| ShardTable.FirstShardEndMissed | internvl_chat_dev/internvl/train/interleaved_dataset.py:175 | index 34189 is matched by no half-open range |
| Interleaved.DatasetLength | internvl_chat_dev/internvl/train/interleaved_dataset.py:154-157 | `len` is `34190 * 6144` when `train_num_samples` is unset and raises otherwise |
| Interleaved.Reduce | internvl_chat_dev/internvl/train/interleaved_dataset.py:168-169 | a non-negative index lands in `[0, _length)` in its residue class; an index below `_length`, negative ones included, is unchanged |
| Interleaved.ReducePeriodic | internvl_chat_dev/internvl/train/interleaved_dataset.py:168-172 | indices one corpus length apart read the same position |
| Interleaved.Range | internvl_chat_dev/internvl/train/interleaved_dataset.py:126 | `list(range(n))` holds `0..n-1` at their own positions |
| Interleaved.RangeMultiplicity | internvl_chat_dev/internvl/train/interleaved_dataset.py:126 | each of `0..n-1` occurs once in `range(n)`, nothing else occurs |
| Interleaved.ShuffledRangeIsShardPermutation | internvl_chat_dev/internvl/train/interleaved_dataset.py:126-129 | any shuffle of `range(6144)` is a valid shard order: 6144 distinct ids below 6144 |
| Interleaved.PositionOf | internvl_chat_dev/internvl/train/interleaved_dataset.py:170 | the dictionary lookup: the first position holding the name, or none |
| Interleaved.PositionOfHolder | internvl_chat_dev/internvl/train/interleaved_dataset.py:170 | with distinct names the lookup of position `p`'s name returns `p` |
| Interleaved.Retry | internvl_chat_dev/internvl/train/interleaved_dataset.py:305 | the next index is `(index + 1) % _length`, or `len(self)` raises when `train_num_samples` is set |
| Interleaved.IndexAtAttemptClosedForm | internvl_chat_dev/internvl/train/interleaved_dataset.py:298-306 | attempt `t > 0` tries `(index + t) % _length`, always within `[0, _length)` |
| Interleaved.RetryLoopStep | internvl_chat_dev/internvl/train/interleaved_dataset.py:299-306 | one turn: a success ends the loop with that item at the attempt's index; a failure raises from `len(self)` or continues with the next attempt |
| Interleaved.RetryLoopFrom | internvl_chat_dev/internvl/train/interleaved_dataset.py:299-306 | after `t` failed attempts the rest of the loop is explained by its attempts |
| Interleaved.RetryLoopExplained | internvl_chat_dev/internvl/train/interleaved_dataset.py:298-307 | for every `getitem`, an item comes from attempt `t` at index `IndexAtAttempt(t)` after `t` failures; running out means every attempt failed; `len(self)` raises only after the first failure; when every attempt fails the loop runs out or `len(self)` raises |
| Interleaved.At | internvl_chat_dev/internvl/train/interleaved_dataset.py:172 | a record exactly when the offset is within the shard's data, and it is the element there; otherwise an IndexError |
| Interleaved.InterleavedDataset.Init | internvl_chat_dev/internvl/train/interleaved_dataset.py:102-144 | the fields are the given configuration, the hot shard is position 0 and holds the given data; it loads nothing and does not establish `Valid()`, which `Open` proves after loading the first shard |
| Interleaved.InterleavedDataset.Open | internvl_chat_dev/internvl/train/interleaved_dataset.py:121-144 | construction succeeds iff the first shard of the (optionally shuffled) order loads; then the state is valid and consistent with position 0 hot, the configuration is the arguments, the hot name is the first shard's, and the data is that shard's `load_jsonl` records shuffled |
| Interleaved.InterleavedDataset.LoadAnnFile | internvl_chat_dev/internvl/train/interleaved_dataset.py:146-152 | `load_ann_file` on a shard returns what `load_jsonl` returns for the file's lines |
| Interleaved.InterleavedDataset.LoadStep | internvl_chat_dev/internvl/train/interleaved_dataset.py:166-181 | the reference `load_data`: a record comes from a shard whose inclusive range holds the index; a miss changes nothing; a failed load keeps the old records |
| Interleaved.InterleavedDataset.LoadData | internvl_chat_dev/internvl/train/interleaved_dataset.py:166-181 | the new hot state and result are `LoadStep`: the inclusive hit test on the hot shard returns the record at `index - start` and changes nothing, otherwise the half-open scan as written; a miss on a shard's last index returns `None` and changes nothing; a returned record belongs to the hot shard's file |
| Interleaved.InterleavedDataset.Swap | internvl_chat_dev/internvl/train/interleaved_dataset.py:173-181 | the scan as written: the new state and result are `MissStep` of the first half-open match, or `None` with nothing changed; an index in a shard's last slot always finds none |
| Interleaved.InterleavedDataset.SwapInclusive | internvl_chat_dev/internvl/train/interleaved_dataset.py:173-181 | the scan with the inclusive test: `MissStep` of the first inclusive match; every index of the corpus finds shard position `index // N`, never `None` |
| Interleaved.InterleavedDataset.LoadDataInclusive | internvl_chat_dev/internvl/train/interleaved_dataset.py:166-181 | `load_data` with the inclusive scan: a hit as before, a miss as `SwapInclusive`; no non-negative index returns `None` |
| Interleaved.InterleavedDataset.MakeHot | internvl_chat_dev/internvl/train/interleaved_dataset.py:176-181 | the new state and result are `HotStep`: the name is switched before loading; the shuffled records replace the data and the record at `k - start` is returned, or the load raises and the old data stays under the new name |
| Interleaved.InterleavedDataset.LoadStepShardEnd | internvl_chat_dev/internvl/train/interleaved_dataset.py:171-175 | from every hot state, a miss for an index in a shard's last slot changes nothing and returns `None` |
| Interleaved.InterleavedDataset.ItemOf | internvl_chat_dev/internvl/train/interleaved_dataset.py:236-238 | `getitem` succeeds only on a record, and then with a well-formed bundle |
| Interleaved.InterleavedDataset.GetItem | internvl_chat_dev/internvl/train/interleaved_dataset.py:234-296 | the new state and result are `Attempt`: the state `load_data` leaves, and `Assembled` of a record, or `NoRecord`, `RecordIndexError`, `ShardLoadFailed` for `None`, an IndexError or a failed load; every item is well-formed |
| Interleaved.InterleavedDataset.GetItemSkipping | internvl_chat_dev/internvl/train/interleaved_dataset.py:298-307 | the new state and outcome are `RetryLoop` over the `getitem` attempts; every item is well-formed; the loop ends with an error only when `len(self)` raises |
| SampleAssembly.DefaultMetadata | internvl_chat_dev/internvl/train/interleaved_dataset.py:207-214 | one entry per image, `None` exactly where the image is `None` |
| SampleAssembly.ParseSample | internvl_chat_dev/internvl/train/interleaved_dataset.py:204-225 | a record that is not an object with `images`/`texts` lists fails with `NotARecord`, and only it; otherwise success iff the metadata is a list and the length, count and `None`-agreement checks hold; the default `valid_image` is all true, one per image |
| SampleAssembly.DefaultMetadataAlwaysAgrees | internvl_chat_dev/internvl/train/interleaved_dataset.py:207-224 | without a `metadata` field the `None`-agreement check cannot fail |
| SampleAssembly.PathsOf | internvl_chat_dev/internvl/train/interleaved_dataset.py:240-241 | one path per non-`None` image, in order: the path for the `j`-th non-`None` image joins the image root with its hash |
| SampleAssembly.ImagePaths | internvl_chat_dev/internvl/train/interleaved_dataset.py:240-241 | the same within the zip with the metadata: the path for the `j`-th non-`None` image joins the image root with its hash |
| SampleAssembly.SelectPrefixSpec | internvl_chat_dev/internvl/train/interleaved_dataset.py:243-256 | an entry stays valid iff it was valid, fewer than `max_num_images` were kept before it, and it loads; a false entry stays false; at most `max_num_images` are kept |
| SampleAssembly.SelectPrefixBound | internvl_chat_dev/internvl/train/interleaved_dataset.py:247-253 | no more than `max_num_images` entries are kept |
| SampleAssembly.SelectImages | internvl_chat_dev/internvl/train/interleaved_dataset.py:243-256 | the loop's new `valid_image` is the selection mask; the loaded images are the kept paths in order, as many as the kept entries and no more than the pairs |
| SampleAssembly.SelectEntry | internvl_chat_dev/internvl/train/interleaved_dataset.py:246-255 | one pair is kept iff it was valid, the count is below the maximum, and the image loads |
| SampleAssembly.SelectStep | internvl_chat_dev/internvl/train/interleaved_dataset.py:245-255 | one turn of the loop extends the selected prefix and the loaded list by that entry |
| SampleAssembly.NoneRank | internvl_chat_dev/internvl/train/interleaved_dataset.py:262-265 | the image counter at a `None` slot is below the number of `None` slots |
| SampleAssembly.SpliceImagePlaceholders | internvl_chat_dev/internvl/train/interleaved_dataset.py:260-265 | `<image>` is written exactly into the `None` slots whose image is still valid; other slots are unchanged |
| SampleAssembly.SpliceStep | internvl_chat_dev/internvl/train/interleaved_dataset.py:260-265 | the image counter advances exactly at `None` slots, and slot `i` takes image number `CountNone(texts[..i])` |
| SampleAssembly.NonEmptyTexts | internvl_chat_dev/internvl/train/interleaved_dataset.py:266 | no more texts than slots, all non-empty |
| SampleAssembly.NonEmptyTextsExact | internvl_chat_dev/internvl/train/interleaved_dataset.py:266 | a text is kept iff some slot holds it and it is non-empty |
| SampleAssembly.NonEmptyTextsConcat | internvl_chat_dev/internvl/train/interleaved_dataset.py:266 | the texts kept from a concatenation are those of each part, concatenated: slot order is kept |
| SampleAssembly.ReplaceAbsent | internvl_chat_dev/internvl/train/interleaved_dataset.py:268 | replacing a pattern that does not occur leaves the text unchanged |
| SampleAssembly.CharAbsent | internvl_chat_dev/internvl/train/interleaved_dataset.py:268-270 | a pattern with a character the text lacks does not occur in it |
| SampleAssembly.JoinAvoids | internvl_chat_dev/internvl/train/interleaved_dataset.py:266 | joining texts and a separator that lack a character gives a text that lacks it |
| SampleAssembly.JoinImageAndCaption | internvl_chat_dev/internvl/train/interleaved_dataset.py:266 | `["<image>", "caption"]` joins to `<image>\n\ncaption` |
| SampleAssembly.CleanupImageAndCaption | internvl_chat_dev/internvl/train/interleaved_dataset.py:268 | the cleanup turns `<image>\n\ncaption` into `<image>caption` |
| SampleAssembly.RenderOneImageThenCaption | internvl_chat_dev/internvl/train/interleaved_dataset.py:266-270 | one kept image then a caption renders as the placeholder block followed directly by the caption |
| SampleAssembly.JoinPieces | internvl_chat_dev/internvl/train/interleaved_dataset.py:268-270 | `s.replace(pat, rep, count)` is the pieces of `s` joined by `rep` |
| SampleAssembly.ReplaceSelf | internvl_chat_dev/internvl/train/interleaved_dataset.py:268-270 | replacing a pattern by itself changes nothing, so the pieces joined by `pat` give back `s` |
| SampleAssembly.PiecesCount | internvl_chat_dev/internvl/train/interleaved_dataset.py:270 | `min(count, s.count(pat))` occurrences are rewritten (all for a negative count), and the untouched rest holds the others |
| SampleAssembly.PiecesAvoid | internvl_chat_dev/internvl/train/interleaved_dataset.py:270 | the rewritten occurrences are the leftmost: no piece before the last holds the pattern |
| SampleAssembly.ReplacePieces | internvl_chat_dev/internvl/train/interleaved_dataset.py:268-270 | for every text, `replace` cuts it into pieces around its first `min(count, s.count(pat))` occurrences and puts `rep` where `pat` was; nothing else changes |
| SampleAssembly.RenderTextPieces | internvl_chat_dev/internvl/train/interleaved_dataset.py:266-270 | for every record, the rendered text is the cleaned text with its leftmost `min(len(images), count of <image>)` tags each replaced by one placeholder block and nothing else changed; with at least `len(images)` tags there are exactly `len(images)` blocks |
| SampleAssembly.RenderTextWithoutTags | internvl_chat_dev/internvl/train/interleaved_dataset.py:266-270 | for every record whose texts hold no `<`, the cleanup and the placeholder replacement change nothing: the rendered text is the blank-line join of the non-empty texts |
| SampleAssembly.MaskId | internvl_chat_dev/internvl/train/interleaved_dataset.py:286-288 | positions holding the id become -100, all others are kept |
| SampleAssembly.MaskLabels | internvl_chat_dev/internvl/train/interleaved_dataset.py:286-288 | labels equal the input ids except that start, end and context ids become -100 |
| SampleAssembly.ImageTokenTotalIsProduct | internvl_chat_dev/internvl/train/interleaved_dataset.py:285 | one run of `num_image_token` per image is `num_image_token * len(images)` context tokens |
| SampleAssembly.Assembled | internvl_chat_dev/internvl/train/interleaved_dataset.py:234-296 | parse errors propagate; `NoValidImage` exactly when no image was loaded or no entry stays valid; a success is well-formed, has one patch per loaded image, and its ids tokenize the text spliced with the selection mask |
| SampleAssembly.Assemble | internvl_chat_dev/internvl/train/interleaved_dataset.py:234-296 | the steps of `getitem` after `load_data` compute `Assembled` |
| SampleAssembly.Tokenize | internvl_chat_dev/internvl/train/interleaved_dataset.py:266-295 | success iff the context-id count is `num_image_token * num_patches`, else `ImageTokensTruncated`; then labels are masked, attention is `ids != pad`, and there is one flag 1 per patch |
| Tiling.CandidatesUpToExact | internvl_chat_dev/internvl/train/internvl_chat_pretrain.py:275-277 | the generator up to `n = m` yields exactly the grids with sides in `[1, m]` and area in `[min_num, max_num]` |
| Tiling.CandidateSetExact | internvl_chat_dev/internvl/train/internvl_chat_pretrain.py:275-277 | the candidate set is exactly `{(i, j) : 1 <= i, j <= max_num, min_num <= i*j <= max_num}` |
| Tiling.CandidatesHavePositiveRows | internvl_chat_dev/internvl/train/internvl_chat_pretrain.py:275-277 | every candidate has positive sides, so `i / j` is defined |
| Tiling.ClosestIndex | internvl_chat_dev/internvl/train/internvl_chat_pretrain.py:250-258 | the earliest candidate with the least ratio difference; none iff there are no candidates |
| Tiling.ClosestIndexStep | internvl_chat_dev/internvl/train/internvl_chat_pretrain.py:253-258 | one more candidate replaces the best exactly when it is strictly closer |
| Tiling.ClosestCandidate | internvl_chat_dev/internvl/train/internvl_chat_pretrain.py:250-258 | the search loop returns the earliest closest candidate, or `(1,1)` with none |
| Tiling.Override | internvl_chat_dev/internvl/train/internvl_chat_pretrain.py:259-267 | `(2,3)`/`(3,2)` under `4s²` join `(1,1)`/`(2,2)`, which are decided by area against `s²`; every other grid is kept |
| Tiling.FindClosestAspectRatio | internvl_chat_dev/internvl/train/internvl_chat_pretrain.py:249-268 | the search, then the overrides, as `ChooseGrid` |
| Tiling.ChooseGridIsCandidate | internvl_chat_dev/internvl/train/internvl_chat_pretrain.py:259-267 | with the default bounds the result is always a candidate grid |
| Tiling.SquareImageGrid | internvl_chat_dev/internvl/train/internvl_chat_pretrain.py:249-268 | for a square image and bounds admitting no square bigger than `(2,2)`, the result is `(1,1)` iff `w*h < s²`, else `(2,2)`, in every candidate order |
| Tiling.ClosestToSquare | internvl_chat_dev/internvl/train/internvl_chat_pretrain.py:253-258 | for ratio 1 the closest candidate is `(1,1)` or `(2,2)` |
| Tiling.SquareImageGridDefaults | internvl_chat_dev/internvl/train/internvl_chat_pretrain.py:270-281 | the same result under the default bounds 1 and 6 |
| Tiling.UnitRatioIsSquare | internvl_chat_dev/internvl/train/internvl_chat_pretrain.py:254-255 | a grid at distance 0 from ratio 1 is square |
| Tiling.SquareGridsBelowNine | internvl_chat_dev/internvl/train/internvl_chat_pretrain.py:276-277 | the only square grids of area below 9 are `(1,1)` and `(2,2)` |
| Tiling.BoxInside | internvl_chat_dev/internvl/train/internvl_chat_pretrain.py:291-297 | each box is `s × s` and lies inside the resized `cols*s × rows*s` image |
| Tiling.BoxesDisjoint | internvl_chat_dev/internvl/train/internvl_chat_pretrain.py:291-301 | distinct tiles have interior-disjoint boxes |
| Tiling.BoxesCover | internvl_chat_dev/internvl/train/internvl_chat_pretrain.py:291-301 | every point of the resized image lies in the box of the tile numbered row-major from its cell |
| Tiling.BoxOfCell | internvl_chat_dev/internvl/train/internvl_chat_pretrain.py:292-297 | tile `r*cols + c` is the cell in column `c` and row `r` |
| Tiling.CutBoxes | internvl_chat_dev/internvl/train/internvl_chat_pretrain.py:291-301 | the crop loop yields exactly `blocks` boxes, box `k` at column `k % cols`, row `k // cols` |
| Tiling.GridTiles | internvl_chat_dev/internvl/train/internvl_chat_pretrain.py:284-305 | `cols*rows` crops in row-major order, then a thumbnail iff asked for and there is more than one crop |
| Tiling.GridPositive | internvl_chat_dev/internvl/train/internvl_chat_pretrain.py:280-286 | the chosen grid has positive sides |
| Tiling.DynamicPreprocess | internvl_chat_dev/internvl/train/internvl_chat_pretrain.py:270-305 | fails exactly on a zero height or image size; otherwise the chosen grid, its row-major crops and the optional thumbnail |
| LazySupervised.SliceEndFits | internvl_chat_dev/internvl/train/internvl_chat_pretrain.py:220-223 | every rank's slice ends within the file |
| LazySupervised.RankSlice | internvl_chat_dev/internvl/train/internvl_chat_pretrain.py:220-223 | every rank holds exactly `total // W` lines |
| LazySupervised.ConcatRanksIsPrefix | internvl_chat_dev/internvl/train/internvl_chat_pretrain.py:220-223 | the first `m` ranks' slices laid end to end are the first `lpr*m` lines: contiguous and disjoint |
| LazySupervised.DatasetLen | internvl_chat_dev/internvl/train/internvl_chat_pretrain.py:246-247 | `__len__` is the line count less the `total % W` lines no rank holds |
| LazySupervised.AllRanksDropRemainder | internvl_chat_dev/internvl/train/internvl_chat_pretrain.py:246-247 | all ranks hold the first `__len__ = lpr*W <= total` lines; the last `total % W` lines belong to none |
| LazySupervised.RetryFrom | internvl_chat_dev/internvl/train/internvl_chat_pretrain.py:377-394 | the reference retry loop: never the zero-length error; an item, an unparsable line or a raising handler names a line tried from attempt `t` on, with the matching parse, build and logging outcome |
| LazySupervised.Stop | internvl_chat_dev/internvl/train/internvl_chat_pretrain.py:378-390 | an attempt that does not retry ends with its item iff the line parses and builds, `Unparseable` iff `json.loads` raises, and `HandlerRaised` iff it builds nothing and the handler's logging raises |
| LazySupervised.RetryFromExplained | internvl_chat_dev/internvl/train/internvl_chat_pretrain.py:377-394 | the loop ends at the first attempt that does not retry, every earlier one parsed, failed and was logged; it gives up exactly when every attempt retries |
| LazySupervised.GetItem | internvl_chat_dev/internvl/train/internvl_chat_pretrain.py:375-395 | no lines raises; otherwise the outcome is `RetryFrom` over the lines `[i % n] + picks`: after a failure it tries the next drawn line, and leaves only with an item or an exception raised in the handler |
| LazySupervised.GetItemExplained | internvl_chat_dev/internvl/train/internvl_chat_pretrain.py:375-395 | for every configuration: an item, an unparsable line or a raising handler comes from the first attempt that does not retry, all earlier ones failed; it gives up iff every attempt parses, fails and is logged |
| LazySupervised.WithImageTagOccurs | internvl_chat_dev/internvl/train/internvl_chat_pretrain.py:308-309 | after the rule the value mentions `<image>`, and is unchanged iff it already did |
| LazySupervised.PrefixFirstTurn | internvl_chat_dev/internvl/train/internvl_chat_pretrain.py:308-309 | only the first turn changes, it then mentions `<image>`, and it is unchanged iff it already did; no turns raises |
| LazySupervised.PrefixFirstTurnIdempotent | internvl_chat_dev/internvl/train/internvl_chat_pretrain.py:308-309 | applying the rule twice equals applying it once |
| LazySupervised.MultiModalPatches | internvl_chat_dev/internvl/train/internvl_chat_pretrain.py:321-344 | one patch without tiling, otherwise the tile count of the chosen grid, between 1 and 7; flags all 1; token budget `num_image_token * num_patches` |
| LazySupervised.TileCountBounds | internvl_chat_dev/internvl/train/internvl_chat_pretrain.py:270-305 | with the default bounds a tiling yields between 1 and 7 images |
| LazySupervised.PureTextPatches | internvl_chat_dev/internvl/train/internvl_chat_pretrain.py:348-371 | one patch flagged 0 iff the image size exceeds 224; with the default 224 the assertion fails |
| LazySupervised.BlankBelowSquare | internvl_chat_dev/internvl/train/internvl_chat_pretrain.py:264 | the 224×224 blank is below `s²` iff `s > 224` |
| InferenceSampler.ShardSizes | internvl_chat/eval/refcoco/evaluate_grounding.py:93-95 | rank `r` gets `total // W` plus one iff `r < total % W`; lower ranks get at least as many, never more than one extra |
| InferenceSampler.BalancedPrefixSum | internvl_chat/eval/refcoco/evaluate_grounding.py:95-97 | the first `r` sizes sum to `r*q + min(r, rem)` |
| InferenceSampler.PrefixSumClosedForm | internvl_chat/eval/refcoco/evaluate_grounding.py:97 | `begin(r) = r * (total // W) + min(r, total % W)` |
| InferenceSampler.PrefixSumMonotone | internvl_chat/eval/refcoco/evaluate_grounding.py:97-98 | prefix sums never decrease |
| InferenceSampler.SizesSumToTotal | internvl_chat/eval/refcoco/evaluate_grounding.py:93-95 | the sizes add up to `total` |
| InferenceSampler.EndIsPrefixSum | internvl_chat/eval/refcoco/evaluate_grounding.py:98 | the `min(..., total)` never changes `end` |
| InferenceSampler.LocalIndices | internvl_chat/eval/refcoco/evaluate_grounding.py:92-99 | `_get_local_indices`: the range lies within `[0, total]` and never runs backwards |
| InferenceSampler.LocalIndicesClosedForm | internvl_chat/eval/refcoco/evaluate_grounding.py:97-98 | both ends of a rank's range in closed form |
| InferenceSampler.LocalSize | internvl_chat/eval/refcoco/evaluate_grounding.py:92-99 | rank `r`'s range holds `total // W + (1 if r < total % W else 0)` indices |
| InferenceSampler.RangesTile | internvl_chat/eval/refcoco/evaluate_grounding.py:92-99 | `begin(0) = 0`, `end(r) = begin(r+1)`, `end(W-1) = total` |
| InferenceSampler.EachIndexHasOneOwner | internvl_chat/eval/refcoco/evaluate_grounding.py:92-99 | every index in `[0, total)` lies in exactly one rank's range |
| InferenceSampler.EndsBeforeLaterBegins | internvl_chat/eval/refcoco/evaluate_grounding.py:95-98 | blocks appear in ascending rank order |
| InferenceSampler.NewSampler | internvl_chat/eval/refcoco/evaluate_grounding.py:84-89 | construction succeeds iff `size > 0`, with the local range of its rank |
| InferenceSampler.IterSpec | internvl_chat/eval/refcoco/evaluate_grounding.py:101-105 | `__iter__` yields `begin..end-1` ascending, all within `[0, size)`, and `__len__ = end - begin` |
| InferenceSampler.AllItersCount | internvl_chat/eval/refcoco/evaluate_grounding.py:92-102 | ranks `0..m-1` together yield `0, 1, ..., end(m-1) - 1` once each, in order; over all ranks that is the whole evaluation set |

## Left out

- I/O: opening files, the Petrel/S3 client, `time.sleep` and the "at most 10 attempts" loops of `load_json`/`load_jsonl` (interleaved_dataset.py:19-41, 60-73) are not modelled. A shard file is given as its lines. After 10 failed fetches, `bytes` is `None` or unbound, and that case is not represented.
- `load_ann_file` with a `.json` path or an unsupported extension: the shard names always end in `.jsonl`, so only the `load_jsonl` branch is modelled.
- Image decoding, resizing and cropping (PIL), `build_transform`, `preprocess_image` and `torch.stack`: the model keeps only the crop boxes, the tile counts, and whether an image loads (a parameter).
- The tokenizer and the `preprocess*` conversation functions are not defined in these files. The tokenizer is a function parameter. `preprocess*` appear only through the image-token budget handed to them. The module-level `tokenizer` that `getitem` reads (present only under `__main__`) is the same parameter.
- SHA-256 file naming is a function parameter. `json.loads` of a metadata string is a parameter returning the list or nothing.
- Randomness: `random.shuffle` is an arbitrary permutation (a function required to preserve the multiset), and `random.randint` draws are a given sequence of picks.
- `torch.distributed.get_rank`/`get_world_size` are parameters with `world > 0` and `rank < world`.
- RankPartition.PartitionForRank: requires `world > 0`. Python's `range` with step 0 raises instead, and that error is not modelled.
- Interleaved.InterleavedDataset.GetItemSkipping: the source retries forever. The model stops after the given shuffles run out (`OutOfAttempts`), so it does not capture non-termination when every index fails.
- LazySupervised.GetItem: the source retries forever. The model stops after the given picks run out (`GaveUp`). Building the item is the predicate `succeeds`, not the full multi-modal/text-only pipeline, and whether the handler's `'image'` logging raises is the predicate `logs`, not a model of the record's JSON shape.
- SampleAssembly.ParseSample: every ill-typed record is the one value `Unshaped`, which fails with `NotARecord`, so `load_jsonl` still accepts its shard and `__getitem__` skips it. Which statement of `getitem` raises is not distinguished, and an ill-typed record that gets through `getitem` without raising is not represented.
- Tiling.FindClosestAspectRatio: aspect ratios are exact rationals. Python float rounding could break a tie differently.
- `deepcopy` of the returned record is not modelled; values are immutable here.
- `check_shard_id_range` is never called and is not modelled.
- `str.strip()` is modelled for the ASCII whitespace set only.
- The `group_by_length` token-length cache, the `.ds_name` attribute, logging and `print` are not modelled.
- Interleaved.InterleavedDataset.LoadData: the `assert self.shard_mode` always holds (it is set to `True`) and is not modelled.
- `RefCOCODataset`, `collate_fn`, the evaluation loop, `box_iou`, and the distributed gather in evaluate_grounding.py are outside the model.

The model follows the code in two places where it behaves oddly. `load_data` renames the hot shard before loading its file, so a load that raises leaves the new name attached to the old shard's data; `MakeHot` states that outcome. The miss scan of `load_data` tests half-open ranges and is modelled as written (`Swap`, `LoadData`, and so `GetItem`); the inclusive scan it evidently intends is `SwapInclusive` and `LoadDataInclusive` (see Findings). `__len__` of `InterleavedDataset` reads `self.data_args` when `train_num_samples` is set, and that attribute is never assigned, so it raises; `DatasetLength` and `Retry` model the error.

## Findings

| source | as written | input that shows it | evidently intended | confidence | as-written member | corrected member |
|---|---|---|---|---|---|---|
| internvl_chat_dev/internvl/train/interleaved_dataset.py:175 | the miss scan tests `start <= index < end` with `end` the shard's last index (inclusive, line 136), so the last sample of every shard is never found | index 34189 when the hot shard is not the first one: no range matches, `load_data` returns `None`, and `getitem` fails | `start <= index <= end`, as in the hit test of line 171 | high (not executed) | ShardTable.ScanHalfOpenMissesShardEnd | Interleaved.InterleavedDataset.LoadDataInclusive |

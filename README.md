# gafpack coverage projection, modelled in Dafny

gafpack projects sequence alignments (GAF records) onto the nodes of a
pangenome graph (GFA) and reports one coverage value per node. This project
models the core of `src/main.rs`:

- **The node-length index** (`parse_gfa`), in module `Gfa`. Every segment line
  `S <tab> id <tab> sequence` maps `id` to the UTF-8 byte length of its
  sequence, and a later line replaces an earlier one. The result is a dense
  vector over `min_id ..= max_id`, zero where no segment was declared.
  `ParseGfa` is the source's loop over the lines, followed by filling a zeroed
  array from the map. It is proved equal to the specification `GfaIndex`, and
  lemmas say which line every slot comes from.
- **The step allocator** (`for_each_step`), in modules `Walk` and `Steps`.
  - The walk (field 5) is split on `<` and `>`, and every non-empty token is
    parsed as a `usize`.
  - The first node is trimmed by the target start, interior nodes count in
    full, and the last node takes what is left of `target_end - target_start`.
  - `AllocateSteps` is the source's loop, including its running `seen` total.
    It is proved against the closed form `Allocate`, which holds the
    conservation and first/interior/last properties.
- **The unweighted projection** (`main`, lines 209-218), in module
  `Coverage`. A zeroed vector receives `coverage[node_id - min_id] += len` for
  every step of every record. `AccumulateSteps` updates the array in place.
  Lemmas prove that each slot is the total length its node receives, and that
  the vector sums to the covered lengths of all records.
- **The query weighting** (`main`, lines 183-207), in module `Queries`.
  - The first pass counts records per query key (`fields[0]:fields[2]:fields[3]`).
  - The second pass looks every record's key up, defaulting to 1, and panics
    on records with fewer than four fields.

Every panic of the source (`unwrap`, `assert!`, a debug-build `usize`
underflow, an out-of-bounds index) aborts the whole run. The model returns it
as an `Err` of `Outcome.Error`, and callers stop at the first one. The
per-node callback of `for_each_step` becomes the returned sequence of `Step`s,
in call order. The node-length callback is a parameter `nodeLen`, and the
driver instantiates it with `Gfa.Lookup`. Files are given as their sequences
of lines.

Rust library behaviour the core depends on is written out in module `Text`:
- `str::split` (k separators give k + 1 pieces);
- `str::trim` (Unicode `White_Space`);
- `str::len` (UTF-8 bytes);
- `usize::from_str` (optional `+`, at least one ASCII digit, value at most 2^64 - 1).

Three behaviours of the code are worth stating outright, and the model
follows them:
- A last node whose predecessors already exceed the interval fails on
  `assert!(target_len >= seen)` (line 69); the interval is never widened.
- The index is a dense vector, and looking up an id outside `min_id ..= max_id`
  panics (lines 205 and 216); such an id is never ignored.
- The program counts coverage per node only; it has no edge counting.

Rows whose third column starts with "definition:" are reference definitions:
their contract spells out what they compute, and other members are proved
against them.

## Model

| member | source | states |
|---|---|---|
| Text.Trim | src/main.rs:118 | the trimmed line is a slice of the line with only whitespace cut before and after, and it neither starts nor ends with whitespace |
| Text.NothingToTrim | src/main.rs:118 | a line that starts and ends with non-whitespace is unchanged by `trim` |
| Text.ByteLen | src/main.rs:139 | `seq.len()` counts between one and four bytes per character |
| Text.AsciiByteLen | src/main.rs:139 | for an ASCII sequence the byte length is the character count |
| Text.ParseUsize | src/main.rs:136 | a parsed id never exceeds `usize::MAX` |
| Text.ParseDecimal | src/main.rs:136 | parsing the decimal spelling of any `usize` gives it back |
| Text.DigitsValueOfDecimal | src/main.rs:136 | the digits of a decimal spelling denote the number spelled |
| Text.Split | src/main.rs:126 | `str::split`: k separator characters give exactly k + 1 pieces |
| Text.SplitJoin | src/main.rs:126 | splitting tab-joined tab-free fields on tab gives back exactly those fields |
| Text.JoinSplit | src/main.rs:126 | re-joining the pieces of a split with its separator gives back the text |
| Text.SplitPiecesFree | src/main.rs:51 | no piece of a split contains a separator |
| Text.SplitIgnoresWhichSeparator | src/main.rs:51 | exchanging one separator for another leaves the pieces unchanged |
| Walk.NonEmpty | src/main.rs:52 | the filtered pieces are all non-empty and no more than the pieces |
| Walk.NonEmptyKeeps | src/main.rs:52 | the filter on empty pieces keeps exactly the non-empty pieces |
| Walk.NonEmptyAppend | src/main.rs:52 | filtering distributes over concatenation, so kept pieces stay in order |
| Walk.Tokens | src/main.rs:47-52 | no node token is empty |
| Walk.TokensArePieces | src/main.rs:47-52 | the tokens are exactly the non-empty pieces between `<` and `>`, and none contains a marker |
| Walk.DoubleMarkerDropped | src/main.rs:51-52 | the walk `>1>>2` gives the tokens `1` and `2` |
| Walk.ParseIds | src/main.rs:53-55 | on success one id per token, each the token's `usize` value; on failure the error names the first token that is not a `usize` |
| Walk.DecodeFormatWalk | src/main.rs:47-55 | reading a written walk `>12<7...` gives back its node ids in path order, one per step |
| Walk.OrientationIgnored | src/main.rs:51 | turning any `<` into `>` or back leaves the node tokens unchanged |
| Steps.SumAppend | src/main.rs:76 | adding one more length to the running total raises it by that length |
| Steps.SumLensAppend | src/main.rs:76 | the total of two batches of steps is the sum of their totals |
| Steps.Fields | src/main.rs:40-44 | a record always has at least one tab-separated field, so `split('\t')` never comes back empty |
| Steps.ParseAlignment | src/main.rs:43-45 | an interval that parses fits in `usize`: its start plus its length is at most `usize::MAX` |
| Steps.Lookups | src/main.rs:60 | on success one length per node, each the callback's value; on failure the first failing lookup's error |
| Steps.LookupsFailAt | src/main.rs:60 | the first failing node-length lookup decides the error |
| Steps.LookupsSucceed | src/main.rs:60 | when every lookup succeeds, the lengths are the callback's values in walk order |
| Steps.Leading | src/main.rs:62-66 | the trimmed lengths of all but the last node, one per node |
| Steps.Attributed | src/main.rs:59-78 | one length per node, adding up to the target interval exactly |
| Steps.Zip | src/main.rs:77 | definition: the steps pair each node with its length, in walk order |
| Steps.Allocate | src/main.rs:56-78 | on success one step per node, in walk order, every node found, lengths adding up to the interval |
| Steps.StepsOfLine | src/main.rs:34-82 | a record's step lengths add up to its covered length, and every step's node has a length |
| Steps.CoveredLength | src/main.rs:41-45 | the length a record covers fits in `usize`, and a record that fails or whose walk is `*` covers nothing |
| Steps.AllocateLookupFails | src/main.rs:60 | a node the lookup fails on fails the record with that error, once the nodes before it were found |
| Steps.AllocateAllFound | src/main.rs:56-78 | with every node found, the record fails on line 69 exactly when the leading lengths exceed the interval, and otherwise pairs the nodes with the attributed lengths |
| Steps.AllocateStartFails | src/main.rs:62-66 | a first node shorter than the target start fails on `assert!(len >= target_start)` |
| Steps.SingleNodeTakesInterval | src/main.rs:59-71 | a one-node walk attributes the whole interval to its node |
| Steps.FirstInteriorLast | src/main.rs:59-78 | first node trimmed by the target start, interior nodes in full, last node gets the interval minus the rest |
| Steps.RecordFields | src/main.rs:40 | the tab-separated fields of a record are the fields it was written from |
| Steps.StarWalkEmitsNothing | src/main.rs:40-41 | a record whose walk is `*` emits nothing and does not fail |
| Steps.ShortRecordFails | src/main.rs:40 | a record with at most five fields fails with `MissingField(5)` |
| Steps.IntervalFieldFails | src/main.rs:43-44 | a record with a walk fails on a missing field 7 or 8, or on one that is not a `usize`, field 7 before field 8 |
| Steps.BadTokenFails | src/main.rs:53-55 | a walk token that is not a `usize` fails the record with the first such token's error |
| Steps.UnderflowFails | src/main.rs:43-45 | a target end below the target start fails before any node is looked up |
| Steps.RecordConservation | src/main.rs:43-78 | a record that succeeds has `start <= end`, emits its walk's ids in order, and its lengths add up to `end - start` |
| Steps.AllocateSteps | src/main.rs:56-78 | the allocation loop, with its running `seen`, computes exactly `Allocate`, failures included |
| Steps.ForEachStep | src/main.rs:34-82 | `for_each_step` computes exactly `StepsOfLine` |
| Gfa.SegmentOfLine | src/main.rs:118-139 | a declared segment's id never exceeds `usize::MAX` |
| Gfa.SegmentLineRoundTrip | src/main.rs:118-139 | reading `S <tab> id <tab> sequence` gives back the id and the sequence's byte length |
| Gfa.WrittenSegment | src/main.rs:118-139 | reading `S <tab> d <tab> sequence` gives the segment when `d` parses, and fails with `BadNumber(d)` otherwise |
| Gfa.BadIdFails | src/main.rs:136 | a segment line whose id is not a `usize` fails the run |
| Gfa.WrittenSegmentFields | src/main.rs:126-130 | the fields of a written segment line are `S`, the id text and the sequence |
| Gfa.WrittenSegmentTrimmed | src/main.rs:118 | `trim` leaves a written segment line alone when its sequence does not end in whitespace |
| Gfa.WrittenSegmentEnds | src/main.rs:118-121 | a written segment line starts with `S` and ends with the sequence's last character |
| Gfa.OtherLineSkipped | src/main.rs:121-123 | a line whose first character is neither whitespace nor `S` declares no segment |
| Gfa.ShortSegmentLineSkipped | src/main.rs:127-133 | `S` alone and `S <tab> id` have fewer than three fields and are skipped |
| Gfa.EmptySequenceSkipped | src/main.rs:118-133 | `S <tab> id <tab>` with an empty sequence is skipped, since `trim` removes the last tab |
| Gfa.Parsed | src/main.rs:111-140 | definition: every graph line is read on its own, in file order |
| Gfa.CollectStep | src/main.rs:111-140 | one more line extends the segments read so far, or fails with its error |
| Gfa.PrefixFailure | src/main.rs:136 | the first segment line with a bad id fails the whole graph |
| Gfa.LengthMap | src/main.rs:139 | the segment inserted last holds its own length, replacing any earlier one |
| Gfa.LengthMapHoldsAll | src/main.rs:139 | every declared id is a key of `segments_map` |
| Gfa.AppendSegment | src/main.rs:137-139 | one more segment updates the map at its id and the running minimum and maximum |
| Gfa.MinMaxAppend | src/main.rs:137-138 | the minimum and maximum of one more id |
| Gfa.MinId | src/main.rs:137 | `min_id` is at most every declared id |
| Gfa.MaxId | src/main.rs:138 | `max_id` is at least every declared id |
| Gfa.LengthMapWithinBounds | src/main.rs:137-139 | every key of the map lies in `min_id ..= max_id` |
| Gfa.BoundsDeclared | src/main.rs:137-139 | `min_id` and `max_id` are themselves declared ids |
| Gfa.LastDeclared | src/main.rs:139 | the last line that declares an id, and no later line declares it |
| Gfa.LengthIsFromLast | src/main.rs:139 | an id is in the map exactly when some line declares it, with the length of the last such line |
| Gfa.Collect | src/main.rs:110-140 | the lines read so far yield at most one segment each when none of them fails |
| Gfa.Segments | src/main.rs:110-140 | a graph file yields at most one segment per line, or fails |
| Gfa.BuildIndex | src/main.rs:143-150 | no segment fails with `NoSegments`; otherwise it succeeds exactly when `max_id - min_id + 1` fits in `usize`, with offset `min_id` and a non-empty vector |
| Gfa.GfaIndex | src/main.rs:103-150 | a bad segment line fails the whole graph with its error; a built index has between 1 and `usize::MAX` slots |
| Gfa.Dense | src/main.rs:143-148 | one slot per id of the range, holding the map's length or 0 |
| Gfa.NodeLen | src/main.rs:216 | the lookup succeeds exactly for ids inside `min_id ..= max_id` |
| Gfa.Lookup | src/main.rs:205 | definition: the `get_node_len` closure is the index lookup `NodeLen` |
| Gfa.IndexSpansDeclaredIds | src/main.rs:137-144 | the vector is non-empty, covers every declared id, and both of its ends are declared ids |
| Gfa.NodeLenIsLastDeclared | src/main.rs:139-148 | a declared id's length is its last declaration's byte length; an undeclared id in range has length 0 |
| Gfa.IndexLookup | src/main.rs:143-148 | slot `id - min_id` holds the map's entry for `id`, or 0 |
| Gfa.NoSegmentsFails | src/main.rs:143 | with no segment, `max_id - min_id` underflows |
| Gfa.NoSegmentLinesFails | src/main.rs:108-143 | a graph without segment lines fails the run |
| Gfa.DenseLengths | src/main.rs:143-148 | filling a zeroed vector from the map gives exactly `Dense` |
| Gfa.ParseGfa | src/main.rs:103-150 | `parse_gfa` computes exactly `GfaIndex`, failures included |
| Queries.QueryKey | src/main.rs:187-189 | a record has a query key exactly when it has at least four fields |
| Queries.Occurrences | src/main.rs:186-192 | a key occurs at most once per record |
| Queries.OccursIff | src/main.rs:186-192 | a key is counted exactly when some record carries it |
| Queries.CountQueries | src/main.rs:185-192 | the map has exactly the keys that occur, each with its number of records |
| Queries.CountOf | src/main.rs:198 | a counted key gives its count, any other key gives 1 |
| Queries.Divisor | src/main.rs:196-198 | records with at most two or exactly three fields fail on `fields[2]` or `fields[3]`; others get their key's count |
| Queries.SecondPassDivisor | src/main.rs:185-198 | over the same file, every keyed record's divisor is its group's size, at least 1 |
| Queries.WeightedSteps | src/main.rs:195-206 | a weighted record has its divisor and its steps; a key failure comes first |
| Coverage.Zeros | src/main.rs:181 | definition: the initial vector has one 0 per segment slot |
| Coverage.ZerosSum | src/main.rs:181 | the initial vector sums to 0 |
| Coverage.Accumulated | src/main.rs:213-215 | adding steps keeps the vector's length |
| Coverage.AccumulatedAt | src/main.rs:213-215 | slot `k` gains exactly the lengths of the steps on node `min_id + k` |
| Coverage.SumUpdate | src/main.rs:214 | raising one slot by `len` raises the vector's sum by `len` |
| Coverage.AccumulatedTotal | src/main.rs:213-215 | adding steps raises the vector's sum by their total length |
| Coverage.AccumulatedAppend | src/main.rs:210-218 | adding two batches in turn is adding their concatenation |
| Coverage.Records | src/main.rs:210-218 | definition: every alignment line yields its own steps, in file order |
| Coverage.Covered | src/main.rs:210-218 | definition: every alignment line contributes its own covered length |
| Coverage.GatherStep | src/main.rs:210-218 | one more record extends the steps so far, or fails with its error |
| Coverage.GatherPrefixFails | src/main.rs:210-218 | the first failing record fails the whole run |
| Coverage.Gather | src/main.rs:210-218 | the run over the records succeeds only if every record succeeds |
| Coverage.AllSteps | src/main.rs:210-218 | the run over an alignment file succeeds only if every line's `for_each_step` succeeds |
| Coverage.GatherInRange | src/main.rs:214 | gathered steps have a slot when every record's steps do |
| Coverage.GatherTotal | src/main.rs:210-218 | the gathered steps add up to the sum of the records' totals |
| Coverage.StepsInIndex | src/main.rs:214-216 | a node whose length was found has a slot in the vector |
| Coverage.RecordsInIndex | src/main.rs:214-216 | every successful record names only nodes with a slot |
| Coverage.Project | src/main.rs:179-218 | a successful projection has one slot per segment slot |
| Coverage.ProjectedSteps | src/main.rs:209-218 | a successful projection is the accumulation of all records' steps onto zeros |
| Coverage.CoverageOfNode | src/main.rs:209-218 | slot `k` is the total length all records attribute to node `min_id + k` |
| Coverage.CoverageTotal | src/main.rs:209-218 | the vector sums to the covered lengths of all records |
| Coverage.AddCoverage | src/main.rs:213-215 | `coverage[node_id - min_id] += len` changes that slot by `len` and nothing else |
| Coverage.AccumulateSteps | src/main.rs:211-217 | the per-node callback over one record's steps leaves the array at `Accumulated` of its old contents |
| Coverage.ProjectUnweighted | src/main.rs:181-218 | the unweighted pass computes exactly `Project`, failures included |
| Coverage.UnweightedCoverage | src/main.rs:178-181 | a successful run has one value per slot of the index |
| Coverage.Run | src/main.rs:174-219 | index, then projection, computes exactly `UnweightedCoverage` |
| Coverage.WorkedExample | src/main.rs:56-78 | nodes of lengths 10, 5, 8 over interval [2, 20) receive 8, 5 and 5 |
| Coverage.WorkedAttribution | src/main.rs:62-71 | the lengths of that example: 10 - 2, then 5, then 18 - 13 |

## Left out

- Reading files: `for_each_line_in_file`, `create_reader`, gzip and niffler decompression, and `BufReader` line splitting. Files are given as sequences of lines, and an I/O error is not modelled.
- Argument parsing with clap (`Args`, lines 154-172) and all output printing (lines 221-251) are not modelled.
- The `len_scale` division (lines 228 and 245) and the weighted `len as f64 / count as f64` (line 203) are left out, because they are floating point. The counts and divisors that feed the weighted division are modelled.
- Coverage.AddCoverage: slots are exact naturals, not `f64`. Rounding of large sums, above 2^53, is not modelled.
- Steps.AllocateSteps: `seen` is unbounded. A `seen += len` that would overflow `usize` on a walk of enormous nodes is not modelled.
- Queries.CountQueries: counts are unbounded. An overflow of the `usize` count is not modelled.
- Text.UsizeMax: `usize` is taken to be 64 bits wide. On a 32-bit target, ids, intervals and the index size would be bounded by 2^32 - 1 instead.
- Arithmetic follows a debug build, where underflow panics. The wrap-around of a release build is not modelled.
- The branch `i == fields_len` (lines 72-74) cannot be taken, because `i` ranges below `fields_len`. It has no counterpart in the model.
- Failure to allocate the dense vector for a huge id range is not modelled. Only the `usize` overflow of its size is.
- The weighted second pass is modelled record by record (`Queries.WeightedSteps`). Its accumulation into `f64` slots is not modelled.

# KIRAL orchestration core in Dafny

KIRAL aligns short reads against a database of KIR genes, each with many
alleles. The mapping kernel (minimap2) is wrapped by `align_minimap`.
Around it sit the parts this project models:

- `main` reads the command line. It picks one of three worker strategies, `naive`, `regional` or `categorical`.
- For the last two, it runs a first pass against a few representative alleles per gene.
- Worker bodies claim genes from a shared cursor. They stage a reduced reference and read set and call the aligner.
- The regional strategy clusters first-pass matches into buffered windows, cuts every allele to each window, and shifts the coordinates back.
- Results are written as a flat tab-separated file, which the `report` command reads back, filters and prints.

The model is functional. Records, regions, options and the result store are
immutable datatypes, maps and sequences. The work cursor is an index into a
sequence of keys. An `unordered_map` iteration order is an explicit sequence
parameter wherever the order matters. Undefined behaviour and uncaught
exceptions are modelled as explicit results:

- `Option.None`, a `Stop` value or `LineOutcome.Aborted` for a `stoi` that throws, a `substr` out of range, or `argv[argc]` and `fields[k]` past the end;
- `None` for a worker run that never starts.

Modules:

| module | file | models |
|---|---|---|
| Results | results.dfy | `Option`, `Result`, `Min`, `Max` |
| Text | text.dfy | `find`, the tab splitter, `getline`, `to_string`, `stoi` |
| Types | types.dfy | `ReadAlignment`, the gene → allele → matches store, and appending into it |
| Kir | kir.dfy | `get_pair_id`, `gene.allele` names, the two loaders, the representative choice |
| Hits | hits.dfy | what `align_minimap` does with the kernel's hits: the mismatch filter, the CIGAR string, grouping by gene and allele |
| Regions | regions.dfy | the region fold, the drain into the catch-all, trimming and remapping |
| Cursor | cursor.dfy | the chunked and single-key claims under the cursor lock |
| Workers | workers.dfy | the three worker bodies as sequential runs over the cursor |
| Report | report.dfy | the flat record writer and `show_report` |
| Cli | cli.dfy | the `align`/`report` argument folds, the help code, the strategy dispatch |
| Pipeline | pipeline.dfy | `main` after argument parsing: the first pass, the dispatch to the workers, and `report` on a written file |

`Region` is declared in types.hpp, which is not part of this model. It is
rebuilt from its uses in align_thread.hpp, under two stated assumptions:

- `merge` unites the read sets and takes the enclosing span. The catch-all's initial span `[INT_MAX, 0)` only makes sense under min/max.
- The clustering `==` means that the two intervals, each widened by the buffer on both sides, intersect.

## Model

| member | source | states |
|---|---|---|
| `Types.MergeAlleles` | align_thread.hpp:213-216 | every allele's list becomes the old list followed by the new matches; the allele keys are the union |
| `Types.MergeGene` | align_thread.hpp:211-217 | appending one gene's matches extends that gene's lists and leaves every other gene untouched |
| `Types.MergeAll` | align_thread.hpp:50-57 | appending a whole aligner result extends each gene/allele list by that result's list |
| `Text.IndexOf` | kir.hpp:33 | `find` gives the first occurrence; `npos` exactly when the character is absent |
| `Text.Split` | cli.hpp:41-48 | the splitter yields count(tab)+1 fields, none holding a tab, and joining them with tabs gives the line back |
| `Text.SplitJoin` | cli.hpp:41-48 | splitting a join of tab-free fields returns those fields |
| `Text.LinesUnlines` | cli.hpp:37 | `getline` over a file written line by line with `endl` yields the lines written |
| `Text.NatToString` | kir.hpp:122 | `to_string` of a count is a non-empty digit string with no leading zero that denotes it |
| `Text.StoI` | cli.hpp:50 | `stoi` succeeds only on text holding a digit, and only with a value in `int` range |
| `Text.StoIToString` | cli.hpp:60-64 | `stoi` reads back every `int` that `to_string` wrote |
| `Kir.PairId` | kir.hpp:20-23 | the mate id is different from the id and in the same block {2k, 2k+1} |
| `Kir.PairIdInvolution` | kir.hpp:22 | mating twice returns the id, there is no fixed point, and the mate of an `int` id is an `int` |
| `Kir.SplitName` | kir.hpp:32-35 | gene is the text before the first '.', allele the rest; without a '.' both halves are the whole name (`npos + 1` wraps to 0) |
| `Kir.SplitStagingName` | kir.hpp:116-119 | splitting `gene + "." + allele` returns the pair whenever the gene has no '.' |
| `Kir.LoadKirs` | kir.hpp:25-41 | no loaded gene is empty and no gene name contains a '.' |
| `Kir.LoadKirsNames` | kir.hpp:30-37 | the database holds a (gene, allele) pair iff some record's name splits into it |
| `Kir.LoadKirsLastWins` | kir.hpp:36 | a repeated `gene.allele` keeps the sequence of its last record |
| `Kir.LoadReads` | kir.hpp:43-54 | the ids are exactly 0..n-1, and id i holds the i-th record |
| `Kir.PickAlleles` | kir.hpp:73-78 | each gene gets one name per draw; `r % size` names an allele of that gene, and the name splits back into it |
| `Kir.Representatives` | kir.hpp:67-81 | every gene contributes exactly `num_representatives` names (none when negative), each naming an allele of that gene |
| `Hits.CigarStringAppend` | kir.hpp:120-122 | the CIGAR string is built op by op: the string of a concatenation is the concatenation of the strings |
| `Hits.CigarRoundTrip` | kir.hpp:120-122 | the CIGAR string determines the packed ops: parsing `decimal(op >> 4)` + letter `op & 0xf` per op gives them back |
| `Hits.KeptRecords` | kir.hpp:111-124 | every kept record passed the mismatch filter, carries its hit's mismatch count as cost, its read id from `stoi` and its `rs`/`re`, under the gene and allele its reference name splits into |
| `Hits.CollectFails` | kir.hpp:123 | the grouping loop fails exactly when some accepted hit's read name is not a number |
| `Hits.CollectGroups` | kir.hpp:106-128 | a completed loop appends to each gene/allele exactly the accepted hits' records of that name, in visiting order |
| `Regions.Merge` | align_thread.hpp:100 | the merged region holds the union of the reads and spans both windows |
| `Regions.Candidate` | align_thread.hpp:93-96 | the candidate spans `[query_start, query_end)` (the kernel's read offsets `qs`/`qe`) and holds the match's read and, with `--pair`, the mate |
| `Regions.FirstOverlap` | align_thread.hpp:98 | `find` returns the first overlapping region, or none iff no region overlaps |
| `Regions.StepReads` | align_thread.hpp:98-102 | one fold step adds exactly the candidate's reads; the region count grows by one iff nothing overlapped, else stays |
| `Regions.ClusterReads` | align_thread.hpp:91-103 | the regions hold exactly the matches' read ids (and mates); there are between one and #matches regions |
| `Regions.ClusterEncloses` | align_thread.hpp:91-103 | every match's window and reads lie inside some region |
| `Regions.ChainOneRegion` | align_thread.hpp:98-102 | matches visited in chain order, each overlapping the next, end up in one region |
| `Regions.ClusterNotTransitive` | align_thread.hpp:98 | A overlaps B and B overlaps C, yet visited as A, C, B the fold leaves A and C in different regions |
| `Regions.Drain` | align_thread.hpp:107-116 | every kept region is dense; the catch-all spans every drained window |
| `Regions.DrainSpec` | align_thread.hpp:107-116 | the erase loop keeps the dense regions in order and gathers exactly the sparse regions' reads |
| `Regions.FilterSpec` | align_thread.hpp:105-117 | after filtering, all regions but the last hold at least 3 reads; the last is the catch-all with exactly the drained reads; the read union is unchanged |
| `Regions.AlleleRegionsReads` | align_thread.hpp:84-117 | an allele's final regions together hold exactly its matches' reads and mates |
| `Regions.RegionBuffer` | align_thread.hpp:88 | for an iteration order of the read map, the buffer is 100 times the length of the first read in that order, and undefined exactly when the read map is empty |
| `Regions.Trim` | align_thread.hpp:135 | the trim is the allele slice from `min(start, L-1)` of length `end - start`, cut at the allele end; it throws iff that position is negative |
| `Regions.Remap` | align_thread.hpp:149-150 | `query_start` is shifted by the region start, `query_end` is shifted and clamped to L, and no other field changes |
| `Regions.RemapRoundTrip` | align_thread.hpp:135-150 | for a region starting inside the allele, the shifted `query_start`/`query_end` satisfy `0 <= qs' <= qe' <= L`; the equation on bases holds of offsets into the cut allele, which `qs`/`qe` are not (Findings, third row) |
| `Regions.RemapPastEnd` | align_thread.hpp:135-150 | for a region starting past a shorter allele, the remapped window is inverted (`qs' > qe'`) |
| `Regions.WindowOffAllele` | align_thread.hpp:93-135 | a read "CCCC" matching allele "AAAACCCCGG" at allele offsets [4, 8) gets the window [0, 4) of its read offsets, and the allele is cut to "AAAA", losing the matched bases |
| `Regions.AlleleCandidate` | kir.hpp:123 | the intended candidate spans `[read_start, read_end)` (the allele offsets `rs`/`re`) with the same reads |
| `Regions.TrimHolds` | align_thread.hpp:135 | cutting an allele to a region that encloses an allele window keeps that window's bases, at offset `from - start` |
| `Regions.AlleleCandidateHolds` | align_thread.hpp:93-135 | with the intended window, the cut allele is exactly the first-pass match's bases |
| `Regions.AlleleRemap` | align_thread.hpp:149-150 | the intended remap shifts `read_start`, shifts and clamps `read_end` to L, and changes nothing else |
| `Regions.AlleleRemapRoundTrip` | align_thread.hpp:135-150 | a match at allele offsets [rs, re) of the cut allele is remapped to a window of the full allele holding the same bases, with `rs' <= re' <= L` |
| `Cursor.NaiveChunkSize` | align_thread.hpp:32 | C's truncating `size / n_threads`: chunk·n <= size < (chunk+1)·n for n > 0 |
| `Cursor.ClaimChunk` | align_thread.hpp:28-39 | a claim is exhausted iff the cursor is at the end; otherwise it takes exactly `min(max(chunk,0), remaining)` keys from the front |
| `Cursor.ChunkClaim` | align_thread.hpp:28-39 | the same claim as a value, for reasoning about whole runs |
| `Cursor.NaiveStalls` | align_thread.hpp:32-38 | with fewer genes than threads the chunk is 0 and a claim on an unexhausted cursor takes nothing and does not move it |
| `Cursor.FixedChunkSize` | align_thread.hpp:32 | the corrected chunk is at least one and equals the original whenever size >= n_threads > 0 |
| `Cursor.SchedulePartitions` | align_thread.hpp:24-39 | with a positive chunk, successive claims partition the remaining keys in order into batches of 1..chunk, and their sizes sum to the remaining count |
| `Cursor.ScheduleDisjoint` | align_thread.hpp:28-39 | no key of the map is handed out in two batches |
| `Cursor.ClaimOne` | align_thread.hpp:75-82 | a single claim takes exactly the next key or reports exhaustion |
| `Cursor.SinglesEnumerate` | align_thread.hpp:173-180 | successive single claims enumerate every remaining key once, in order |
| `Workers.StageAlleles` | align_thread.hpp:42-45 | every allele of a claimed gene is staged under `gene.allele` with its sequence, and every staged name splits back into a claimed gene and one of its alleles |
| `Workers.StageReads` | align_thread.hpp:194-197 | the staged read set is exactly the chosen ids; `reads[id]` yields the empty sequence for an id without a read |
| `Workers.NaiveBatch` | align_thread.hpp:41-60 | a naive batch appends the aligner's matches verbatim and raises progress by the batch's gene count |
| `Workers.NaiveRunProgress` | align_thread.hpp:24-61 | with distinct keys the naive increments add up to the number of keys left |
| `Workers.NaiveProgressTotal` | align_thread.hpp:60 | over the database's keys, naive progress ends at exactly `kirs.size()` |
| `Workers.InsertHitIds` | align_thread.hpp:186-191 | the inner loop inserts every match's read id and, with `--pair`, its mate |
| `Workers.CategoricalReadIds` | align_thread.hpp:183-192 | the categorical read set is the read ids (plus mates) of the first-pass matches of every allele of the gene |
| `Workers.CategoricalGene` | align_thread.hpp:206-220 | a gene the second pass omits changes nothing, not even progress; otherwise its matches are appended, other genes are untouched and progress rises by one |
| `Workers.CategoricalProgress` | align_thread.hpp:170-221 | categorical progress counts the genes the second pass returned; it reaches the number of claimed genes iff all were returned |
| `Workers.StageTrimmed` | align_thread.hpp:132-139 | each allele is staged cut to the region; staging fails iff some cut throws; every staged name splits back to the gene |
| `Workers.RemapHits` | align_thread.hpp:146-152 | every second-pass match is remapped with its own allele's length, so every one ends within its allele |
| `Workers.RegionPass` | align_thread.hpp:119-153 | an empty region changes nothing; a pass fails iff cutting throws; it appends the remapped matches under the gene only |
| `Workers.ProcessRegions` | align_thread.hpp:119-153 | the region loop fails iff some non-empty region cannot be cut, and otherwise only grows the gene's lists with matches inside their alleles |
| `Workers.RegionalAlleles` | align_thread.hpp:84-154 | the allele loop only grows the gene's lists; when there is no first read to size the buffer, a gene with an allele to process fails |
| `Workers.RegionalGene` | align_thread.hpp:84-157 | a completed regional gene raises progress by exactly one, however many regions it had; with an empty read map, a gene with an allele to process fails |
| `Workers.RegionalRunSpec` | align_thread.hpp:72-158 | a completed regional run raises progress once per claimed gene and changes only claimed genes, appending only clamped matches |
| `Report.Fields` | main.cpp:181 | a record is written as ten fields in the documented order; the strand field is "1" iff reversed |
| `Report.SplitRecord` | main.cpp:181 | a written line holds no newline and splits back into its ten fields |
| `Report.ReadLine` | cli.hpp:39-66 | a line is printed only when its record passes all three filters |
| `Report.ParseRest` | cli.hpp:59-65 | a parsed record keeps the already-filtered id, gene and allele |
| `Report.ReadLineFormat` | cli.hpp:50-65 | a written line is printed as exactly its record iff it passes the filters, and skipped otherwise |
| `Report.Run` | cli.hpp:37 | the head counter caps the printed records at `num_results` when non-negative; each printed record comes from a line |
| `Report.HeadExamined` | cli.hpp:37 | with `num_results >= 0` the run is the unbounded run over the first `num_results` lines: filtered lines use up the count, and no later line is examined |
| `Report.RunUnbounded` | cli.hpp:37-66 | with no limit, each shown line's record is printed once, in line order, up to the first unreadable line, where the run ends abnormally; with none, it ends normally |
| `Report.ShowReport` | cli.hpp:28-68 | every printed record passes the filters; at most `num_results` are printed; zero reads nothing |
| `Report.ShowReportHead` | cli.hpp:37 | `show_report` with `--head n` is the unlimited report over the file's first n lines |
| `Report.ReportRoundTrip` | cli.hpp:37-66 | reading back a written file prints, in order, the records among the first `num_results` lines that pass the filters, and ends normally |
| `Report.ShownAreSubsequence` | cli.hpp:37-66 | printed records are a subsequence of the file's lines, in file order |
| `Report.WrittenContents` | main.cpp:178-181 | when the orders enumerate the store, a record is written iff some gene and allele of the store holds it |
| `Cli.Value` | main.cpp:39 | `argv[++i]` has a value iff a token follows the flag |
| `Cli.IntValue` | main.cpp:35 | `stoi(argv[++i])` succeeds iff a token follows and parses as an `int` |
| `Cli.AlignToken` | main.cpp:56-67 | one `align` token never changes the files, keeps the method valid, and stops only on a recognised flag |
| `Cli.AlignFlags` | main.cpp:55-67 | the `align` loop never changes the files and leaves a valid method |
| `Cli.ReportToken` | main.cpp:34-41 | one `report` token keeps the file, and fails only on a recognised flag with a missing or non-numeric value |
| `Cli.ReportFlags` | main.cpp:33-41 | the `report` loop never shows help and never changes the file |
| `Cli.Parse` | main.cpp:17-67 | too few arguments, a help word or an unknown command give help; a run keeps the positional files and a valid method |
| `Cli.ReportCommand` | main.cpp:23-42 | `report` either runs with its file or ends abnormally |
| `Cli.AlignCommand` | main.cpp:43-67 | `align` runs with its two files and a valid method, shows help, or ends abnormally |
| `Cli.ExitCode` | cli.hpp:102 | help exits with 1, a completed command with 0, and an abnormal end with no status |
| `Cli.AlignFlagsRender` | main.cpp:55-67 | the `align` loop consumes each valid setting's tokens exactly as the setting's effect says |
| `Cli.ParseAlign` | main.cpp:47-67 | `align` with valid settings runs with the defaults (regional, 1, no pair, hardware threads, no output) overridden left to right |
| `Cli.AlignMethodValid` | main.cpp:56-59 | valid settings keep a valid method |
| `Cli.AlignBadMethod` | main.cpp:56-59 | a method outside naive/regional/categorical gives help |
| `Cli.AlignMissingValue` | main.cpp:57-67 | a value-taking flag in last position ends abnormally |
| `Cli.AlignStopsAfter` | main.cpp:55-67 | after valid settings, a trailing bad `--method` gives help and a trailing value flag without a value ends abnormally |
| `Cli.AlignLastWins` | main.cpp:64-65 | a repeated `-t` keeps its last value, and an unknown token in between is ignored |
| `Cli.ReportFlagsRender` | main.cpp:33-41 | the `report` loop consumes each valid setting's tokens exactly as the setting's effect says |
| `Cli.ParseReport` | main.cpp:27-41 | `report` with valid settings runs with the defaults (any read, all lines, any gene, any allele) overridden left to right |
| `Cli.DispatchAsWritten` | main.cpp:141 | as written, "naive" selects naive workers and every other method the regional ones; categorical is never selected |
| `Cli.Dispatch` | main.cpp:109-143 | the intended dispatch selects the strategy the method names |
| `Cli.CategoricalUnreachable` | main.cpp:141 | the written dispatch differs from the intended one exactly on "categorical" |
| `Pipeline.RepresentativeRefs` | main.cpp:126-131 | every first-pass reference names a real allele of a listed gene, with that allele's sequence |
| `Pipeline.Align` | main.cpp:108-151 | when the key, gene, read and first-pass orders are those of the maps they walk: with no thread nothing runs; naive progress ends at `kirs.size()`; categorical progress is at most the number of genes the first pass returned; a completed regional run counts every one of them and changes only those genes, appending clamped matches |
| `Pipeline.RunReportOn` | main.cpp:42 | `report` prints only records passing its filters, and at most `--head` of them |
| `Pipeline.ReportAll` | main.cpp:28-42 | `report <file>` with no options prints every written record, in order |
| `Pipeline.ReportWritten` | main.cpp:175-185 | `report` on the file `align -o` wrote prints a record iff the result store holds it |

## Left out

- minimap2 (kir.hpp:86-110, 125-135): the kernel is a foreign library. Its hits are an input (`Hits.QueryHits`), and a whole `align_minimap` call is a function parameter (`Workers.Aligner`).
- File I/O: gz/kseq reading, staging files with `ofstream`, the output file and `cleanup`. Each is replaced by the data it carries. A failing `expect` on opening a file is not modelled.
- Threads, mutexes and the atomic progress counter. Claims under the cursor lock happen one at a time, so a run is one sequential schedule. Which worker receives which claim is not modelled. Neither is the unlocked `push_back` into the shared store at align_thread.hpp:151, which is a data race.
- The progress bar (main.cpp:91-106): float ratios and sleeping. Its total is `kirs.size()`, while regional and categorical progress stops at the first-pass gene count or below (`Pipeline.Align`). So the bar's wait can only end when every gene was found.
- `rand()` in `extract_representatives`: the draws are an input sequence.
- `print_alignment`, `show_help` text, and the `[+]` console messages.
- `reindex_reads` (kir.hpp:56-65): it writes the read map to a file, which is the read map itself here.
- `n_threads` from `thread::hardware_concurrency` is a parameter.
- `Pipeline.Align` reports "no worker runs" for `-t` at most zero. It does not model the progress bar's endless wait in that case.
- `Pipeline.Align` uses the corrected dispatch and the corrected naive chunk (see Findings). Its regional run keeps the code's window, the read offsets `query_start`/`query_end`; the allele-offset window of the third Findings row is stated on its own and not threaded through the worker model.
- `Pipeline.RepresentativeRefs`: a name drawn twice becomes one reference. kir.hpp:76 writes it twice, so the aligner indexes two identical references; the model's reference map cannot hold duplicates, and what the kernel does with duplicate references is outside this model.
- `Kir.PairId`: the model's integers are unbounded, so the overflow of the intermediate `read_id - 1` for `INT_MIN` is not modelled. Read ids are never negative, and `Kir.PairIdInvolution` shows that the mate of an `int` id is an `int`.
- Integer overflow elsewhere is not modelled: `num_results--` from `INT_MIN`, `query_end + region.start`, and `region.end - region.start`. The model computes them unbounded. `stoi`, `to_string` and the record round trip do respect the `int` range (`Text.IsInt`).
- `unordered_map` iteration order is an explicit parameter (key sequences, allele orders, read order). The model proves nothing about any particular order.
- Regional staging writes `reads[read_id]` through `operator[]`, which inserts an empty read for a missing id. The model stages the empty sequence (`Workers.StageReads`) but does not model the insertion into the shared read map.
- `Kir.Representatives`: requires every gene to have an allele, because `rand() % 0` is undefined. `Kir.LoadKirs` guarantees this for every loaded database.

## Where the code and its evident intent differ

The model follows the code in each case.

- Categorical progress: every claimed gene is meant to move the progress bar, whose total is the gene count. The `continue` at align_thread.hpp:209 skips `progress++` for a gene the second pass did not return (`Workers.CategoricalGene`, `Workers.CategoricalProgress`), so the bar can wait forever.
- Region clustering: matches whose buffered windows overlap, directly or through a chain, are evidently meant to share a region. The fold at align_thread.hpp:91-103 merges each match into the first overlapping region only and never merges two existing regions, so `Regions.ClusterNotTransitive` gives three matches, each overlapping the next, that end up in two regions.
- Remap bounds: a remapped match is meant to lie inside its allele. The trim position is clamped to `L - 1` (align_thread.hpp:135), but the remap adds the unclamped region start (align_thread.hpp:149), so a region starting past a shorter allele yields an inverted window (`Regions.RemapPastEnd`). The bounds hold when the region starts inside the allele (`Regions.RemapRoundTrip`).
- Strategy choice: the help text (cli.hpp:81) offers categorical as a method, but the code never runs it (Findings, first row).

## Findings

| source | as written | input that shows it | evidently intended | confidence | as-written member | corrected member |
|---|---|---|---|---|---|---|
| main.cpp:141 | `"regional" ? regional_align : categorical_align` tests a non-null string literal, so it is always true | `align db.fa reads.fq --method categorical` runs the regional workers | `method == "regional" ? regional_align : categorical_align` | high; not executed | `Cli.CategoricalUnreachable` | `Cli.Dispatch` |
| align_thread.hpp:32 | the chunk is `(int)kirs.size() / n_threads`, which is 0 when there are fewer genes than threads; a claim then takes nothing and leaves the cursor in place, so every worker loops forever | a database of 2 genes with `-t 4` | a chunk of at least one gene | high; not executed | `Cursor.NaiveStalls` | `Cursor.FixedChunkSize` |
| align_thread.hpp:93 | the regional window is `[query_start, query_end)`, which kir.hpp:123 fills from the kernel's `qs`/`qe`: offsets on the read, while the allele offsets `rs`/`re` go to `read_start`/`read_end` (kir.hpp:114 compares the read length with `re - rs`); alleles are then cut to read offsets (align_thread.hpp:135) and read offsets are shifted by the region start (align_thread.hpp:149-150) | a read "CCCC" matching allele "AAAACCCCGG" at [4, 8): the allele is cut to [0, 4) = "AAAA" | cluster, cut and remap on `read_start`/`read_end`, so the cut allele keeps the matched bases and the remap returns them (`Regions.AlleleRemapRoundTrip`) | medium; not executed | `Regions.WindowOffAllele` | `Regions.AlleleCandidateHolds` |

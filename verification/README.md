# FRVT 1:N and morph test harness — a Dafny model

This project models the test harness NIST ships with its Face Recognition
Vendor Test (FRVT) 1:N and morph-detection evaluations. It covers the code
around the vendor library, not the library itself:

- **Input splitting.** `splitInputFile` splits an input file into
  contiguous shards, one per worker process. `split` tokenizes a line.
- **Enrollment.** The enrollment worker appends each template to the
  enrollment database (EDB) and writes one `id size offset` row per
  template to the manifest.
- **Finalization.** The finalization step hands both files to the
  implementation.
- **Search.** The search worker shapes every candidate list to twenty
  entries, or logs it verbatim.
- **Gallery mutation.** The insert (current driver) and insert-and-delete
  (2018 driver) workers mutate the gallery between searches.
- **Reference implementation.** The 2018 null implementation is a class
  holding a `templates` map. It reads the EDB and manifest back, inserts
  and deletes ids, and answers searches with k strictly descending
  candidates.
- **Morph drivers.** Both morph drivers run detect and compare workers.
  The first NotImplemented answer stops the loop, deletes the log and
  returns 2.
- **Parent process.** A parent folds its workers' termination statuses
  into its own exit status, under three policies:
  - last wins;
  - ignored;
  - signal-only, sticky.
- **Lookup tables.** The action, label and return-code tables.

How the outside world enters the model:

- **The vendor library.** The 1:N and morph interfaces are collaborators
  outside the model. Each interface becomes oracle functions: `create(j)`,
  `identify(b)`, `detect(k)` and `compare(k)` give the answer to the j-th
  call of each kind. Every worker also returns the trace of calls it made,
  so the contracts can say what was asked of the implementation and in
  which order.
- **Files.** A file is a value: a sequence of lines, a string, or a byte
  sequence (`seq<bv8>`). An image is loaded from a `Disk` map, and a path
  not in the map does not load.
- **Ending a worker.** A worker that raises SIGTERM, or aborts on an
  uncaught exception, ends as `Pool.Killed`. A worker's outputs are
  modelled as what it handed to its streams. Rows ended by `endl` are
  flushed as they are written. EDB bytes still buffered when a worker is
  killed need not reach the file, because the stream destructors do not
  run.

The modules follow the source files:

| module | models |
|---|---|
| `Text`, `Decimal` | tokenizing by delimiters and `>>`, decimal printing and `atol` |
| `Util` | `split`, `splitInputFile` and the shared tables |
| `LegacyUtil` | the 2018 utilities |
| `Structs` | `frvt_structs.h` |
| `IdentInterface` | the 1:N interface |
| `Edb` | the EDB and manifest pair |
| `Search` | `searchAndLog` |
| `Workers` | what the 1:N workers share |
| `Pool` | the parent's wait loop |
| `NullGallery` | the 2018 null implementation |
| `StringOrder` | the `std::map` key order |
| `Driver1N` | the current 1:N driver |
| `Driver2018` | the 2018 1:N driver |
| `Morph` | the worker loops both morph drivers share |
| `MorphDriver` | `validate_morph.cpp` |
| `MorphLegacy` | the stand-alone `validate.cpp` |

Two behaviours of the code are worth stating up front:

- `splitInputFile` fills each shard with ⌈L/n⌉ lines, where L is the
  number of lines and n the number of workers; the last shard takes what
  is left. With 7 lines and 3 workers the shards hold 3, 3 and 1 lines
  (`Util.SevenLinesThreeForks`).
- The null implementation's `identifyTemplate` reads
  `templateIds[i % templateIds.size()]`, which divides by zero on an
  empty gallery. `NullGallery.NullImpl.IdentifyTemplate` therefore
  requires a non-empty gallery whenever k > 0.

## Model

| member | source | states |
|---|---|---|
| Util.Split | common/src/util/util.cpp:132-163 | the tokenizer loop returns exactly the token list `SplitOf` defines, proved through the loop invariant `Scanned` |
| Util.SplitAtDelimiter | common/src/util/util.cpp:142-149 | a delimiter pushes the current token only when it is non-empty, then restarts it |
| Util.SplitAtCharacter | common/src/util/util.cpp:150-151 | any other character extends the current token |
| Util.SplitShape | common/src/util/util.cpp:139-160 | the result is never empty; a string of delimiters only, or the empty string, gives `[str]` unchanged; otherwise the tokens are the maximal delimiter-free runs, each non-empty and delimiter-free |
| Text.TokensConcat | common/src/util/util.cpp:139-156 | the tokens laid end to end are the string with every delimiter deleted |
| Text.NoTokensIffAllDelimiters | common/src/util/util.cpp:155-160 | no token forms exactly when every character is a delimiter |
| Text.TokensAreWords | common/src/util/util.cpp:142-151 | every token is non-empty and free of delimiters |
| Text.TokensAppend | common/src/util/util.cpp:140-152 | tokenizing text split at a delimiter is tokenizing both halves, so repeated, leading and trailing delimiters give no empty token |
| Text.WordIsOneToken | common/src/util/util.cpp:150-156 | a non-empty delimiter-free string is one token |
| Text.WordThenDelimiter | common/src/util/util.cpp:142-149 | a word followed by a delimiter yields that word and then the tokens of the rest |
| Text.RunLength | common/src/util/util.cpp:140-152 | the run before the first delimiter is delimiter-free and stops at a delimiter or the end |
| Text.Strip | common/src/util/util.cpp:139-156 | deleting the delimiters leaves a delimiter-free string no longer than the input |
| Text.StripAppend | common/src/util/util.cpp:139-156 | deleting delimiters distributes over concatenation |
| Text.Triples | 1N_2018/validation/src/testdriver/validate1N.cpp:67 | `>> id >> imagePath >> desc` reads the words three at a time, dropping an incomplete last group |
| Text.TripleAt | 1N_2018/validation/src/testdriver/validate1N.cpp:67 | record `j` is words `3j`, `3j+1` and `3j+2` |
| Text.TriplesAppend | 1N_2018/validation/src/testdriver/validate1N.cpp:67 | three more words add exactly one more record |
| Text.Pairs | morph/src/testdriver/validate_morph.cpp:141 | `>> enroll >> verif` reads the words two at a time |
| Text.PairAt | morph/src/testdriver/validate_morph.cpp:141 | pair `j` is words `2j` and `2j+1` |
| Decimal.DigitChar | 1N/src/testdriver/validate1N.cpp:95-97 | each digit value prints as the matching decimal character |
| Decimal.NatToString | 1N/src/testdriver/validate1N.cpp:95-97 | a printed count, size or offset is a non-empty run of decimal digits |
| Decimal.Atol | 1N_2018/validation/src/nullImpl/nullimplfrvt1N.cpp:93-95 | `atol` of a token is 0 when it does not start with a digit, and otherwise the value of the digits up to the first non-digit or the end |
| Decimal.AtolOfDigits | 1N_2018/validation/src/nullImpl/nullimplfrvt1N.cpp:93-95 | a token made only of digits reads as its whole decimal value |
| Decimal.ParseNatToString | 1N_2018/validation/src/nullImpl/nullimplfrvt1N.cpp:93-95 | `atol` of a printed number gives the number back |
| Decimal.AtolOfPrefix | 1N_2018/validation/src/nullImpl/nullimplfrvt1N.cpp:41-44 | `atol` stops at the first non-digit, so a number followed by other text still reads back |
| Decimal.DigitRun | 1N_2018/validation/src/nullImpl/nullimplfrvt1N.cpp:93-95 | the digit prefix `atol` reads is all digits and stops at a non-digit or the end |
| Decimal.NatToStringInjective | 1N/src/testdriver/validate1N.cpp:456-458 | different numbers print differently |
| Util.GetLines | common/src/util/util.cpp:120-126 | `getline` yields every newline-terminated line in order, plus one more result exactly when a non-empty unterminated tail follows |
| Util.AsUnsigned32 | common/src/util/util.cpp:102 | the `(uint32_t)` cast keeps a non-negative request and wraps a negative one to request + 2^32 |
| Util.CeilDiv | common/src/util/util.cpp:105-109 | division rounded up: the result c satisfies (c-1)·b < a ≤ c·b |
| Util.ClampFacts | common/src/util/util.cpp:102-103 | the clamped fork count is 0 exactly when there are no lines or none were requested; otherwise it lies in 1..L; a negative request becomes L through the cast; a positive one becomes min(request, L) |
| Util.PartitionArithmetic | common/src/util/util.cpp:102-109 | lines per fork p ≥ 1; the rewritten count n satisfies 1 ≤ n ≤ the clamped count, and n never exceeds a positive request; (n-1)·p < L ≤ n·p; one line per shard when the request is negative or at least L |
| Util.SevenLinesThreeForks | common/src/util/util.cpp:105-109 | seven lines and three forks give p = 3 and 3 shards, so 3, 3 and 1 lines |
| Util.ShardLines | common/src/util/util.cpp:120-126 | a shard never holds more than p lines |
| Util.ShardPathsDistinct | common/src/util/util.cpp:112 | the shard paths `outputDir/input.txt.i` are pairwise distinct |
| Util.SplitInputFile | common/src/util/util.cpp:75-130 | an unopenable input gives FAILURE with no shard and the count unchanged; no lines or a zero request divide by zero; otherwise the count is rewritten, the shards are written in order under their own paths, and FAILURE at the first shard file that does not open leaves only the earlier shards listed (the 2018 copy in 1N_2018/validation/src/testdriver/util.cpp is the same code) |
| Util.WriteShards | common/src/util/util.cpp:111-127 | shard files are opened in index order, each receiving its next p getline results; all `forks` are written exactly when no path is unopenable before the last; the path that fails is the one after the last listed |
| Util.CopyShard | common/src/util/util.cpp:120-126 | the inner loop copies the next min(p, remaining) getline results and leaves the cursor after them |
| Util.ShardFrom | common/src/util/util.cpp:120-126 | shard i starts where shard i-1 stopped and holds the next p lines, or fewer at the end |
| Util.ShardsCover | common/src/util/util.cpp:111-127 | the first n shards laid end to end are the first min(n·p, L) getline results in order |
| Util.ShardSize | common/src/util/util.cpp:111-127 | every shard is non-empty and all but the last hold exactly p lines |
| Util.CoverIsInput | common/src/util/util.cpp:120-126 | once n·p reaches the line count, the covered getline results are the lines plus the tail if reached |
| Util.ShardContents | common/src/util/util.cpp:111-127 | after a successful split no shard is empty, all but the last have p lines, and laid end to end they reproduce the input's lines (the same holds for the 2018 copy) |
| Util.ParseAction | common/src/util/util.cpp:165-189 | `mapStringToAction` maps a word to the action `mapActionToString` names by it, and to nothing else |
| Util.ActionTablesInverse | common/src/util/util.cpp:165-215 | the two tables are inverse bijections over the same eighteen names |
| Util.LookupAction | 1N/src/testdriver/validate1N.cpp:419 | `mapStringToAction[s]` yields the listed action, or the first enumerator CreateTemplate for an unlisted word |
| Util.ParseImgLabel | common/src/util/util.cpp:227-235 | exactly the six label names are listed |
| Util.LookupImgLabel | 1N/src/testdriver/validate1N.cpp:86 | `mapStringToImgLabel[desc]` gives the listed label, or Unknown for an unlisted description |
| LegacyUtil.GetLabel | 1N_2018/validation/src/testdriver/util.cpp:22-31 | accepts exactly the six label names, each giving the label of that name; for any other string it throws `runtime_error` with the message naming the string |
| LegacyUtil.GetLabelTable | 1N_2018/validation/src/testdriver/util.cpp:22-31 | every label's name parses back to it; `getLabel` accepts exactly what `mapStringToImgLabel` lists, giving the same label |
| LegacyUtil.ReturnCodeToString | 1N_2018/validation/src/testdriver/util.cpp:33-54 | a valid code prints its own enumerator name; "Unknown ReturnCode" is printed exactly for values outside 0..14 |
| LegacyUtil.CodeNamesDistinct | 1N_2018/validation/src/testdriver/util.cpp:37-51 | the fifteen names are pairwise distinct |
| LegacyUtil.ParseCommand | 1N_2018/validation/src/testdriver/validate1N.cpp:368-380 | only "enroll", "finalize", "search" and "insertAndDelete" parse, each to the action that prints as that word |
| LegacyUtil.ActionWordsRoundTrip | 1N_2018/validation/src/testdriver/util.cpp:56-66 | printing an action and parsing it back gives the action, and the four words are distinct |
| Structs.ToU16 | 1N_2018/validation/src/nullImpl/nullimplfrvt1N.cpp:46-47 | converting a count to `uint16_t` keeps it modulo 2^16 |
| Structs.CodeValue | 1N/validation/src/include/frvt_structs.h:125-160 | codes are stored as 0..14, and 0 is Success alone |
| Structs.CodeOfValue | 1N/validation/src/include/frvt_structs.h:125-160 | an integer names a code exactly when it lies in 0..14, and that code stores it |
| Structs.CodeNumbering | 1N/validation/src/include/frvt_structs.h:125-160 | the numbering is a bijection between the fifteen codes and 0..14 |
| Structs.Describe | 1N/validation/src/include/frvt_structs.h:162-204 | the stream operator prints each code's own message, and "Undefined error" for a value outside 0..14 |
| Structs.StatusOf | 1N/validation/src/include/frvt_structs.h:234-240 | `ReturnStatus(code)` carries the code and an empty info string |
| Structs.ImageSize | 1N/validation/src/include/frvt_structs.h:55-85 | when W·H and W·H·(depth/8) both fit the 32-bit `int` they are computed in, the result fits too, and: depth 24 gives the 3·W·H bytes of an RGB buffer, depth 8 the W·H bytes of an intensity buffer, and a depth below 8 gives 0 |
| Edb.Manifest | 1N/src/testdriver/validate1N.cpp:95-100 | one manifest row per record |
| Edb.EntryOfPrefix | 1N/src/testdriver/validate1N.cpp:95-100 | row j carries record j's id, its template size, and the EDB length before it as offset; the EDB then holds its bytes |
| Edb.ManifestPrefix | 1N/src/testdriver/validate1N.cpp:95-100 | appending records never rewrites earlier rows or earlier EDB bytes |
| Edb.BytesSize | 1N/src/testdriver/validate1N.cpp:98-100 | the EDB length is the sum of the manifest's sizes |
| Edb.EntryFacts | 1N/src/testdriver/validate1N.cpp:95-100 | each offset is the sum of the earlier sizes, offset + size stays within the EDB, and the bytes there are the record's template |
| Edb.SizesTenZeroFive | 1N/src/testdriver/validate1N.cpp:95-100 | template sizes 10, 0 and 5 give offsets 0, 10 and 10 and an EDB of 15 bytes |
| Edb.ParseManifest | 1N_2018/validation/src/nullImpl/nullimplfrvt1N.cpp:92 | the manifest is read one `templId size offset` triple per three words |
| Edb.Entries | 1N_2018/validation/src/nullImpl/nullimplfrvt1N.cpp:92-95 | one manifest row per triple read |
| Edb.DecimalIsWord | 1N/src/testdriver/validate1N.cpp:95-97 | a printed size or offset is one blank-free word |
| Edb.RowTokens | 1N/src/testdriver/validate1N.cpp:95-97 | a printed row reads back as its three words, provided the id is a single word |
| Edb.RenderTokens | 1N/src/testdriver/validate1N.cpp:95-97 | the printed manifest reads back as the words of its rows, in order |
| Edb.WordsTriples | 1N_2018/validation/src/nullImpl/nullimplfrvt1N.cpp:92-95 | the rows' words taken three at a time give the rows back |
| Edb.ManifestRoundTrip | 1N_2018/validation/src/nullImpl/nullimplfrvt1N.cpp:91-99 | a manifest whose ids are single words parses back to exactly the rows printed |
| Edb.ReadBack | 1N_2018/validation/src/nullImpl/nullimplfrvt1N.cpp:91-99 | the manifest written for the records parses back unchanged, and each row's bytes in the EDB are its record's template |
| Workers.Loaded | 1N/src/testdriver/validate1N.cpp:224-229 | a loaded image keeps its stored dimensions and takes the description's label |
| Workers.FirstMissing | 1N/src/testdriver/validate1N.cpp:223-228 | the first record whose image does not load: every earlier one loads |
| Workers.RoleOf | 1N/src/testdriver/validate1N.cpp:277-284 | the first record is templated as Search_1N and every other as Enrollment_1N |
| Workers.ProbeIdsAreWords | 1N_2018/validation/src/testdriver/validate1N.cpp:67 | an id read with `>>` is a single blank-free word |
| Workers.IndexedDistinct | 1N/src/testdriver/validate1N.cpp:456-458 | names that differ only in their trailing index are distinct |
| Workers.AppendRecord | 1N/src/testdriver/validate1N.cpp:95-100 | appending a record appends its row to the manifest and its bytes to the EDB |
| Workers.WriteRecord | 1N/src/testdriver/validate1N.cpp:95-100 | the row is written with the EDB write position `tellp` as offset, then the bytes; the pair stays the manifest and EDB of all records so far (the 2018 driver writes the pair the same way) |
| Workers.TemplatedStep | 1N/src/testdriver/validate1N.cpp:264-288 | templating one more record pushes its id, template and return status |
| Workers.SearchKeepsGallery | 1N/src/testdriver/validate1N.cpp:171-185 | a search's calls leave the null gallery as it was |
| Workers.InsertStepReplay | 1N/src/testdriver/validate1N.cpp:301-308 | an insert step inserts into the gallery, and its search leaves it alone |
| Workers.InsertGrows | 1N_2018/validation/src/nullImpl/nullimplfrvt1N.cpp:128 | one more insert into a gallery grown from g is still grown from g, by one more id |
| Workers.InsertsAdd | 1N/src/testdriver/validate1N.cpp:301-308 | insert steps 1..s add the ids of records 1..s and keep every template already present |
| Workers.DeleteStepReplay | 1N_2018/validation/src/testdriver/validate1N.cpp:285-290 | a delete step deletes from the gallery, and its search leaves it alone |
| Workers.DeletesRemove | 1N_2018/validation/src/testdriver/validate1N.cpp:285-290 | delete steps 1..s remove exactly the ids of records 1..s |
| Workers.RemoveAbsent | 1N_2018/validation/src/testdriver/validate1N.cpp:285-290 | deleting ids the gallery does not hold changes nothing |
| Search.Resize | 1N/src/testdriver/validate1N.cpp:179 | `resize(k)` gives k entries: the first min(n, k) are kept and the rest are default candidates |
| Search.SearchAndLog | 1N/src/testdriver/validate1N.cpp:158-196 | identifyTemplate is called only when the probe template was created; the rows follow the three paths (default-filled, resized, verbatim) |
| Search.TwentyRowsEveryPath | 1N/src/testdriver/validate1N.cpp:170-195 | against an implementation keeping its side of identifyTemplate, every path logs 20 rows ranked 0..19 under the search id; a failed creation logs unassigned candidates with decision false; a successful search logs scores in descending order |
| Search.FailedSearchKeepsPartialList | 1N/src/testdriver/validate1N.cpp:177-180 | a failed search logs the first min(n, 20) returned candidates as returned, then defaults |
| Search.SuccessLengthNotEnforced | 1N/src/testdriver/validate1N.cpp:171-176 | a successful search returning three candidates logs three rows, not 20 |
| Search.LogOfSearches | 1N/src/testdriver/validate1N.cpp:187-195 | successive conforming searches log 20 rows each, block j under its own search id with ranks 0..19 |
| Search.RowsOfSearches | 1N/src/testdriver/validate1N.cpp:187-195 | row i of such a log belongs to search i / 20 and has rank i % 20 |
| Pool.ExitStatus | 1N/src/testdriver/validate1N.cpp:483 | `WEXITSTATUS` always lies in 0..255 and keeps a returned value in that range |
| Pool.WaitForChildren | 1N/src/testdriver/validate1N.cpp:477-495 | the wait loop reaps numForks children and folds their statuses with the driver's policy |
| Pool.LastWinsExit | 1N/src/testdriver/validate1N.cpp:477-495 | the status is the last reaped child's exit code, or FAILURE if it was killed, or SUCCESS when no child was reaped (both morph drivers' parents use the same rule) |
| Pool.LastWinsIsLast | 1N/src/testdriver/validate1N.cpp:478-494 | folding under last wins gives the last outcome's status, whatever came before |
| Pool.LastWinsHidesKill | 1N/src/testdriver/validate1N.cpp:483-487 | a clean exit reaped after a kill reports SUCCESS; in the other order it reports FAILURE |
| Pool.IgnoredAlwaysSucceeds | 1N_2018/validation/src/testdriver/validate1N.cpp:427-455 | the 2018 parent's status is SUCCESS whatever its children did |
| Pool.StickyFailsIffSomeoneKilled | 11_verification/validation/src/testdriver/validate11.cpp:285-300 | under signal-only sticky aggregation the status is FAILURE exactly when some child did not exit normally, wherever it was reaped |
| NullGallery.Ascii | 1N_2018/validation/src/nullImpl/nullimplfrvt1N.cpp:43-44 | `memcpy` from the string copies one byte per character |
| NullGallery.Chars | 1N_2018/validation/src/nullImpl/nullimplfrvt1N.cpp:93-95 | bytes read back as characters keep their count |
| NullGallery.TemplateCountReadsBack | 1N_2018/validation/src/nullImpl/nullimplfrvt1N.cpp:41-44 | the template built here is as long as the decimal face count plus the fixed phrase; as a check on the model, not a promise of the source (no code reads a template back this way), `Decimal.Atol` of its text gives the face count |
| NullGallery.Zeros | 1N_2018/validation/src/nullImpl/nullimplfrvt1N.cpp:94 | the freshly sized buffer holds `size` zero bytes |
| NullGallery.ReadAt | 1N_2018/validation/src/nullImpl/nullimplfrvt1N.cpp:93-95 | seek and read return `size` bytes; an in-range read gives the EDB slice; a short read fails the stream; a failed stream leaves the buffer zeroed |
| NullGallery.FirstWinsMeaning | 1N_2018/validation/src/nullImpl/nullimplfrvt1N.cpp:98 | the gallery holds exactly the records' ids, each mapped to the template of its first occurrence |
| NullGallery.LoadSuffix | 1N_2018/validation/src/nullImpl/nullimplfrvt1N.cpp:92-99 | loading the remaining rows on top of the first j records' gallery completes it |
| NullGallery.LoadAfterEnroll | 1N_2018/validation/src/nullImpl/nullimplfrvt1N.cpp:91-99 | reading back the EDB and manifest an enrollment wrote maps each id to the template first enrolled under it |
| NullGallery.ReplayAppend | 1N_2018/validation/src/nullImpl/nullimplfrvt1N.cpp:123-140 | replaying two call sequences one after the other is replaying their concatenation |
| NullGallery.ReplayQuiet | 1N_2018/validation/src/nullImpl/nullimplfrvt1N.cpp:34-121 | calls other than insert and delete leave the gallery unchanged |
| NullGallery.InsertNeverOverwrites | 1N_2018/validation/src/nullImpl/nullimplfrvt1N.cpp:128 | an insert adds the id if absent, keeps every existing template, and is idempotent |
| NullGallery.DeleteIdempotent | 1N_2018/validation/src/nullImpl/nullimplfrvt1N.cpp:137 | a delete removes the id and nothing else; deleting again changes nothing |
| NullGallery.NullImpl.constructor | 1N_2018/validation/src/nullImpl/nullimplfrvt1N.cpp:21 | a new implementation has an empty gallery |
| NullGallery.NullImpl.CreateTemplate | 1N_2018/validation/src/nullImpl/nullimplfrvt1N.cpp:34-50 | always Success; the template is the count template; there is exactly one eye pair per face, (true, true, i, i, i+1, i+1) truncated to 16 bits |
| NullGallery.NullImpl.FinalizeEnrollment | 1N_2018/validation/src/nullImpl/nullimplfrvt1N.cpp:52-69 | always Success; `mei.edb` and `mei.manifest` become byte-for-byte copies of the sources, or empty copies of a missing source; every other file is unchanged |
| NullGallery.NullImpl.InitializeIdentification | 1N_2018/validation/src/nullImpl/nullimplfrvt1N.cpp:71-102 | ConfigError with the gallery unchanged when the manifest or the EDB does not open; otherwise Success, with every manifest row's bytes loaded and the first occurrence of an id winning |
| NullGallery.NullImpl.IdentifyTemplate | 1N_2018/validation/src/nullImpl/nullimplfrvt1N.cpp:104-121 | Success and decision true; exactly k candidates, candidate i being (true, sorted id i mod m, k - i), so scores strictly descend and every id is in the gallery; this is the interface's promise |
| NullGallery.NullImpl.SortedIds | 1N_2018/validation/src/nullImpl/nullimplfrvt1N.cpp:111-113 | iterating the map gives its keys in increasing string order |
| NullGallery.NullImpl.GalleryInsertID | 1N_2018/validation/src/nullImpl/nullimplfrvt1N.cpp:123-131 | always Success; the gallery becomes the old one with the id inserted only if it was absent |
| NullGallery.NullImpl.GalleryDeleteID | 1N_2018/validation/src/nullImpl/nullimplfrvt1N.cpp:133-140 | always Success; the gallery becomes the old one without the id |
| StringOrder.Irreflexive | 1N_2018/validation/src/nullImpl/nullimplfrvt1N.cpp:111-113 | no key orders before itself |
| StringOrder.Asymmetric | 1N_2018/validation/src/nullImpl/nullimplfrvt1N.cpp:111-113 | two keys never order before each other |
| StringOrder.Transitive | 1N_2018/validation/src/nullImpl/nullimplfrvt1N.cpp:111-113 | the key order is transitive |
| StringOrder.Total | 1N_2018/validation/src/nullImpl/nullimplfrvt1N.cpp:111-113 | any two distinct keys are ordered one way or the other |
| StringOrder.LeastExists | 1N_2018/validation/src/nullImpl/nullimplfrvt1N.cpp:111-113 | a non-empty set of keys has a least key |
| StringOrder.LeastUnique | 1N_2018/validation/src/nullImpl/nullimplfrvt1N.cpp:111-113 | the least key is unique |
| StringOrder.SortedFacts | 1N_2018/validation/src/nullImpl/nullimplfrvt1N.cpp:111-113 | the sorted keys list exactly the map's keys, in strictly increasing order |
| StringOrder.SortedStep | 1N_2018/validation/src/nullImpl/nullimplfrvt1N.cpp:111-113 | the sorted keys start with the least key, followed by the sorted rest |
| Util.SpaceWords | 1N/src/testdriver/validate1N.cpp:72 | a line's words are never empty, so `tokens[0]` (and the morph driver's `imgs[0]`) always exists |
| Driver1N.ImageCount | 1N/src/testdriver/validate1N.cpp:75 | (tokens - 1) / 2 image pairs, a dangling odd word being ignored |
| Driver1N.FacesOf | 1N/src/testdriver/validate1N.cpp:77-88 | one face per image pair |
| Driver1N.ReadFaces | 1N/src/testdriver/validate1N.cpp:77-88 | the image loop loads each pair's image in order; it fails exactly when some image does not load |
| Driver1N.LineRows | 1N/src/testdriver/validate1N.cpp:110-124 | one log row per image |
| Driver1N.LogLine | 1N/src/testdriver/validate1N.cpp:110-124 | the log loop writes one row per image, with that image's path and eye pair, the template size and the creation code |
| Driver1N.EnrollCalls | 1N/src/testdriver/validate1N.cpp:92 | one createTemplate call per line, as Enrollment_1N |
| Driver1N.Enroll | 1N/src/testdriver/validate1N.cpp:28-133 | a stream that does not open kills the worker before any line is enrolled (the log header may already be written); otherwise lines are enrolled in order; the EDB and manifest handed to the streams hold exactly the records written |
| Driver1N.EnrollLines | 1N/src/testdriver/validate1N.cpp:71-125 | the line loop: records, log and calls are those of the lines up to where the worker stops; the worker returns SUCCESS exactly when every line enrolls |
| Driver1N.AllLinesEnrolled | 1N/src/testdriver/validate1N.cpp:71-125 | when every line is enrolled, the worker returns SUCCESS with one record per line |
| Driver1N.NextLineEnrolled | 1N/src/testdriver/validate1N.cpp:71-125 | a line whose images load and whose eye check passes adds its record, its rows and its call |
| Driver1N.KilledAtImage | 1N/src/testdriver/validate1N.cpp:82-85 | an image that does not load kills the worker before that line's template is made |
| Driver1N.KilledAtEyes | 1N/src/testdriver/validate1N.cpp:95-108 | an eye-count mismatch kills the worker after that line's manifest row and EDB bytes were written, but before its log rows |
| Driver1N.EnrolledRecordsReadBack | 1N/src/testdriver/validate1N.cpp:92-100 | with single-word ids, manifest row k names line k's id and template size, and the EDB bytes there are that template, whatever createTemplate returned |
| Driver1N.Finalize | 1N/src/testdriver/validate1N.cpp:135-156 | finalizeEnrollment is called exactly when both `edb` and `manifest` exist; the worker returns SUCCESS exactly when they exist and the call succeeds, and is killed otherwise |
| Driver1N.SearchWorker | 1N/src/testdriver/validate1N.cpp:198-246 | a stream that does not open kills the worker; otherwise each probe up to the first whose image does not load is templated as Search_1N and searched, one logged block per probe; the worker returns SUCCESS exactly when all probes load |
| Driver1N.SearchStep | 1N/src/testdriver/validate1N.cpp:223-238 | one more probe adds its block and its calls |
| Driver1N.SearchStopsAt | 1N/src/testdriver/validate1N.cpp:225-228 | the first probe whose image does not load is where the worker stops |
| Driver1N.TemplatingTrace | 1N/src/testdriver/validate1N.cpp:264-288 | one createTemplate call per record read, the first as Search_1N |
| Driver1N.InsertSearchIdsDistinct | 1N/src/testdriver/validate1N.cpp:307 | each step's search id `ids[0].i` is distinct |
| Driver1N.InsertWorker | 1N/src/testdriver/validate1N.cpp:248-311 | an input that does not open, an image that does not load, or a log that does not open kills the worker; otherwise records 1..n-1 are inserted in turn, with a search using record 0 after each; insert codes are ignored |
| Driver1N.TemplateRecords | 1N/src/testdriver/validate1N.cpp:264-288 | the reading loop templates every record in order until the first image that does not load, keeping ids, templates and codes |
| Driver1N.TemplatingStep | 1N/src/testdriver/validate1N.cpp:264-288 | one more record pushes its id, template and code and adds its createTemplate call |
| Driver1N.InsertSteps | 1N/src/testdriver/validate1N.cpp:300-308 | the step loop makes n-1 blocks, block b being the search under `ids[0].(b+1)` after inserting record b+1 |
| Driver1N.InsertStepLogged | 1N/src/testdriver/validate1N.cpp:301-308 | one more insert step adds its insert call, its search calls and its block |
| Driver1N.InsertLogShape | 1N/src/testdriver/validate1N.cpp:300-308 | against a conforming implementation, a completed run logs 20 rows per step, with each step's rows under its own search id |
| Driver1N.TemplatingKeepsGallery | 1N/src/testdriver/validate1N.cpp:285 | templating leaves the gallery as it was |
| Driver1N.InsertRunGrowsGallery | 1N/src/testdriver/validate1N.cpp:300-308 | against the null implementation, a completed run adds the ids of records 1..n-1, keeps every template already there, and removes nothing |
| Driver1N.ParseCommand | 1N/src/testdriver/validate1N.cpp:419-429 | only "enroll_1N", "finalize_1N", "search_1N" and "insert" are run, each as the action of that name |
| Driver1N.Dispatch | 1N/src/testdriver/validate1N.cpp:321-509 | a version mismatch or an unknown word gives FAILURE; a failed initialization kills the process for enroll, search and insert, since `initialize` raises SIGTERM; for enroll and search a split that divides by zero (no lines, or `-t 0`) kills the process with SIGFPE, a split that returns FAILURE gives FAILURE, and otherwise the last reaped worker decides (SUCCESS with no worker); finalize ends as `finalize` does; insert gives its worker's end once initialized |
| Driver1N.WorkerOutputsDisjoint | 1N/src/testdriver/validate1N.cpp:452-465 | two workers never share a log, EDB or manifest, and no EDB path is a manifest path |
| Driver2018.FirstBad | 1N_2018/validation/src/testdriver/validate1N.cpp:67-73 | the first record the worker cannot get past: every earlier one's image loads and its description is a label |
| Driver2018.FirstBadStep | 1N_2018/validation/src/testdriver/validate1N.cpp:67-73 | walking the records, the next one is either admitted or the stopping point |
| Driver2018.Face | 1N_2018/validation/src/testdriver/validate1N.cpp:68-75 | an admitted record's face carries the label its description names |
| Driver2018.Stop | 1N_2018/validation/src/testdriver/validate1N.cpp:69-73 | an image that does not load returns FAILURE (checked first); an unknown description makes `getLabel` throw and kills the worker |
| Driver2018.ReadRecord | 1N_2018/validation/src/testdriver/validate1N.cpp:68-73 | loading and labelling a record gives its face when it is admitted, and otherwise how the worker stops |
| Driver2018.EndedMeaning | 1N_2018/validation/src/testdriver/validate1N.cpp:67-73 | the worker returns SUCCESS exactly when every record is admitted and is killed exactly at an unknown description; the implementation's answers never stop it |
| Driver2018.EnrollRowOf | 1N_2018/validation/src/testdriver/validate1N.cpp:88-99 | a row logs id, path, template size and code, and the first eye pair or an unassigned one at (0, 0); the eye count is not checked |
| Driver2018.EnrollStep | 1N_2018/validation/src/testdriver/validate1N.cpp:67-100 | one more admitted record adds its record, its row and its call |
| Driver2018.Enroll | 1N_2018/validation/src/testdriver/validate1N.cpp:26-108 | a stream that does not open returns FAILURE before any record is enrolled (the log header may already be written); otherwise every record up to the first bad one is enrolled; the EDB and manifest handed to the streams hold exactly the records written |
| Driver2018.EnrollThenLoad | 1N_2018/validation/src/testdriver/validate1N.cpp:80-86 | whatever the input, the files an enrollment leaves load back into the null gallery with each enrolled id mapped to the template of its first record, and no other id |
| Driver2018.Finalize | 1N_2018/validation/src/testdriver/validate1N.cpp:110-130 | finalizeEnrollment is called exactly when both files exist; the worker returns SUCCESS exactly when they exist and the call succeeds, and FAILURE otherwise |
| Driver2018.FinalizeLikeCurrent | 1N_2018/validation/src/testdriver/validate1N.cpp:110-130 | both drivers make the same call under the same conditions and succeed alike |
| Driver2018.SearchWorker | 1N_2018/validation/src/testdriver/validate1N.cpp:172-220 | a stream that does not open returns FAILURE; otherwise each probe up to the first bad one is templated and searched, one block per probe |
| Driver2018.SearchStep | 1N_2018/validation/src/testdriver/validate1N.cpp:197-212 | one more admitted probe adds its block and calls |
| Driver2018.TemplatingTrace | 1N_2018/validation/src/testdriver/validate1N.cpp:238-262 | one createTemplate call per record read, the first as Search_1N |
| Driver2018.InsertAndDelete | 1N_2018/validation/src/testdriver/validate1N.cpp:222-292 | a bad record or a file that does not open ends the worker; otherwise records 1..n-1 are inserted and then deleted, each step followed by a search under `ids[0]`, giving 2(n-1) blocks; mutation codes are ignored |
| Driver2018.TemplateRecords | 1N_2018/validation/src/testdriver/validate1N.cpp:238-262 | the reading loop templates every record in order until the first bad one, saying how the worker ends there |
| Driver2018.Steps | 1N_2018/validation/src/testdriver/validate1N.cpp:274-290 | the two step loops make 2(n-1) blocks under the probe's id; the calls are the insert steps followed by the delete steps |
| Driver2018.InsertLoop | 1N_2018/validation/src/testdriver/validate1N.cpp:274-282 | the insert loop makes n-1 probe searches, with calls of the insert steps 1..n-1 |
| Driver2018.DeleteLoop | 1N_2018/validation/src/testdriver/validate1N.cpp:284-290 | the delete loop appends n-1 more probe searches, with calls of the delete steps 1..n-1 |
| Driver2018.ProbeSearchStep | 1N_2018/validation/src/testdriver/validate1N.cpp:281 | one more search with the probe adds its block |
| Driver2018.DeleteStepLogged | 1N_2018/validation/src/testdriver/validate1N.cpp:285-290 | one more delete step adds its delete call, its search calls and its block |
| Driver2018.InsertDeleteLogShape | 1N_2018/validation/src/testdriver/validate1N.cpp:274-290 | against a conforming implementation, a completed run logs 20·2(n-1) rows, row i under the probe's id with rank i % 20 |
| Driver2018.RunRestoresGallery | 1N_2018/validation/src/testdriver/validate1N.cpp:274-290 | against the null implementation, a completed run leaves the gallery it found less the ids of records 1..n-1; that is the same gallery when none of those ids was enrolled |
| Driver2018.GalleryAfterRun | 1N_2018/validation/src/testdriver/validate1N.cpp:274-290 | the calls of a full run replay to the old gallery without the inserted ids |
| Driver2018.SameOutside | 1N_2018/validation/src/testdriver/validate1N.cpp:285-290 | a gallery that only gained some ids is the old one once those ids are removed |
| Driver2018.WorkerLogsDisjoint | 1N_2018/validation/src/testdriver/validate1N.cpp:406-415 | different workers or actions never share a log |
| Driver2018.ForkAndWait | 1N_2018/validation/src/testdriver/validate1N.cpp:382-442 | enroll and search return FAILURE if initialization fails or the split returns FAILURE; after a successful initialization a split that divides by zero (no lines, or `-t 0`) kills the process with SIGFPE; otherwise SUCCESS, whatever the workers did |
| Driver2018.Dispatch | 1N_2018/validation/src/testdriver/validate1N.cpp:367-455 | an unknown word ends in FAILURE; enroll and search end as `Driver2018.ForkAndWait` does, Killed on a split that divides by zero and otherwise ignoring their workers; finalize returns the status `Driver2018.Finalize` gives for the files present and the implementation's answer; insertAndDelete returns its worker's end once initialized |
| Morph.DetectColumns | morph/src/testdriver/validate_morph.cpp:48-56 | the header has four columns, or five with the probe column for the WithProbeImg actions, from "image" to "returnCode" |
| Morph.DetectCallOf | morph/src/testdriver/validate_morph.cpp:68-80 | a line calls detectMorph, or detectMorphDifferentially in the WithProbeImg modes, on its first image with the mode's label |
| Morph.DetectRowOf | morph/src/testdriver/validate_morph.cpp:87-97 | a row logs the first word, the second word only when differential, isMorph (false if unset), the score (-1.0 if unset) and the code |
| Morph.DetectStop | morph/src/testdriver/validate_morph.cpp:58-85 | the first line whose images do not load or whose call is NotImplemented; no earlier line is either |
| Morph.DetectWorker | morph/src/testdriver/validate_morph.cpp:25-113 | a file that does not open ends the worker with nothing written; otherwise lines run in order until the stop line, with the outcome `DetectOutcome` describes (the stand-alone morph driver runs the same loop with FAILURE as the failing end) |
| Morph.DetectStopsAt | morph/src/testdriver/validate_morph.cpp:82-85 | a line that halts with none before it is the stop line |
| Morph.DetectFailsAt | morph/src/testdriver/validate_morph.cpp:61-64 | an image that does not load ends the worker, keeping the log and the input |
| Morph.DetectNotImplementedAt | morph/src/testdriver/validate_morph.cpp:82-111 | a NotImplemented answer breaks the loop without a row; the log is deleted and the worker returns 2 |
| Morph.DetectStep | morph/src/testdriver/validate_morph.cpp:58-98 | a line that loads and is implemented adds its call and its row |
| Morph.DetectCompletes | morph/src/testdriver/validate_morph.cpp:99-112 | when every line is logged, the input is removed and the worker returns SUCCESS |
| Morph.DetectLog | morph/src/testdriver/validate_morph.cpp:82-112 | the log is deleted exactly when the worker returns 2, and the input is removed exactly when the worker does not take the failing end; otherwise the log has the header and one row per line read, in order, none carrying NotImplemented |
| Morph.CompareStop | morph/src/testdriver/validate_morph.cpp:141-158 | the first pair with an image that does not load or with a NotImplemented answer |
| Morph.CompareRowOf | morph/src/testdriver/validate_morph.cpp:151-165 | a row logs both names, the similarity (-1.0 if unset) and the code |
| Morph.CompareWorker | morph/src/testdriver/validate_morph.cpp:115-182 | a file that does not open ends the worker with nothing written; otherwise pairs run in order until the stop pair, with the outcome `CompareOutcome` describes (the stand-alone morph driver runs the same loop with FAILURE as the failing end) |
| Morph.CompareStopsAt | morph/src/testdriver/validate_morph.cpp:155-158 | a pair that halts with none before it is the stop pair |
| Morph.CompareFailsAt | morph/src/testdriver/validate_morph.cpp:142-149 | an image that does not load ends the worker, keeping the log and the input |
| Morph.CompareNotImplementedAt | morph/src/testdriver/validate_morph.cpp:155-179 | a NotImplemented answer breaks the loop; the log is deleted and the worker returns 2 |
| Morph.CompareStep | morph/src/testdriver/validate_morph.cpp:141-166 | a pair that loads and is implemented adds its call and its row |
| Morph.CompareCompletes | morph/src/testdriver/validate_morph.cpp:167-181 | when every pair is logged, the input is removed and the worker returns SUCCESS |
| Morph.CompareLog | morph/src/testdriver/validate_morph.cpp:155-181 | the log is deleted exactly when the worker returns 2; otherwise it has the four-column header and one row per pair read, none carrying NotImplemented |
| Morph.WorkerLogsDistinct | morph/src/testdriver/validate_morph.cpp:312-318 | the logs `stem.log.i` of different workers are distinct |
| MorphDriver.ParseCommand | morph/src/testdriver/validate_morph.cpp:264-277 | exactly the six detect words and "compare" are run, each as the action of that name |
| MorphDriver.ModesOneToOne | common/src/util/util.cpp:217-225 | the six detect actions and the six (label, probe image) modes correspond one to one |
| MorphDriver.DetectMorph | morph/src/testdriver/validate_morph.cpp:25-113 | SIGTERM on any open or load failure; the header names the mode's columns; every row has as many fields as the header, and none carries NotImplemented; the log is gone exactly when the worker returns 2 |
| MorphDriver.Compare | morph/src/testdriver/validate_morph.cpp:115-182 | SIGTERM on any open or load failure; no row carries NotImplemented; the log is gone exactly when the worker returns 2 |
| MorphDriver.Run | morph/src/testdriver/validate_morph.cpp:198-353 | a version mismatch, an unknown word, a failed initialization or a split that returns FAILURE give FAILURE; a split that divides by zero (no lines, or `-t 0`) kills the process with SIGFPE; otherwise the last reaped worker decides |
| MorphLegacy.ActionTablesInverse | morph/validation/src/testdriver/validate.cpp:24-44 | the local tables are inverse bijections over the same seven words |
| MorphLegacy.NamesAgreeWithCommon | morph/validation/src/testdriver/validate.cpp:24-44 | each local word is the shared table's word for the same action |
| MorphLegacy.CodeValue | morph/frvt_morph.h:63-84 | the morph interface's codes are stored as 0..9 |
| MorphLegacy.CodeValueInjective | morph/frvt_morph.h:63-84 | distinct codes have distinct values, and 8 is NotImplemented alone |
| MorphLegacy.ModeOf | morph/validation/src/testdriver/validate.cpp:85-96 | exactly the three WithProbeImg actions run differentially |
| MorphLegacy.LookupAction | morph/validation/src/testdriver/validate.cpp:249 | `mapStringToAction[actionstr]` gives the listed action, or the first enumerator DetectNonScannedMorph for an unlisted word |
| MorphLegacy.UnknownWordRunsDetection | morph/validation/src/testdriver/validate.cpp:249-262 | an unknown word never reaches the usage branch and runs as DetectNonScannedMorph, e.g. "detect" |
| MorphLegacy.HeaderAsWritten | morph/validation/src/testdriver/validate.cpp:69-73 | no header line is written exactly for DetectUnknownMorphWithProbeImg |
| MorphLegacy.HeaderlessProbeRows | morph/validation/src/testdriver/validate.cpp:69-114 | DetectUnknownMorphWithProbeImg gets no header, yet its rows carry the probe image |
| MorphLegacy.Header | morph/validation/src/testdriver/validate.cpp:69-73 | the corrected header names one column per field of the action's rows, and agrees with the code for every other action |
| MorphLegacy.DetectMorph | morph/validation/src/testdriver/validate.cpp:46-130 | FAILURE on any open or load failure, and exactly then the input stays; header from `Header`; every row as wide as the header; none carries NotImplemented |
| MorphLegacy.CompareWorker | morph/validation/src/testdriver/validate.cpp:132-199 | FAILURE on any open or load failure, and exactly then the input stays; no row carries NotImplemented |
| MorphLegacy.Run | morph/validation/src/testdriver/validate.cpp:215-336 | with unknown words rejected, an unknown word, a failed initialization or a failed split give FAILURE; otherwise the last reaped worker decides |

## Left out

- Image decoding (`readImage`, PPM parsing) is left out: an image is loaded exactly when its path is in the `Disk` map.
- The raw pixel buffer of an image is left out. Sizes are modelled by `Structs.ImageSize`.
- `fork`, `wait`, `raise(SIGTERM)`, `remove` and stream opening are left out. Each is an input: whether a stream opened, which worker ends come back from `wait` in which order. A failed `fork` is left out.
- Command-line flag parsing is left out.
- The `initialize` helpers of both 1:N drivers are left out. Their outcome is the `initOk` input. The current driver's `initialize` raises SIGTERM on a failed call (1N/src/testdriver/validate1N.cpp:333,341,349), so `Driver1N.Dispatch` ends Killed then; the `!= EXIT_SUCCESS` checks after it in `main` are never taken. The 2018 `initialize` returns FAILURE, and its `main` returns EXIT_FAILURE.
- The library's struct and API versions are inputs to `Driver1N.Dispatch` and `MorphDriver.Run`, which compare them with the versions the drivers expect.
- Merging the workers' `edb.i` and `manifest.i` files into one EDB and manifest is left out; no code for it exists here.
- Scores and similarities (`double`) are modelled as `real`. Their printed form is not modelled.
- The row text of a log (stream formatting of booleans and doubles) is left out. A log is modelled as a sequence of row records.
- The morph label `getLabel(Action)` of the stand-alone morph driver is declared in morph/validation/src/include/util.h. Its body is not part of this model, so `MorphLegacy.ModeOf` takes the label named by the action.
- The morph `Image` argument of detect and compare calls is the image header from the `Disk` map.
- The current 1:N driver passes `configDir` to `finalizeEnrollment`. The call record `FinalizeEnrollment` carries the other three arguments only.
- Driver1N.Enroll: `edb` and `manifest` are what the worker handed to its streams, not what reaches the disk when it is killed. After `raise(SIGTERM)` the stream destructors do not run. Manifest rows, ended by `endl`, are on disk, but EDB bytes still buffered may be missing. After a kill for an eye-count mismatch the manifest can therefore point past the end of the EDB file.
- Driver2018.Enroll: likewise, when `getLabel` throws, EDB bytes still buffered may not reach the file. Every path that returns FAILURE or SUCCESS runs the destructors, so all output is flushed there.
- Decimal.Atol: signs and `long` overflow are not modelled; a token starting with '+' or '-' reads as 0. The tokens `>>` reads carry no leading blanks (`Text.TokensAreWords`), and the drivers write only unsigned decimal numbers into a manifest. A hand-made manifest with a negative size, which would make the vector constructor throw, is outside the model.
- Structs.ImageSize: requires both `width * height` and the full product to fit in the 32-bit signed `int` the source computes them in. Past that range the source's behaviour is undefined, so no result is modelled there.
- MorphLegacy.Run: the `splitInputFile` the stand-alone morph driver calls is declared in morph/validation/src/include/util.h and its body is not part of this model. Its outcome is the `split` input, shards or a failure; a division by zero inside it is not modelled.
- Morph.Loads: a WithProbeImg line with a single word makes the source read `imgs[1]` out of bounds. The model treats such a line as one whose images do not load.
- Structs.Describe: states the message of each code through `Structs.Message` and "Undefined error" outside 0..14. It does not separately state that the fifteen messages differ from one another.
- NullGallery.NullImpl.IdentifyTemplate: requires a non-empty gallery when k > 0, because the source divides by the gallery size. It also requires k < 2^32, the `uint32_t` parameter's range.
- Util.SplitInputFile: a division by zero (no lines, or a zero request) is modelled as the outcome `DivisionByZero`. Line counts and requests are limited to the 32-bit range the source's `int` holds.
- The interface promises that hold only across processes are not modelled: data is read-only after finalization, and calls come from a single thread.
- The 1:1 and quality drivers are not modelled beyond their signal-only sticky wait loop (`Pool.StickyFailsIffSomeoneKilled`).
- The null implementations for 1:1, morph and quality are not modelled.

## Findings

| source | as written | input that shows it | evidently intended | confidence | as-written member | corrected member |
|---|---|---|---|---|---|---|
| morph/validation/src/testdriver/validate.cpp:249 | `mapStringToAction[actionstr]` inserts the first enumerator, DetectNonScannedMorph, for a word the table lacks, so the switch's usage branch can never run | action word "detect" runs a DetectNonScannedMorph job instead of printing the usage message | an unknown word ends in the usage message and EXIT_FAILURE | not executed | MorphLegacy.UnknownWordRunsDetection | MorphLegacy.Run |
| morph/validation/src/testdriver/validate.cpp:69-73 | the `else if` choosing the five-column header leaves out DetectUnknownMorphWithProbeImg | a detectUnknownMorphWithProbeImg run writes five-field rows with no header line (lines 106-109 do print the probe column) | every detect log starts with a header naming its rows' columns | not executed | MorphLegacy.HeaderlessProbeRows | MorphLegacy.Header |

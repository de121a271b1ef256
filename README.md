# Context provider core, modelled in Dafny

This project models the two classes in `src/core/` of a tool that scans a workspace
for text files and turns them into embedded chunks:

- `WorkspaceScanner` (`src/core/workspace-scanner.js`) builds an ignore rule set from
  its exclude patterns, `.gitignore` and `.contextignore`. It then walks the
  enumerated paths through a fixed sequence of checks and emits one `FileRecord`
  per surviving file. The checks are: ignore rules, lower-cased extension allow-list,
  size limit, regular file, readable, no NUL character.
- `EmbeddingProcessor` (`src/core/embedding-processor.js`) cuts each file's text into
  chunks under an estimated token budget. Each new chunk is seeded with an overlap
  tail of the previous one. It embeds every chunk with a lazily created pipeline
  and returns one record per embedded chunk.

Modules:

- `Results` (`results.dfy`): `Option` and `Result`.
- `JsText` (`js_text.dfy`): the JavaScript string operations the code relies on.
  These are `trim` and `\s` over the ECMAScript whitespace set, `split` on a regex
  that matches a run of delimiters, `join`, and ASCII lower-casing.
- `Chunker` (`chunker.dfy`): `estimateTokens`, `getOverlapText` and `chunkText`.
  `chunkText` is an imperative method, proved equal to a specification function.
  That function is built from a one-step function `Step`, folded over the
  sentence units by `Run`.
- `Scanner` (`scanner.dfy`):
  - the `WorkspaceScanner` class, with its constructor defaults and `ScanFiles`;
  - the `IgnoreMatcher` class, for the `ig` object whose rule list grows through `ig.add`;
  - `isBinaryContent` and `path.extname`;
  - the filter loop, specified by `Decide`, `Decisions`, `Gather` and `Scan`.
- `Embedding` (`embedding.dfy`): the `EmbeddingProcessor` class.
  - Its constructor defaults.
  - The cached `transformers` and `pipeline` fields.
  - `ProcessFiles`, whose nested loops are specified by `BatchResults`.
  - `Cleanup`.

Foreign calls become inputs:

- The file system is a `Workspace` value: the two ignore files, the enumeration, and a
  map from each path to the outcomes of `fs.stat` and `fs.readFile`.
- The `ignore` matcher is a function over the accumulated rule texts and a relative
  path that may fail.
- `mime.lookup` is a table.
- The dynamic import is a `Result<Library>`. The library maps a model name to a
  pipeline or fails. The pipeline maps a text to an opaque vector or fails.

Two consequences of the code worth knowing:

- A text whose own estimate is below the budget can still be cut. `chunkText`
  adds up one ceiling per sentence unit, so four one-letter units cost four tokens
  while `"a.b.c.d"` as a whole is estimated at two. With a budget of three it gives
  `"a. b. c."` and `"a. b. c. d"` (`Chunker.ShortTextCanStillSplit`). When the units
  do fit, the single chunk is each unit followed by `". "`, then trimmed, so it
  ends with `.` (`Chunker.NoSplitWithinBudget`): `"Hello world"` becomes
  `"Hello world."`, not the trimmed input.
- `fs.readFile(path, 'utf8')` does not fail on malformed UTF-8; it substitutes
  U+FFFD. Such a file is therefore not excluded: a file is skipped at that step
  only when the read itself fails.

## Model

| member | source | states |
|---|---|---|
| JsText.TrimWindow | src/core/embedding-processor.js:168 | `trim()` returns a contiguous window of the text; everything cut from either end is whitespace |
| JsText.TrimFacts | src/core/embedding-processor.js:155 | a trimmed text has no whitespace at either end, and it is empty exactly when the text is all whitespace |
| JsText.TrimIdempotent | src/core/embedding-processor.js:168 | trimming twice is trimming once |
| JsText.Trim | src/core/embedding-processor.js:132 | `String.prototype.trim` over the ECMAScript whitespace set; its properties are `TrimWindow`, `TrimFacts` and `TrimIdempotent` |
| JsText.SplitPiecesFree | src/core/embedding-processor.js:132 | every piece of a split on delimiter runs is free of delimiters |
| JsText.Split | src/core/embedding-processor.js:132 | `split` on a regex matching a run of delimiters, as used at lines 132 and 168; its properties are `SplitPiecesFree`, `SplitKeepsContent`, `SplitTrimmedYieldsWords` and `SplitJoinOn` |
| JsText.SplitKeepsContent | src/core/embedding-processor.js:132 | a split drops only delimiter characters: the pieces laid end to end are the text with its delimiters removed |
| JsText.SplitTrimmedYieldsWords | src/core/embedding-processor.js:168 | splitting a trimmed non-empty text on whitespace runs yields only non-empty, whitespace-free words |
| JsText.SplitJoin | src/core/embedding-processor.js:168-170 | joining words with single spaces and splitting on whitespace runs gives back the same words |
| JsText.Join | src/core/embedding-processor.js:170 | `Array.prototype.join`; its properties are `SplitJoin` and `SplitJoinOn` |
| JsText.SplitJoinOn | src/core/embedding-processor.js:132 | splitting non-empty, delimiter-free pieces joined by one delimiter gives the pieces back |
| JsText.ToLowerAscii | src/core/workspace-scanner.js:75 | lower-casing keeps the length and maps each character through the ASCII lower-case table |
| Chunker.EstimateTokens | src/core/embedding-processor.js:162-165 | the estimate `n` is `ceil(|text|/4)`, i.e. `4n >= |text| > 4n - 4`, and it is 0 exactly for the empty text |
| Chunker.SliceFrom | src/core/embedding-processor.js:170 | `slice(start)` returns a suffix of the sequence, never longer than it |
| Chunker.Words | src/core/embedding-processor.js:168 | `text.trim().split(/\s+/)`; its properties are `WordsAreWords` and `WordsOfTrim` |
| Chunker.OverlapWords | src/core/embedding-processor.js:167-170 | a positive overlap keeps the last `min(overlap, #words)` words, at least one; 0 keeps all words (`slice(-0)`); a negative overlap drops the first `-overlap` words |
| Chunker.OverlapText | src/core/embedding-processor.js:167-171 | `getOverlapText`: the overlap words joined by single spaces plus one trailing space; its properties are `OverlapOfBlank`, `OverlapRoundTrip` and `OverlapJoinTrimmed` |
| Chunker.OverlapOfBlank | src/core/embedding-processor.js:167-171 | the overlap text of a blank text is a single space |
| Chunker.OverlapRoundTrip | src/core/embedding-processor.js:167-171 | for a non-blank text and a positive overlap, splitting the overlap text back into words gives exactly the overlap words |
| Chunker.OverlapJoinTrimmed | src/core/embedding-processor.js:168-170 | the joined overlap words form a trimmed text, empty only when there are no overlap words |
| Chunker.NonBlank | src/core/embedding-processor.js:132 | the `filter` on non-blank pieces; its property is `NonBlankSpec` |
| Chunker.Sentences | src/core/embedding-processor.js:132 | the sentence units of `chunkText`; its property is `SentencesSpec` |
| Chunker.NonBlankSpec | src/core/embedding-processor.js:132 | the filter keeps exactly the pieces that are not blank, and only pieces of its input |
| Chunker.SentencesSpec | src/core/embedding-processor.js:132 | sentence units are non-blank and contain no `.`, `!` or `?`; every non-blank piece between punctuation runs is a unit |
| Chunker.Closes | src/core/embedding-processor.js:140 | the split condition: the unit would overflow the budget and the buffer is not empty; its consequences are `RunAdvances` and `SingleSentenceOneChunk` |
| Chunker.Step | src/core/embedding-processor.js:138-151 | one pass of the loop over the units; its property is `RunAdvances` |
| Chunker.Finish | src/core/embedding-processor.js:154-159 | the final push of the trimmed buffer and the fallback to `[text]`; its property is `ChunksShape` |
| Chunker.Chunks | src/core/embedding-processor.js:129-160 | what `chunkText` returns: the units folded by `Step`, then the final buffer and the fallback to the whole text; its properties are `ChunksShape`, `ChunksCover`, `ChunksOverlap` and `NoSplitWithinBudget` |
| Chunker.RunAdvances | src/core/embedding-processor.js:138-151 | one loop pass: on a split the trimmed buffer is emitted and the buffer becomes the overlap text plus the unit with its tokens re-estimated from the whole buffer; otherwise the unit and `". "` are appended and the unit's estimate is added |
| Chunker.ChunkText | src/core/embedding-processor.js:129-160 | the loop computes `Chunks(text, maxTokens, overlap)` |
| Chunker.RunShape | src/core/embedding-processor.js:137-152 | after the loop every emitted chunk is trimmed and non-empty, there is one per split, and the buffer is non-blank once a unit has been seen |
| Chunker.ChunksShape | src/core/embedding-processor.js:154-159 | the result is never empty; with no non-blank unit it is exactly `[text]`; otherwise it has one chunk more than there were splits, each trimmed and non-empty |
| Chunker.SingleSentenceOneChunk | src/core/embedding-processor.js:140-159 | a single unit enters the empty buffer whatever its size, giving exactly one chunk |
| Chunker.RunWithinBudget | src/core/embedding-processor.js:137-152 | when the units' estimates sum to at most the budget, the loop never splits and only accumulates |
| Chunker.NoSplitWithinBudget | src/core/embedding-processor.js:137-159 | within budget there is exactly one chunk: each unit followed by `". "`, then trimmed, so the chunk ends with `.` |
| Chunker.ShortTextCanStillSplit | src/core/embedding-processor.js:137-159 | `"a.b.c.d"` is estimated at 2 tokens, below a budget of 3, yet gives the two chunks `"a. b. c."` and `"a. b. c. d"`, because each unit is estimated separately |
| Chunker.RunCovers | src/core/embedding-processor.js:137-152 | every unit seen lies in the buffer, or its trimmed text lies inside an emitted chunk |
| Chunker.ChunksCover | src/core/embedding-processor.js:129-160 | the trimmed text of every sentence unit occurs inside some chunk: nothing is dropped |
| Chunker.RunOverlaps | src/core/embedding-processor.js:140-151 | throughout the loop each emitted chunk after the first begins with the overlap words of the one before, and the buffer begins with the overlap text of the last emitted chunk |
| Chunker.ChunksOverlap | src/core/embedding-processor.js:140-159 | each chunk after the first begins with the overlap words of the chunk before it |
| Scanner.MaxFileSizeOrDefault | src/core/workspace-scanner.js:31 | an absent or zero setting becomes 1048576, any other setting is kept, and the limit is never 0 |
| Scanner.ListOrDefault | src/core/workspace-scanner.js:13-29 | an absent list setting takes the default list; any given array, even an empty one, is kept |
| Scanner.WorkspaceScanner.constructor | src/core/workspace-scanner.js:8-32 | the exclude patterns, extensions and size limit are the settings or their defaults |
| Scanner.IsBinaryContent | src/core/workspace-scanner.js:142-145 | content is binary exactly when some character is NUL |
| Scanner.MimeType | src/core/workspace-scanner.js:109 | the MIME type is the table's non-empty answer, and `text/plain` when the table has none or an empty one |
| Scanner.ExtnameShape | src/core/workspace-scanner.js:75 | an extension is empty, or a `.` followed by text without `.` or `/` that ends the last path segment after at least one other character |
| Scanner.ExtnameOfDotfile | src/core/workspace-scanner.js:75 | a last segment whose only `.` is its first character, or that has none, has no extension |
| Scanner.ExtnameOfSuffix | src/core/workspace-scanner.js:75 | a last segment `name.suffix` with a non-empty name and no `.` in the suffix has the extension `.suffix`, unless it is `..` |
| Scanner.Extname | src/core/workspace-scanner.js:75 | POSIX `path.extname`: from the last `.` of the last segment to its end; its properties are `ExtnameShape`, `ExtnameOfDotfile` and `ExtnameOfSuffix` |
| Scanner.RuleSetOrder | src/core/workspace-scanner.js:39-58 | the rules are the exclude patterns, then the `.gitignore` text, then the `.contextignore` text; an absent file adds nothing, and an unreadable one fails the scan |
| Scanner.RuleSet | src/core/workspace-scanner.js:39-58 | the rule accumulation into `ig`; its property is `RuleSetOrder` |
| Scanner.IgnoreMatcher.constructor | src/core/workspace-scanner.js:39 | a new matcher has no rules |
| Scanner.IgnoreMatcher.Add | src/core/workspace-scanner.js:42-56 | `ig.add` appends the given rules after those already there |
| Scanner.DecideSpec | src/core/workspace-scanner.js:66-114 | a candidate fails the scan exactly when the matcher throws, and yields a record exactly when it passes every check in order, with the record built from its stat and content |
| Scanner.SizeCheckedBeforeRead | src/core/workspace-scanner.js:84-95 | an over-size file is skipped whatever reading it would give |
| Scanner.SizeBoundary | src/core/workspace-scanner.js:84 | a file of exactly `maxFileSize` bytes passes the size check and one byte more does not |
| Scanner.Decide | src/core/workspace-scanner.js:67-114 | the outcome for one enumerated file, with the checks in source order; its properties are `DecideSpec`, `SizeCheckedBeforeRead` and `SizeBoundary` |
| Scanner.ScanCandidate | src/core/workspace-scanner.js:67-114 | the loop body computes the candidate's `Decide` outcome |
| Scanner.CollectConcat | src/core/workspace-scanner.js:66-115 | the loop over a concatenation yields the records of each part, in order |
| Scanner.FileErrorSkipsOnlyThatFile | src/core/workspace-scanner.js:80-114 | a file whose stat or read throws adds nothing, and the files around it give what they give without it |
| Scanner.CollectErrors | src/core/workspace-scanner.js:70 | the loop fails exactly when the matcher throws on some candidate |
| Scanner.CollectSound | src/core/workspace-scanner.js:66-110 | every record comes from an enumerated candidate that passed every check, and records keep the enumeration order |
| Scanner.CollectComplete | src/core/workspace-scanner.js:66-110 | every candidate that passes every check is emitted |
| Scanner.ScanErrors | src/core/workspace-scanner.js:120-122 | the scan fails exactly when an ignore file is unreadable, the enumeration fails or the matcher throws, and the message carries `Failed to scan workspace: ` |
| Scanner.Scan | src/core/workspace-scanner.js:34-123 | what `scanFiles` returns: the rule set, the enumeration and the filter loop, with the outer error wrapped; its properties are `ScanErrors`, `CollectSound` and `CollectComplete` |
| Scanner.WorkspaceScanner.ScanFiles | src/core/workspace-scanner.js:34-123 | `scanFiles` returns `Scan` of its settings and the workspace |
| Embedding.TextOrDefault | src/core/embedding-processor.js:7 | an absent or empty model name takes the default, any other is kept |
| Embedding.NumberOrDefault | src/core/embedding-processor.js:8-9 | an absent or zero number takes the default, any other is kept |
| Embedding.EmbeddingProcessor.constructor | src/core/embedding-processor.js:6-15 | the model, budget and overlap are the options or `Xenova/all-MiniLM-L6-v2`, 512 and 50; nothing is cached |
| Embedding.EmbeddingProcessor.LoadTransformers | src/core/embedding-processor.js:17-23 | the library is imported once and then reused; a failed import caches nothing |
| Embedding.LoadFailureWrapped | src/core/embedding-processor.js:54-69 | a failed import gives `Failed to load embedding model: ` plus the import's message; a failed `pipeline(...)` call gives the prefix plus that call's message; a created pipeline is returned |
| Embedding.LoadPipeline | src/core/embedding-processor.js:40-69 | the pipeline `initializePipeline` creates when none is cached; its property is `LoadFailureWrapped` |
| Embedding.EmbeddingProcessor.InitializePipeline | src/core/embedding-processor.js:35-70 | a cached pipeline is returned unchanged; otherwise the pipeline is created from the cached or imported library and cached, or the wrapped error is returned and no pipeline is cached; a library imported on the way stays cached even when creating the pipeline fails |
| Embedding.EmbeddedPrefix | src/core/embedding-processor.js:83-103 | the chunks embedded before the first failure all succeed, and the chunk where it stops fails |
| Embedding.RecordsUpToAt | src/core/embedding-processor.js:89-102 | record `k` is the record of chunk `k` |
| Embedding.ChunkRecord | src/core/embedding-processor.js:89-101 | the record pushed for one chunk; its fields are stated by `FileResultsShape` |
| Embedding.FileResults | src/core/embedding-processor.js:80-104 | the records one file contributes inside its `try`: one per chunk up to the first failing embedding; its properties are `FileResultsShape` and `FailingFileIsolated` |
| Embedding.EmbedChunks | src/core/embedding-processor.js:83-103 | the inner loop pushes one record per chunk, in chunk order, up to the first failing embedding |
| Embedding.FileResultsShape | src/core/embedding-processor.js:81-104 | a file's records name the file, number the chunks from 0 (`chunk` and `chunkIndex`), carry `totalChunks`, the chunk text, its length and the file metadata, and hold the chunk's embedding; all chunks are present exactly when every embedding succeeds |
| Embedding.BatchResultsConcat | src/core/embedding-processor.js:76-108 | the results of a batch are the results of its parts, in input order |
| Embedding.FailingFileIsolated | src/core/embedding-processor.js:80-107 | a file whose first chunk cannot be embedded adds nothing and does not change the results of the other files |
| Embedding.BatchResultsFromFiles | src/core/embedding-processor.js:76-103 | every record comes from one of the files, and is one of that file's records |
| Embedding.BatchResults | src/core/embedding-processor.js:76-108 | what `processFiles` returns under a loaded pipeline: each file's records up to its first failing embedding, in file order; its properties are `FileResultsShape`, `BatchResultsConcat`, `FailingFileIsolated` and `BatchResultsFromFiles` |
| Embedding.EmbeddingProcessor.ProcessFiles | src/core/embedding-processor.js:72-111 | a load failure is the only error, returned before any file is processed and leaving no pipeline cached, so the next call retries; otherwise the result is `BatchResults` of the files under the loaded pipeline, which stays cached; the library cache follows `loadTransformers` |
| Embedding.EmbeddingProcessor.Cleanup | src/core/embedding-processor.js:173-178 | the cached pipeline is dropped and the library cache is kept |

## Left out

- Lengths are counted in characters. JavaScript counts UTF-16 code units, so a text
  outside the Basic Multilingual Plane is estimated differently.
- `toLowerCase` is modelled on ASCII letters only. Unicode case mapping is not modelled.
- The glob semantics of the `ignore` library are not modelled: negation, `/**`,
  anchoring, and the splitting of an ignore file's text into lines. The matcher is an
  input function over the accumulated rule texts.
- `path.relative` is not modelled: each enumerated candidate carries its relative path.
- `findFiles` (`glob` with `dot: false` and `nodir`) is not modelled: its result, or
  its error, is an input.
- `mime.lookup` is an input table. `formatBytes` is left out: it is floating-point
  and only feeds a log message.
- Console logging, `setupModelCache`, the `env` cache settings and the progress
  callback are left out. They only write logs and directories.
- The dynamic import and the transformers library are inputs. Vector contents are
  opaque: `Array.from(embedding.data)` is the vector the pipeline returned.
- Options that are `NaN` or not numbers are not modelled. `maxTokens`, `overlap` and
  `maxFileSize` are integers.
- `chunkText` cannot throw in the model, because a file's content is always a
  string. A failure inside a file's `try` therefore comes only from an embedding
  call.
- `generateEmbedding` is not a separate member. Its rethrow is part of `Pipeline.embed`
  failing.
- The per-file loop body in `scanFiles` (`Scanner.ScanCandidate`) and the inner chunk
  loop in `processFiles` (`Embedding.EmbedChunks`) are separate methods. Each is
  called from its loop at the place its body stands in the source.
- Concurrency and the interleaving of `await`s are not modelled. Each method runs
  to completion.

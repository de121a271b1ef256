/** The embedding processor (`EmbeddingProcessor` in src/core/embedding-processor.js).
    The transformers library and the model are foreign: the dynamic import is an
    input that yields a library or fails, the library turns a model name into a
    pipeline or fails, and the pipeline turns a text into an opaque vector or
    fails. The vectors are never inspected. */
module Embedding {
  import opened Results
  import opened Chunker
  import Scanner

  const DefaultModel: string := "Xenova/all-MiniLM-L6-v2"
  const DefaultMaxTokens: int := 512
  const DefaultOverlap: int := 50
  const LoadFailure: string := "Failed to load embedding model: "

  /** `Array.from(embedding.data)` */
  type Vector = seq<real>

  /** The feature-extraction pipeline: `pipeline(text, { pooling: 'mean', normalize: true })`. */
  datatype Pipeline = Pipeline(embed: string -> Result<Vector>)

  /** The imported library: `pipeline('feature-extraction', model, options)`. */
  datatype Library = Library(createPipeline: string -> Result<Pipeline>)

  /** The constructor's `options` object; `None` is an absent property. */
  datatype ProcessorOptions = ProcessorOptions(model: Option<string>, maxTokens: Option<int>, overlap: Option<int>)

  /** `value || default` for a string option: absent or empty takes the default. */
  function TextOrDefault(option: Option<string>, default: string): (value: string)
    ensures option.Some? && option.value != [] ==> value == option.value
    ensures option.None? || option.value == [] ==> value == default
  {
    if option.Some? && option.value != [] then option.value else default
  }

  /** `value || default` for a number option: absent or zero takes the default. */
  function NumberOrDefault(option: Option<int>, default: int): (value: int)
    ensures option.Some? && option.value != 0 ==> value == option.value
    ensures option.None? || option.value == 0 ==> value == default
  {
    if option.Some? && option.value != 0 then option.value else default
  }

  datatype ChunkMetadata = ChunkMetadata(
    size: nat,
    extension: string,
    lastModified: string,
    chunkIndex: nat,
    chunkSize: nat)

  /** One element of the result of `processFiles`. */
  datatype EmbeddingRecord = EmbeddingRecord(
    file: string,
    chunk: nat,
    totalChunks: nat,
    text: string,
    embedding: Vector,
    metadata: ChunkMetadata)

  /** What `initializePipeline` gives when no pipeline is cached yet: the cached or
      freshly imported library creates the pipeline for the model, and either
      failure is wrapped in one error. */
  function LoadPipeline(cached: Option<Library>, imported: Result<Library>, model: string): Result<Pipeline> {
    var library := if cached.Some? then Ok(cached.value) else imported;
    match library
    case Err(m) => Err(LoadFailure + m)
    case Ok(lib) =>
      match lib.createPipeline(model)
      case Err(m) => Err(LoadFailure + m)
      case Ok(p) => Ok(p)
  }

  /** A load failure carries the prefix and the message of the failing step: the
      import, or the library's `pipeline(...)` call; a created pipeline is returned. */
  lemma LoadFailureWrapped(cached: Option<Library>, imported: Result<Library>, model: string)
    ensures LoadPipeline(cached, imported, model).Err? ==> LoadFailure <= LoadPipeline(cached, imported, model).message
    ensures cached.None? && imported.Err? ==> LoadPipeline(cached, imported, model) == Err(LoadFailure + imported.message)
    ensures cached.Some? || imported.Ok? ==>
      var lib := if cached.Some? then cached.value else imported.value;
      && (lib.createPipeline(model).Err? ==> LoadPipeline(cached, imported, model) == Err(LoadFailure + lib.createPipeline(model).message))
      && (lib.createPipeline(model).Ok? ==> LoadPipeline(cached, imported, model) == lib.createPipeline(model))
  {
  }

  /** The number of leading chunks whose embedding succeeds. */
  function EmbeddedPrefix(chunks: seq<string>, p: Pipeline): (n: nat)
    ensures n <= |chunks|
    ensures forall j :: 0 <= j < n ==> p.embed(chunks[j]).Ok?
    ensures n < |chunks| ==> p.embed(chunks[n]).Err?
    decreases |chunks|
  {
    if chunks == [] || p.embed(chunks[0]).Err? then 0
    else
      var rest := EmbeddedPrefix(chunks[1..], p);
      assert forall j :: 1 <= j < 1 + rest ==> chunks[j] == chunks[1..][j - 1];
      1 + rest
  }

  /** Within the embedded prefix, a chunk that cannot be embedded is where the
      prefix stops. */
  lemma EmbeddedPrefixStops(chunks: seq<string>, p: Pipeline, j: nat)
    requires j <= EmbeddedPrefix(chunks, p)
    requires j == |chunks| || p.embed(chunks[j]).Err?
    ensures j == EmbeddedPrefix(chunks, p)
  {
  }

  /** The record of chunk `j` of a file whose embedding gave `v`. */
  function ChunkRecord(file: Scanner.FileRecord, chunks: seq<string>, j: nat, v: Vector): EmbeddingRecord
    requires j < |chunks|
  {
    EmbeddingRecord(file.relativePath, j, |chunks|, chunks[j], v,
                    ChunkMetadata(file.size, file.extension, file.lastModified, j, |chunks[j]|))
  }

  /** The records one file adds: one per chunk, up to the first chunk whose
      embedding fails; the records already pushed stay. */
  function FileResults(file: Scanner.FileRecord, p: Pipeline, maxTokens: int, overlap: int): seq<EmbeddingRecord> {
    EmbeddedRecords(file, Chunks(file.content, maxTokens, overlap), p)
  }

  /** The records of the given chunks of a file, up to the first failing embedding. */
  function EmbeddedRecords(file: Scanner.FileRecord, chunks: seq<string>, p: Pipeline): seq<EmbeddingRecord> {
    RecordsUpTo(file, chunks, p, EmbeddedPrefix(chunks, p))
  }

  /** The records of the first `j` chunks, all of which embed. */
  function RecordsUpTo(file: Scanner.FileRecord, chunks: seq<string>, p: Pipeline, j: nat): seq<EmbeddingRecord>
    requires j <= |chunks| && forall k :: 0 <= k < j ==> p.embed(chunks[k]).Ok?
    decreases j
  {
    if j == 0 then []
    else RecordsUpTo(file, chunks, p, j - 1) + [ChunkRecord(file, chunks, j - 1, p.embed(chunks[j - 1]).value)]
  }

  /** Record `k` of the first `j` is the record of chunk `k`. */
  lemma {:induction false} RecordsUpToAt(file: Scanner.FileRecord, chunks: seq<string>, p: Pipeline, j: nat)
    requires j <= |chunks| && forall k :: 0 <= k < j ==> p.embed(chunks[k]).Ok?
    ensures var records := RecordsUpTo(file, chunks, p, j);
      && |records| == j
      && forall k :: 0 <= k < j ==> records[k] == ChunkRecord(file, chunks, k, p.embed(chunks[k]).value)
    decreases j
  {
    if j > 0 {
      RecordsUpToAt(file, chunks, p, j - 1);
    }
  }

  /** The records of a list of files, file after file. */
  function Flatten(files: seq<Scanner.FileRecord>, perFile: Scanner.FileRecord -> seq<EmbeddingRecord>): seq<EmbeddingRecord>
    decreases |files|
  {
    if files == [] then [] else Flatten(files[..|files| - 1], perFile) + perFile(files[|files| - 1])
  }

  /** `FileResults` with the pipeline and the chunking options fixed. */
  function PerFile(p: Pipeline, maxTokens: int, overlap: int): Scanner.FileRecord -> seq<EmbeddingRecord> {
    file => FileResults(file, p, maxTokens, overlap)
  }

  /** What `processFiles` returns once the pipeline is available. */
  function BatchResults(files: seq<Scanner.FileRecord>, p: Pipeline, maxTokens: int, overlap: int): seq<EmbeddingRecord> {
    Flatten(files, PerFile(p, maxTokens, overlap))
  }

  /** The records of a file are numbered from 0 in chunk order, name the file,
      count its chunks and measure their own text; all chunks are present exactly
      when every embedding succeeds. */
  lemma FileResultsShape(file: Scanner.FileRecord, p: Pipeline, maxTokens: int, overlap: int)
    ensures var records, chunks := FileResults(file, p, maxTokens, overlap), Chunks(file.content, maxTokens, overlap);
      && |records| <= |chunks|
      && (|records| == |chunks| <==> forall j :: 0 <= j < |chunks| ==> p.embed(chunks[j]).Ok?)
      && forall j :: 0 <= j < |records| ==>
           && records[j].file == file.relativePath
           && records[j].chunk == j == records[j].metadata.chunkIndex
           && records[j].totalChunks == |chunks|
           && records[j].text == chunks[j]
           && records[j].metadata.chunkSize == |chunks[j]|
           && records[j].metadata.size == file.size
           && records[j].metadata.extension == file.extension
           && records[j].metadata.lastModified == file.lastModified
           && p.embed(chunks[j]) == Ok(records[j].embedding)
  {
    var chunks := Chunks(file.content, maxTokens, overlap);
    RecordsUpToAt(file, chunks, p, EmbeddedPrefix(chunks, p));
  }

  lemma {:induction false} FlattenConcat(a: seq<Scanner.FileRecord>, b: seq<Scanner.FileRecord>, perFile: Scanner.FileRecord -> seq<EmbeddingRecord>)
    ensures Flatten(a + b, perFile) == Flatten(a, perFile) + Flatten(b, perFile)
    decreases |b|
  {
    if b == [] {
      assert a + b == a;
    } else {
      var n := |b| - 1;
      assert (a + b)[..|a| + n] == a + b[..n];
      assert (a + b)[|a| + n] == b[n];
      FlattenConcat(a, b[..n], perFile);
    }
  }

  /** The results of a batch are the results of its parts, in order: a file that
      fails affects no other file. */
  lemma BatchResultsConcat(a: seq<Scanner.FileRecord>, b: seq<Scanner.FileRecord>, p: Pipeline, maxTokens: int, overlap: int)
    ensures BatchResults(a + b, p, maxTokens, overlap)
         == BatchResults(a, p, maxTokens, overlap) + BatchResults(b, p, maxTokens, overlap)
  {
    FlattenConcat(a, b, PerFile(p, maxTokens, overlap));
  }

  /** Adding a file to the batch appends that file's records. */
  lemma BatchResultsSnoc(files: seq<Scanner.FileRecord>, file: Scanner.FileRecord, p: Pipeline, maxTokens: int, overlap: int)
    ensures BatchResults(files + [file], p, maxTokens, overlap)
         == BatchResults(files, p, maxTokens, overlap) + FileResults(file, p, maxTokens, overlap)
  {
    assert (files + [file])[..|files|] == files;
  }

  /** Each pass of the loop over the files adds that file's records. */
  lemma BatchResultsStep(files: seq<Scanner.FileRecord>, i: nat, p: Pipeline, maxTokens: int, overlap: int)
    requires i < |files|
    ensures BatchResults(files[..i + 1], p, maxTokens, overlap)
         == BatchResults(files[..i], p, maxTokens, overlap) + FileResults(files[i], p, maxTokens, overlap)
  {
    assert files[..i + 1] == files[..i] + [files[i]];
    BatchResultsSnoc(files[..i], files[i], p, maxTokens, overlap);
  }

  /** A file whose first chunk cannot be embedded adds nothing, and the files
      around it give what they give alone. */
  lemma FailingFileIsolated(a: seq<Scanner.FileRecord>, file: Scanner.FileRecord, b: seq<Scanner.FileRecord>,
                            p: Pipeline, maxTokens: int, overlap: int)
    requires p.embed(Chunks(file.content, maxTokens, overlap)[0]).Err?
    ensures BatchResults(a + [file] + b, p, maxTokens, overlap)
         == BatchResults(a, p, maxTokens, overlap) + BatchResults(b, p, maxTokens, overlap)
  {
    ChunksShape(file.content, maxTokens, overlap);
    assert FileResults(file, p, maxTokens, overlap) == [];
    assert [file][..0] == [];
    BatchResultsConcat(a, [file], p, maxTokens, overlap);
    BatchResultsConcat(a + [file], b, p, maxTokens, overlap);
  }

  /** Each record comes from a file of the batch and is one of that file's records
      (their order is `BatchResultsConcat`). */
  lemma {:induction false} BatchResultsFromFiles(files: seq<Scanner.FileRecord>, p: Pipeline, maxTokens: int, overlap: int)
    ensures forall r :: r in BatchResults(files, p, maxTokens, overlap) ==>
      exists i :: 0 <= i < |files| && r.file == files[i].relativePath && r in FileResults(files[i], p, maxTokens, overlap)
    decreases |files|
  {
    if files != [] {
      var n := |files| - 1;
      BatchResultsFromFiles(files[..n], p, maxTokens, overlap);
      assert files[..n] + [files[n]] == files;
      BatchResultsSnoc(files[..n], files[n], p, maxTokens, overlap);
      forall r | r in BatchResults(files, p, maxTokens, overlap)
        ensures exists i :: 0 <= i < |files| && r.file == files[i].relativePath && r in FileResults(files[i], p, maxTokens, overlap)
      {
        if r in BatchResults(files[..n], p, maxTokens, overlap) {
          var i :| 0 <= i < n && r.file == files[..n][i].relativePath && r in FileResults(files[..n][i], p, maxTokens, overlap);
          assert files[..n][i] == files[i];
        } else {
          var recs := FileResults(files[n], p, maxTokens, overlap);
          var k :| 0 <= k < |recs| && recs[k] == r;
          FileResultsShape(files[n], p, maxTokens, overlap);
        }
      }
    }
  }

  /** The inner loop of `processFiles`: embed the chunks of one file in order and
      push a record for each, leaving the loop at the first embedding that fails. */
  method EmbedChunks(file: Scanner.FileRecord, chunks: seq<string>, p: Pipeline) returns (records: seq<EmbeddingRecord>)
    ensures records == EmbeddedRecords(file, chunks, p)
  {
    ghost var n := EmbeddedPrefix(chunks, p);
    records := [];
    for j := 0 to |chunks|
      invariant j <= n
      invariant records == RecordsUpTo(file, chunks, p, j)
    {
      var embedding := p.embed(chunks[j]);
      if embedding.Err? {
        EmbeddedPrefixStops(chunks, p, j);
        break;
      }
      records := records + [ChunkRecord(file, chunks, j, embedding.value)];
    }
  }

  class EmbeddingProcessor {
    const model: string
    const maxTokens: int
    const overlap: int
    var pipeline: Option<Pipeline>
    var transformers: Option<Library>

    /** Absent or falsy options take the defaults. */
    constructor(options: ProcessorOptions)
      ensures model == TextOrDefault(options.model, DefaultModel)
      ensures maxTokens == NumberOrDefault(options.maxTokens, DefaultMaxTokens)
      ensures overlap == NumberOrDefault(options.overlap, DefaultOverlap)
      ensures pipeline == None && transformers == None
    {
      model := TextOrDefault(options.model, DefaultModel);
      maxTokens := NumberOrDefault(options.maxTokens, DefaultMaxTokens);
      overlap := NumberOrDefault(options.overlap, DefaultOverlap);
      pipeline := None;
      transformers := None;
    }

    /** `loadTransformers()`: import the library once and keep it; a failed import
      leaves nothing cached. */
    method LoadTransformers(imported: Result<Library>) returns (r: Result<Library>)
      modifies this
      ensures old(transformers).Some? ==> r == Ok(old(transformers).value) && transformers == old(transformers)
      ensures old(transformers).None? ==> r == imported && transformers == imported.ToOption()
      ensures pipeline == old(pipeline)
    {
      if transformers.None? {
        match imported {
          case Err(m) => return Err(m);
          case Ok(lib) => transformers := Some(lib);
        }
      }
      r := Ok(transformers.value);
    }

    /** `initializePipeline()`: a cached pipeline is returned as it is; otherwise the
      pipeline is created and cached, or the failure is wrapped and no pipeline is
      cached. The library stays cached once imported, even when creating the
      pipeline then fails. */
    method InitializePipeline(imported: Result<Library>) returns (r: Result<Pipeline>)
      modifies this
      ensures old(pipeline).Some? ==> r == Ok(old(pipeline).value) && pipeline == old(pipeline) && transformers == old(transformers)
      ensures old(pipeline).None? ==> r == LoadPipeline(old(transformers), imported, model) && pipeline == r.ToOption()
      ensures old(transformers).Some? ==> transformers == old(transformers)
      ensures old(pipeline).None? && old(transformers).None? ==> transformers == imported.ToOption()
    {
      if pipeline.Some? {
        return Ok(pipeline.value);
      }
      var library := LoadTransformers(imported);
      if library.Err? {
        return Err(LoadFailure + library.message);
      }
      var created := library.value.createPipeline(model);
      if created.Err? {
        return Err(LoadFailure + created.message);
      }
      pipeline := Some(created.value);
      r := Ok(created.value);
    }

    /** `processFiles(files)`: a load failure is the one error, raised before any
      file; otherwise the records of every file in order, each file stopping at
      its first failing embedding without affecting the others. */
    method ProcessFiles(files: seq<Scanner.FileRecord>, imported: Result<Library>) returns (r: Result<seq<EmbeddingRecord>>)
      modifies this
      ensures var loaded := if old(pipeline).Some? then Ok(old(pipeline).value) else LoadPipeline(old(transformers), imported, model);
        && (loaded.Err? ==> r == Err(loaded.message) && pipeline == None)
        && (loaded.Ok? ==> r == Ok(BatchResults(files, loaded.value, maxTokens, overlap)) && pipeline == Some(loaded.value))
      ensures old(pipeline).Some? || old(transformers).Some? ==> transformers == old(transformers)
      ensures old(pipeline).None? && old(transformers).None? ==> transformers == imported.ToOption()
    {
      var loaded := InitializePipeline(imported);
      if loaded.Err? {
        return Err(loaded.message);
      }
      var p := loaded.value;
      var library := transformers;
      var results := [];
      for i := 0 to |files|
        invariant results == BatchResults(files[..i], p, maxTokens, overlap)
        invariant pipeline == Some(p) && transformers == library
      {
        BatchResultsStep(files, i, p, maxTokens, overlap);
        var file := files[i];
        var chunks := ChunkText(file.content, maxTokens, overlap);
        var records := EmbedChunks(file, chunks, p);
        results := results + records;
      }
      assert files[..|files|] == files;
      r := Ok(results);
    }

    /** `cleanup()`: drop the cached pipeline. */
    method Cleanup()
      modifies this
      ensures pipeline == None && transformers == old(transformers)
    {
      pipeline := None;
    }
  }
}

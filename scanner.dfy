/** The workspace scanner (`WorkspaceScanner` in src/core/workspace-scanner.js).
    The file system is an input: the enumeration of candidate paths, a map from
    each path to the outcome of `fs.stat` and `fs.readFile`, and the two ignore
    files. The `ignore` library's matcher is a function over the accumulated rule
    texts and a relative path; `mime.lookup` is a function from extension to an
    optional type. */
module Scanner {
  import opened Results
  import opened JsText

  const DefaultExcludePatterns: seq<string> :=
    ["node_modules/**", ".git/**", "dist/**", "build/**", "*.log", ".DS_Store", "Thumbs.db"]

  const DefaultIncludeExtensions: seq<string> :=
    [".js", ".ts", ".jsx", ".tsx",
     ".py", ".java", ".c", ".cpp", ".h",
     ".md", ".txt", ".json", ".yaml", ".yml",
     ".html", ".css", ".scss", ".sass",
     ".go", ".rs", ".php", ".rb", ".swift"]

  /** One mebibyte. */
  const DefaultMaxFileSize: int := 1024 * 1024

  const ScanFailure: string := "Failed to scan workspace: "

  /** The constructor's `settings` object; `None` is an absent property. */
  datatype ScannerSettings = ScannerSettings(
    excludePatterns: Option<seq<string>>,
    includeExtensions: Option<seq<string>>,
    maxFileSize: Option<int>)

  /** `settings.maxFileSize || 1024 * 1024`: an absent or zero size takes the default. */
  function MaxFileSizeOrDefault(setting: Option<int>): (size: int)
    ensures size != 0
    ensures setting.Some? && setting.value != 0 ==> size == setting.value
    ensures size == DefaultMaxFileSize <==> setting.None? || setting.value in {0, DefaultMaxFileSize}
  {
    if setting.Some? && setting.value != 0 then setting.value else DefaultMaxFileSize
  }

  /** `list || default` for an array setting: any array, even an empty one, is kept. */
  function ListOrDefault(setting: Option<seq<string>>, default: seq<string>): (list: seq<string>)
    ensures setting.Some? ==> list == setting.value
    ensures setting.None? ==> list == default
  {
    if setting.Some? then setting.value else default
  }

  /** What `fs.pathExists` and `fs.readFile` give for `.gitignore` or `.contextignore`. */
  datatype IgnoreFile = Absent | Present(content: string) | Unreadable(message: string)

  /** The part of `fs.Stats` the scanner uses; `modified` is `stats.mtime.toISOString()`,
      which throws for an invalid date. */
  datatype Stats = Stats(size: nat, isFile: bool, modified: Result<string>)

  /** The outcomes of `fs.stat` and `fs.readFile(path, 'utf8')` on one path. */
  datatype Entry = Entry(stat: Result<Stats>, read: Result<string>)

  /** An enumerated file: the absolute path from the glob and its `path.relative` form. */
  datatype Candidate = Candidate(path: string, relativePath: string)

  /** The workspace as the scanner sees it; a path missing from `entries` is one
      whose `fs.stat` throws. */
  datatype Workspace = Workspace(
    gitignore: IgnoreFile,
    contextignore: IgnoreFile,
    listing: Result<seq<Candidate>>,
    entries: map<string, Entry>)

  /** A record of `filteredFiles`. */
  datatype FileRecord = FileRecord(
    path: string,
    relativePath: string,
    content: string,
    size: nat,
    extension: string,
    lastModified: string,
    mimeType: string)

  /** `ig.ignores(relativePath)` over the rule texts added so far; it may throw. */
  type Matcher = (seq<string>, string) -> Result<bool>

  /** `mime.lookup(ext)`: a type, or `false` for an unknown extension. */
  type MimeTable = string -> Option<string>

  /** `isBinaryContent`: the text contains a NUL character. */
  predicate IsBinaryContent(content: string): (binary: bool)
    ensures binary <==> exists i :: 0 <= i < |content| && content[i] == '\0'
  {
    '\0' in content
  }

  /** `mime.lookup(ext) || 'text/plain'` */
  function MimeType(lookup: MimeTable, ext: string): (mime: string)
    ensures mime != []
    ensures lookup(ext).Some? && lookup(ext).value != [] ==> mime == lookup(ext).value
    ensures lookup(ext).None? || lookup(ext).value == [] ==> mime == "text/plain"
  {
    match lookup(ext)
    case Some(t) => if t != [] then t else "text/plain"
    case None => "text/plain"
  }

  /** The path with trailing `/` removed. */
  function StripTrailingSlashes(p: string): string {
    if p != [] && p[|p| - 1] == '/' then StripTrailingSlashes(p[..|p| - 1]) else p
  }

  /** What follows the last `/`. */
  function AfterLastSlash(p: string): string {
    if p == [] || p[|p| - 1] == '/' then [] else AfterLastSlash(p[..|p| - 1]) + [p[|p| - 1]]
  }

  /** The last path segment, as `path.basename` finds it. */
  function Basename(p: string): string {
    AfterLastSlash(StripTrailingSlashes(p))
  }

  /** Index of the last `c`, or -1. */
  function LastIndexOf(s: string, c: char): (i: int)
    ensures -1 <= i < |s|
    ensures i >= 0 ==> s[i] == c
    ensures forall k :: i < k < |s| ==> s[k] != c
  {
    if s == [] then -1
    else if s[|s| - 1] == c then |s| - 1
    else LastIndexOf(s[..|s| - 1], c)
  }

  /** `path.extname` (POSIX): from the last `.` of the last segment to its end;
      empty when the segment has no `.`, begins with its only `.`, or is `..`. */
  function Extname(p: string): string {
    var base := Basename(p);
    var dot := LastIndexOf(base, '.');
    if dot <= 0 || base == ".." then "" else base[dot..]
  }

  /** The last segment holds no `/`. */
  lemma {:induction false} AfterLastSlashFree(p: string)
    ensures '/' !in AfterLastSlash(p)
    ensures |AfterLastSlash(p)| <= |p|
    ensures AfterLastSlash(p) == p[|p| - |AfterLastSlash(p)|..]
  {
    if p != [] && p[|p| - 1] != '/' {
      var q := p[..|p| - 1];
      AfterLastSlashFree(q);
      assert p[|p| - |AfterLastSlash(p)|..] == q[|q| - |AfterLastSlash(q)|..] + [p[|p| - 1]];
    }
  }

  /** An extension is empty or a `.` followed by text without `.` or `/`, and it
      ends the last segment, after at least one other character. */
  lemma ExtnameShape(p: string)
    ensures var ext, base := Extname(p), Basename(p);
      ext == [] || (
        && ext[0] == '.'
        && '.' !in ext[1..]
        && '/' !in ext
        && |ext| < |base|
        && base[|base| - |ext|..] == ext)
  {
    var base := Basename(p);
    var ext := Extname(p);
    AfterLastSlashFree(StripTrailingSlashes(p));
    if ext != [] {
      var dot := LastIndexOf(base, '.');
      assert ext == base[dot..];
      forall k | 0 <= k < |ext| ensures ext[k] != '/' {
        assert ext[k] == base[dot + k];
      }
      forall k | 1 <= k < |ext| ensures ext[k] != '.' {
        assert ext[k] == base[dot + k];
      }
    }
  }

  /** A name without `.`, or whose only `.` is its first character, has no extension. */
  lemma ExtnameOfDotfile(p: string)
    requires var base := Basename(p); forall k :: 0 < k < |base| ==> base[k] != '.'
    ensures Extname(p) == ""
  {
  }

  /** The converse: a last segment `name.suffix` with a non-empty `name` and no
      `.` in `suffix` has the extension `.suffix` (except the segment `..`). */
  lemma ExtnameOfSuffix(p: string, name: string, suffix: string)
    requires Basename(p) == name + "." + suffix
    requires name != [] && '.' !in suffix && Basename(p) != ".."
    ensures Extname(p) == "." + suffix
  {
    var base := Basename(p);
    var dot := LastIndexOf(base, '.');
    assert base[|name|] == '.';
    forall k | |name| < k < |base| ensures base[k] != '.' {
      assert base[k] == suffix[k - |name| - 1];
    }
    assert dot == |name|;
    assert base[dot..] == "." + suffix;
  }

  /** The ignore rule set: the exclude patterns, then `.gitignore`, then
      `.contextignore`; an unreadable file is the error of the scan. */
  function RuleSet(ws: Workspace, excludePatterns: seq<string>): Result<seq<string>> {
    match ws.gitignore
    case Unreadable(m) => Err(m)
    case _ =>
      var afterGit := if ws.gitignore.Present? then excludePatterns + [ws.gitignore.content] else excludePatterns;
      match ws.contextignore
      case Unreadable(m) => Err(m)
      case Present(c) => Ok(afterGit + [c])
      case Absent => Ok(afterGit)
  }

  /** The exclude patterns come first, the `.gitignore` text next and the
      `.contextignore` text last; an absent file adds nothing. */
  lemma RuleSetOrder(ws: Workspace, excludePatterns: seq<string>)
    ensures RuleSet(ws, excludePatterns).Err? <==> ws.gitignore.Unreadable? || ws.contextignore.Unreadable?
    ensures RuleSet(ws, excludePatterns).Ok? ==>
      var rules, n := RuleSet(ws, excludePatterns).value, |excludePatterns|;
      && |rules| == n + (if ws.gitignore.Present? then 1 else 0) + (if ws.contextignore.Present? then 1 else 0)
      && rules[..n] == excludePatterns
      && (ws.gitignore.Present? ==> rules[n] == ws.gitignore.content)
      && (ws.contextignore.Present? ==> rules[|rules| - 1] == ws.contextignore.content)
  {
  }

  /** The settings of the filter in `scanFiles`. */
  datatype Filter = Filter(
    rules: seq<string>,
    includeExtensions: seq<string>,
    maxFileSize: int,
    ignores: Matcher,
    mimeLookup: MimeTable)

  /** The body of the loop in `scanFiles` for one candidate: an error when the
      matcher throws (it is outside the per-file `try`), no record when a check
      fails or a file operation throws, and otherwise the record. */
  function Decide(c: Candidate, f: Filter, entries: map<string, Entry>): Result<Option<FileRecord>> {
    match f.ignores(f.rules, c.relativePath)
    case Err(m) => Err(m)
    case Ok(ignored) =>
      var ext := ToLowerAscii(Extname(c.path));
      if ignored || ext !in f.includeExtensions || c.path !in entries then Ok(None)
      else
        var e := entries[c.path];
        if e.stat.Err? then Ok(None)
        else
          var st := e.stat.value;
          if st.size > f.maxFileSize || !st.isFile || e.read.Err? then Ok(None)
          else if IsBinaryContent(e.read.value) || st.modified.Err? then Ok(None)
          else Ok(Some(FileRecord(c.path, c.relativePath, e.read.value, st.size, ext,
                                  st.modified.value, MimeType(f.mimeLookup, ext))))
  }

  /** The outcome of the loop body for each candidate. */
  function Decisions(cands: seq<Candidate>, f: Filter, entries: map<string, Entry>): (ds: seq<Result<Option<FileRecord>>>)
    ensures |ds| == |cands|
    decreases |cands|
  {
    if cands == [] then []
    else
      var n := |cands| - 1;
      Decisions(cands[..n], f, entries) + [Decide(cands[n], f, entries)]
  }

  lemma {:induction false} DecisionsAt(cands: seq<Candidate>, f: Filter, entries: map<string, Entry>, i: nat)
    requires i < |cands|
    ensures Decisions(cands, f, entries)[i] == Decide(cands[i], f, entries)
    decreases |cands|
  {
    var n := |cands| - 1;
    var before := Decisions(cands[..n], f, entries);
    assert Decisions(cands, f, entries) == before + [Decide(cands[n], f, entries)];
    if i < n {
      assert cands[..n][i] == cands[i];
      DecisionsAt(cands[..n], f, entries, i);
    }
  }

  lemma {:induction false} DecisionsConcat(a: seq<Candidate>, b: seq<Candidate>, f: Filter, entries: map<string, Entry>)
    ensures Decisions(a + b, f, entries) == Decisions(a, f, entries) + Decisions(b, f, entries)
    decreases |b|
  {
    if b == [] {
      assert a + b == a;
    } else {
      var n := |b| - 1;
      assert (a + b)[..|a| + n] == a + b[..n];
      assert (a + b)[|a| + n] == b[n];
      DecisionsConcat(a, b[..n], f, entries);
    }
  }

  /** The records pushed by a run of loop bodies, or the first error. */
  function Gather(ds: seq<Result<Option<FileRecord>>>): Result<seq<FileRecord>>
    decreases |ds|
  {
    if ds == [] then Ok([])
    else
      var n := |ds| - 1;
      match Gather(ds[..n])
      case Err(m) => Err(m)
      case Ok(records) =>
        match ds[n]
        case Err(m) => Err(m)
        case Ok(None) => Ok(records)
        case Ok(Some(r)) => Ok(records + [r])
  }

  /** The records of the filter loop over the candidates, or the first matcher error. */
  function Collect(cands: seq<Candidate>, f: Filter, entries: map<string, Entry>): Result<seq<FileRecord>> {
    Gather(Decisions(cands, f, entries))
  }

  /** What `scanFiles` returns: every failure outside the per-file `try` becomes
      one error with the scan prefix. */
  function Scan(ws: Workspace, excludePatterns: seq<string>, includeExtensions: seq<string>,
                maxFileSize: int, ignores: Matcher, mimeLookup: MimeTable): Result<seq<FileRecord>>
  {
    match RuleSet(ws, excludePatterns)
    case Err(m) => Err(ScanFailure + m)
    case Ok(rules) =>
      match ws.listing
      case Err(m) => Err(ScanFailure + m)
      case Ok(cands) =>
        match Collect(cands, Filter(rules, includeExtensions, maxFileSize, ignores, mimeLookup), ws.entries)
        case Err(m) => Err(ScanFailure + m)
        case Ok(records) => Ok(records)
  }

  /** Everything a candidate must pass to be emitted, and the record it becomes. */
  ghost predicate Admitted(r: FileRecord, c: Candidate, f: Filter, entries: map<string, Entry>) {
    && f.ignores(f.rules, c.relativePath) == Ok(false)
    && r.path == c.path && r.relativePath == c.relativePath
    && r.extension == ToLowerAscii(Extname(c.path))
    && r.extension in f.includeExtensions
    && c.path in entries
    && entries[c.path].stat.Ok?
    && entries[c.path].stat.value.size == r.size <= f.maxFileSize
    && entries[c.path].stat.value.isFile
    && entries[c.path].read == Ok(r.content)
    && !IsBinaryContent(r.content)
    && entries[c.path].stat.value.modified == Ok(r.lastModified)
    && r.mimeType == MimeType(f.mimeLookup, r.extension)
  }

  /** A candidate yields a record exactly when it passes every check. */
  lemma DecideSpec(c: Candidate, f: Filter, entries: map<string, Entry>)
    ensures Decide(c, f, entries).Err? <==> f.ignores(f.rules, c.relativePath).Err?
    ensures forall r :: Decide(c, f, entries) == Ok(Some(r)) <==> Admitted(r, c, f, entries)
  {
  }

  /** The size check comes before the read: an over-size file is skipped whatever
      reading it would give, and a file of exactly the limit is not skipped for its size. */
  lemma SizeCheckedBeforeRead(c: Candidate, f: Filter, entries: map<string, Entry>, read: Result<string>)
    requires c.path in entries && entries[c.path].stat.Ok?
    requires entries[c.path].stat.value.size > f.maxFileSize
    ensures Decide(c, f, entries) == Decide(c, f, entries[c.path := entries[c.path].(read := read)])
    ensures Decide(c, f, entries).Ok? ==> Decide(c, f, entries) == Ok(None)
  {
  }

  /** Exactly `maxFileSize` bytes passes and one byte more does not. */
  lemma SizeBoundary(c: Candidate, f: Filter, entries: map<string, Entry>, content: string, st: Stats)
    requires f.maxFileSize >= 0 && f.ignores(f.rules, c.relativePath) == Ok(false)
    requires ToLowerAscii(Extname(c.path)) in f.includeExtensions
    requires st.isFile && st.modified.Ok? && !IsBinaryContent(content)
    ensures var atLimit := entries[c.path := Entry(Ok(st.(size := f.maxFileSize)), Ok(content))];
      Decide(c, f, atLimit).Ok? && Decide(c, f, atLimit).value.Some?
    ensures var over := entries[c.path := Entry(Ok(st.(size := f.maxFileSize + 1)), Ok(content))];
      Decide(c, f, over) == Ok(None)
  {
  }

  lemma {:induction false} GatherConcat(a: seq<Result<Option<FileRecord>>>, b: seq<Result<Option<FileRecord>>>)
    requires Gather(a).Ok? && Gather(b).Ok?
    ensures Gather(a + b) == Ok(Gather(a).value + Gather(b).value)
    decreases |b|
  {
    if b == [] {
      assert a + b == a;
      assert Gather(a).value + [] == Gather(a).value;
    } else {
      var n := |b| - 1;
      assert (a + b)[..|a| + n] == a + b[..n];
      assert (a + b)[|a| + n] == b[n];
      assert Gather(b[..n]).Ok?;
      GatherConcat(a, b[..n]);
      var front, back := Gather(a).value, Gather(b[..n]).value;
      assert Gather(a + b[..n]) == Ok(front + back);
      match b[n]
      case Ok(Some(r)) =>
        assert Gather(b) == Ok(back + [r]);
        assert front + back + [r] == front + (back + [r]);
      case Ok(None) =>
      case Err(_) =>
    }
  }

  /** The loop over a concatenation is the loop over each part, in order. */
  lemma CollectConcat(a: seq<Candidate>, b: seq<Candidate>, f: Filter, entries: map<string, Entry>)
    requires Collect(a, f, entries).Ok? && Collect(b, f, entries).Ok?
    ensures Collect(a + b, f, entries) == Ok(Collect(a, f, entries).value + Collect(b, f, entries).value)
  {
    DecisionsConcat(a, b, f, entries);
    GatherConcat(Decisions(a, f, entries), Decisions(b, f, entries));
  }

  lemma DecideFileError(c: Candidate, f: Filter, entries: map<string, Entry>)
    requires f.ignores(f.rules, c.relativePath).Ok?
    requires c.path !in entries || entries[c.path].stat.Err? || entries[c.path].read.Err?
    ensures Decide(c, f, entries) == Ok(None)
  {
  }

  /** A file whose `fs.stat` or read throws contributes nothing, and the files
      around it are scanned as if it were not there. */
  lemma FileErrorSkipsOnlyThatFile(a: seq<Candidate>, c: Candidate, b: seq<Candidate>, f: Filter, entries: map<string, Entry>)
    requires f.ignores(f.rules, c.relativePath).Ok?
    requires c.path !in entries || entries[c.path].stat.Err? || entries[c.path].read.Err?
    requires Collect(a, f, entries).Ok? && Collect(b, f, entries).Ok?
    ensures Collect(a + [c] + b, f, entries) == Ok(Collect(a, f, entries).value + Collect(b, f, entries).value)
  {
    DecideFileError(c, f, entries);
    assert [c][..0] == [];
    var ds := Decisions([c], f, entries);
    assert ds == [Ok(None)];
    assert ds[..0] == [];
    assert Gather(ds) == Ok([]);
    CollectConcat(a, [c], f, entries);
    assert Collect(a + [c], f, entries) == Collect(a, f, entries);
    CollectConcat(a + [c], b, f, entries);
  }

  lemma {:induction false} GatherErrors(ds: seq<Result<Option<FileRecord>>>)
    ensures Gather(ds).Err? <==> exists i :: 0 <= i < |ds| && ds[i].Err?
    decreases |ds|
  {
    if ds != [] {
      var n := |ds| - 1;
      GatherErrors(ds[..n]);
      if exists i :: 0 <= i < |ds| && ds[i].Err? {
        var i :| 0 <= i < |ds| && ds[i].Err?;
        if i < n {
          assert ds[..n][i] == ds[i];
        }
      }
    }
  }

  /** The loop fails exactly when the matcher throws on some candidate. */
  lemma CollectErrors(cands: seq<Candidate>, f: Filter, entries: map<string, Entry>)
    ensures Collect(cands, f, entries).Err? <==>
      exists i :: 0 <= i < |cands| && f.ignores(f.rules, cands[i].relativePath).Err?
  {
    var ds := Decisions(cands, f, entries);
    GatherErrors(ds);
    forall i | 0 <= i < |cands| ensures ds[i].Err? <==> f.ignores(f.rules, cands[i].relativePath).Err? {
      DecisionsAt(cands, f, entries, i);
      DecideSpec(cands[i], f, entries);
    }
  }

  lemma {:induction false} GatherSound(ds: seq<Result<Option<FileRecord>>>) returns (index: seq<nat>)
    requires Gather(ds).Ok?
    ensures var records := Gather(ds).value;
      && |index| == |records|
      && (forall k :: 0 <= k < |index| ==> index[k] < |ds| && ds[index[k]] == Ok(Some(records[k])))
      && (forall k, l :: 0 <= k < l < |index| ==> index[k] < index[l])
    decreases |ds|
  {
    if ds == [] {
      index := [];
    } else {
      var n := |ds| - 1;
      index := GatherSound(ds[..n]);
      forall k | 0 <= k < |index| ensures ds[..n][index[k]] == ds[index[k]] { }
      if ds[n].value.Some? {
        index := index + [n];
      }
    }
  }

  /** Every emitted record is admitted from an enumerated candidate, and the
      records keep the enumeration order: `index` maps each record to its candidate. */
  lemma CollectSound(cands: seq<Candidate>, f: Filter, entries: map<string, Entry>) returns (index: seq<nat>)
    requires Collect(cands, f, entries).Ok?
    ensures var records := Collect(cands, f, entries).value;
      && |index| == |records|
      && (forall k :: 0 <= k < |index| ==> index[k] < |cands| && Admitted(records[k], cands[index[k]], f, entries))
      && (forall k, l :: 0 <= k < l < |index| ==> index[k] < index[l])
  {
    var ds := Decisions(cands, f, entries);
    index := GatherSound(ds);
    var records := Gather(ds).value;
    forall k | 0 <= k < |index| ensures Admitted(records[k], cands[index[k]], f, entries) {
      DecisionsAt(cands, f, entries, index[k]);
      DecideSpec(cands[index[k]], f, entries);
    }
  }

  lemma {:induction false} GatherComplete(ds: seq<Result<Option<FileRecord>>>, i: nat, r: FileRecord)
    requires Gather(ds).Ok? && i < |ds| && ds[i] == Ok(Some(r))
    ensures r in Gather(ds).value
    decreases |ds|
  {
    var n := |ds| - 1;
    if i < n {
      assert ds[..n][i] == ds[i];
      GatherComplete(ds[..n], i, r);
    }
  }

  /** Every candidate that passes every check is emitted. */
  lemma CollectComplete(cands: seq<Candidate>, f: Filter, entries: map<string, Entry>, i: nat, r: FileRecord)
    requires Collect(cands, f, entries).Ok?
    requires i < |cands| && Admitted(r, cands[i], f, entries)
    ensures r in Collect(cands, f, entries).value
  {
    DecideSpec(cands[i], f, entries);
    DecisionsAt(cands, f, entries, i);
    GatherComplete(Decisions(cands, f, entries), i, r);
  }

  /** A scan fails exactly when an ignore file is unreadable, the enumeration
      fails, or the matcher throws, and its message then carries the scan prefix. */
  lemma ScanErrors(ws: Workspace, excludePatterns: seq<string>, includeExtensions: seq<string>,
                   maxFileSize: int, ignores: Matcher, mimeLookup: MimeTable)
    ensures var r := Scan(ws, excludePatterns, includeExtensions, maxFileSize, ignores, mimeLookup);
      && (r.Err? ==> ScanFailure <= r.message)
      && (r.Err? <==>
            || RuleSet(ws, excludePatterns).Err?
            || ws.listing.Err?
            || exists i :: 0 <= i < |ws.listing.value| &&
                 ignores(RuleSet(ws, excludePatterns).value, ws.listing.value[i].relativePath).Err?)
  {
    var rules := RuleSet(ws, excludePatterns);
    if rules.Ok? && ws.listing.Ok? {
      CollectErrors(ws.listing.value, Filter(rules.value, includeExtensions, maxFileSize, ignores, mimeLookup), ws.entries);
    }
  }

  /** The `ignore()` instance: the rule texts added to it, in order. */
  class IgnoreMatcher {
    var rules: seq<string>

    constructor()
      ensures rules == []
    {
      rules := [];
    }

    /** `ig.add(patterns)` */
    method Add(patterns: seq<string>)
      modifies this
      ensures rules == old(rules) + patterns
    {
      rules := rules + patterns;
    }
  }

  /** The body of the loop in `scanFiles` for one candidate, checks in source
      order: the matcher (whose failure ends the scan), the extension, then the
      file operations inside the per-file `try`, where a failure skips the file. */
  method ScanCandidate(c: Candidate, f: Filter, entries: map<string, Entry>) returns (d: Result<Option<FileRecord>>)
    ensures d == Decide(c, f, entries)
  {
    var ignored := f.ignores(f.rules, c.relativePath);
    if ignored.Err? {
      return Err(ignored.message);
    }
    if ignored.value {
      return Ok(None);
    }
    var ext := ToLowerAscii(Extname(c.path));
    if ext !in f.includeExtensions {
      return Ok(None);
    }
    if c.path !in entries {
      return Ok(None);
    }
    var entry := entries[c.path];
    if entry.stat.Err? {
      return Ok(None);
    }
    var stats := entry.stat.value;
    if stats.size > f.maxFileSize {
      return Ok(None);
    }
    if !stats.isFile {
      return Ok(None);
    }
    if entry.read.Err? {
      return Ok(None);
    }
    var content := entry.read.value;
    if IsBinaryContent(content) {
      return Ok(None);
    }
    if stats.modified.Err? {
      return Ok(None);
    }
    return Ok(Some(FileRecord(c.path, c.relativePath, content, stats.size, ext,
                              stats.modified.value, MimeType(f.mimeLookup, ext))));
  }

  class WorkspaceScanner {
    const workspacePath: string
    const settings: ScannerSettings
    const excludePatterns: seq<string>
    const includeExtensions: seq<string>
    const maxFileSize: int

    /** Missing settings take the defaults; a zero `maxFileSize` does too. */
    constructor(workspacePath: string, settings: ScannerSettings)
      ensures this.workspacePath == workspacePath && this.settings == settings
      ensures excludePatterns == ListOrDefault(settings.excludePatterns, DefaultExcludePatterns)
      ensures includeExtensions == ListOrDefault(settings.includeExtensions, DefaultIncludeExtensions)
      ensures maxFileSize == MaxFileSizeOrDefault(settings.maxFileSize)
    {
      this.workspacePath := workspacePath;
      this.settings := settings;
      excludePatterns := ListOrDefault(settings.excludePatterns, DefaultExcludePatterns);
      includeExtensions := ListOrDefault(settings.includeExtensions, DefaultIncludeExtensions);
      maxFileSize := MaxFileSizeOrDefault(settings.maxFileSize);
    }

    /** `scanFiles()`: build the rule set, enumerate, and filter. */
    method ScanFiles(ws: Workspace, ignores: Matcher, mimeLookup: MimeTable) returns (r: Result<seq<FileRecord>>)
      ensures r == Scan(ws, excludePatterns, includeExtensions, maxFileSize, ignores, mimeLookup)
    {
      var ig := new IgnoreMatcher();
      ig.Add(excludePatterns);
      match ws.gitignore {
        case Unreadable(m) => return Err(ScanFailure + m);
        case Present(content) => ig.Add([content]);
        case Absent =>
      }
      assert ig.rules == if ws.gitignore.Present? then excludePatterns + [ws.gitignore.content] else excludePatterns;
      match ws.contextignore {
        case Unreadable(m) => return Err(ScanFailure + m);
        case Present(content) => ig.Add([content]);
        case Absent =>
      }
      assert RuleSet(ws, excludePatterns) == Ok(ig.rules);
      if ws.listing.Err? {
        return Err(ScanFailure + ws.listing.message);
      }
      var allFiles := ws.listing.value;
      var f := Filter(ig.rules, includeExtensions, maxFileSize, ignores, mimeLookup);
      var filteredFiles := [];
      for i := 0 to |allFiles|
        invariant Collect(allFiles[..i], f, ws.entries) == Ok(filteredFiles)
      {
        var c := allFiles[i];
        CollectStep(allFiles, i, f, ws.entries);
        var d := ScanCandidate(c, f, ws.entries);
        match d {
          case Err(m) =>
            CollectErrAt(allFiles, i, f, ws.entries);
            return Err(ScanFailure + m);
          case Ok(None) =>
          case Ok(Some(record)) =>
            filteredFiles := filteredFiles + [record];
        }
      }
      assert allFiles[..|allFiles|] == allFiles;
      return Ok(filteredFiles);
    }
  }

  /** One more candidate adds its own decision after those of the prefix. */
  lemma DecisionsStep(cands: seq<Candidate>, i: nat, f: Filter, entries: map<string, Entry>)
    requires i < |cands|
    ensures Decisions(cands[..i + 1], f, entries) == Decisions(cands[..i], f, entries) + [Decide(cands[i], f, entries)]
  {
    assert cands[..i + 1][..i] == cands[..i];
  }

  /** One more loop body after a successful prefix. */
  lemma GatherSnoc(ds: seq<Result<Option<FileRecord>>>, d: Result<Option<FileRecord>>)
    requires Gather(ds).Ok?
    ensures Gather(ds + [d]) ==
      match d
      case Err(m) => Err(m)
      case Ok(None) => Gather(ds)
      case Ok(Some(r)) => Ok(Gather(ds).value + [r])
  {
    assert (ds + [d])[..|ds|] == ds;
  }

  /** Once the loop bodies fail, later ones do not matter. */
  lemma {:induction false} GatherErrPrefix(x: seq<Result<Option<FileRecord>>>, y: seq<Result<Option<FileRecord>>>)
    requires Gather(x).Err?
    ensures Gather(x + y) == Gather(x)
    decreases |y|
  {
    if y == [] {
      assert x + y == x;
    } else {
      var n := |y| - 1;
      assert (x + y)[..|x| + n] == x + y[..n];
      GatherErrPrefix(x, y[..n]);
    }
  }

  /** The loop stops with the first matcher error. */
  lemma CollectErrAt(cands: seq<Candidate>, i: nat, f: Filter, entries: map<string, Entry>)
    requires i < |cands| && Collect(cands[..i], f, entries).Ok?
    requires f.ignores(f.rules, cands[i].relativePath).Err?
    ensures Collect(cands, f, entries) == Err(f.ignores(f.rules, cands[i].relativePath).message)
  {
    DecisionsStep(cands, i, f, entries);
    GatherSnoc(Decisions(cands[..i], f, entries), Decide(cands[i], f, entries));
    CollectErrPrefix(cands, i + 1, f, entries);
  }

  /** One more candidate after a successful prefix adds its decision. */
  lemma CollectStep(cands: seq<Candidate>, i: nat, f: Filter, entries: map<string, Entry>)
    requires i < |cands| && Collect(cands[..i], f, entries).Ok?
    ensures Collect(cands[..i + 1], f, entries) ==
      match Decide(cands[i], f, entries)
      case Err(m) => Err(m)
      case Ok(None) => Collect(cands[..i], f, entries)
      case Ok(Some(r)) => Ok(Collect(cands[..i], f, entries).value + [r])
  {
    DecisionsStep(cands, i, f, entries);
    GatherSnoc(Decisions(cands[..i], f, entries), Decide(cands[i], f, entries));
  }

  /** A prefix that fails makes the whole scan fail with its error. */
  lemma CollectErrPrefix(cands: seq<Candidate>, k: nat, f: Filter, entries: map<string, Entry>)
    requires k <= |cands| && Collect(cands[..k], f, entries).Err?
    ensures Collect(cands, f, entries) == Collect(cands[..k], f, entries)
  {
    assert cands == cands[..k] + cands[k..];
    DecisionsConcat(cands[..k], cands[k..], f, entries);
    GatherErrPrefix(Decisions(cands[..k], f, entries), Decisions(cands[k..], f, entries));
  }
}

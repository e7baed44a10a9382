/** The orchestration in elodie.py: `import_file`, the decision sequence for
    one file; the batch loop of the `import` command with its
    `has_errors` accumulation; and the duplicate histogram of `analyze`. */
module Importer {
  import opened Common
  import opened Json
  import opened MediaMetadata
  import opened Checksum
  import opened ManifestStore
  import opened Placement
  import FolderPattern

  /** What `import_file` consults besides the manifest: the file system, the
      content digest, the date formatter, the metadata the media class
      extracts for a path (`None` when it extracts none), whether a media
      class accepts the path, the (first) target, and the two flags. */
  datatype ImportEnv = ImportEnv(
    fs: FileStore,
    hash: Hasher,
    fmt: Strftime,
    metadataOf: string -> Option<Metadata>,
    supported: string -> bool,
    target: TargetConfig,
    allowDuplicates: bool,
    dryRun: bool)

  /** The state one import updates: the manifest and the folder-definition
      cache of the shared file-system object. */
  datatype ImportState = ImportState(manifest: Manifest, cache: Option<FolderPattern.Definition>)

  /** How `import_file` ends. `Place` is the call to `execute_manifest`, where
      the decision stops. */
  datatype Decision =
    | NotFound
    | Unsupported
    | Failed(error: Error)
    | DuplicateSkipped
    | DryRun(recorded: bool)
    | Place(entry: Entry)

  /** `manifest.checksum(path)` for a file that exists (`import_file` has
      returned before the call otherwise). */
  function ContentKey(env: ImportEnv, path: string): string
    requires path in env.fs
  {
    FileChecksum(env.fs, path, env.hash).value
  }

  /** `import_file(path, config, manifest, metadata_dict, ...)`. */
  function ImportFile(env: ImportEnv, st: ImportState, path: string): (r: (Decision, ImportState))
    ensures path !in env.fs ==> r == (NotFound, st)
    ensures path in env.fs && !env.supported(path) ==> r == (Unsupported, st)
    ensures r.0.Failed? ==> r.1.manifest == st.manifest
    ensures r.0.Place? ==> !env.dryRun && (env.allowDuplicates || ContentKey(env, path) !in st.manifest.entries)
  {
    if path !in env.fs then (NotFound, st)
    else if !env.supported(path) then (Unsupported, st)
    else
      var checksum := ContentKey(env, path);
      var isDuplicate := checksum in st.manifest.entries;
      var gen := GenerateManifest(st.cache, path, env.target, env.metadataOf(path), env.fmt);
      match gen.entry
      case Failure(e) => (Failed(e), st.(cache := gen.cache))
      case Success(entry) =>
        var merged := ImportState(Merge(st.manifest, map[checksum := EntryJson(entry)]), gen.cache);
        if !env.allowDuplicates && isDuplicate then (DuplicateSkipped, merged)
        else if env.dryRun then (DryRun(true), merged)
        else (Place(entry), merged)
  }

  /** What `import_file` returns, given what the placement call returns. */
  function OutcomeOf(d: Decision, placed: Outcome): (o: Outcome)
    ensures d.NotFound? || d.Unsupported? ==> o == Returned(None)
    ensures d.Failed? ==> o.Raised?
    ensures d.Place? ==> o == placed
    ensures d.DuplicateSkipped? || (d.DryRun? && d.recorded) ==> Truthy(o)
  {
    match d
    case NotFound => Returned(None)
    case Unsupported => Returned(None)
    case Failed(e) => Raised(e)
    case DuplicateSkipped => Returned(Some(true))
    case DryRun(b) => Returned(Some(b))
    case Place(_) => placed
  }

  /** The entry an import records for an existing, supported file, when its
      generation succeeds. */
  function Generate(env: ImportEnv, st: ImportState, path: string): Generated {
    GenerateManifest(st.cache, path, env.target, env.metadataOf(path), env.fmt)
  }

  /** The order of `import_file`: the duplicate test looks at the manifest
      before the merge, the merge happens whether or not the file is a
      duplicate, a skipped duplicate reports success, and a dry run reports
      success without a placement. */
  lemma ImportOrder(env: ImportEnv, st: ImportState, path: string)
    requires path in env.fs && env.supported(path)
    requires Generate(env, st, path).entry.Success?
    ensures var entry := Generate(env, st, path).entry.value;
      var key := ContentKey(env, path);
      var (d, st') := ImportFile(env, st, path);
      && st'.manifest == Merge(st.manifest, map[key := EntryJson(entry)])
      && (d == DuplicateSkipped <==> !env.allowDuplicates && key in st.manifest.entries)
      && (d == DryRun(true) <==> (env.allowDuplicates || key !in st.manifest.entries) && env.dryRun)
      && (d == Place(entry) <==> (env.allowDuplicates || key !in st.manifest.entries) && !env.dryRun)
  {
  }

  /** Importing the same file twice leaves the manifest as the first import
      left it, and without `allow_duplicates` the second import is a
      skipped duplicate. */
  lemma ImportTwice(env: ImportEnv, st: ImportState, path: string)
    requires path in env.fs && env.supported(path)
    requires Generate(env, st, path).entry.Success?
    ensures var st1 := ImportFile(env, st, path).1;
      var (d2, st2) := ImportFile(env, st1, path);
      && st2.manifest == st1.manifest
      && st2.cache == st1.cache
      && (!env.allowDuplicates ==> d2 == DuplicateSkipped)
  {
    var gen1 := Generate(env, st, path);
    var st1 := ImportFile(env, st, path).1;
    var gen2 := Generate(env, st1, path);
    assert gen2 == gen1;
    var key := ContentKey(env, path);
    MergeTwice(st.manifest, map[key := EntryJson(gen1.entry.value)]);
  }

  /** A merge under a checksum the manifest does not hold records the
      entry as it is. */
  lemma MergeFresh(m: Manifest, key: string, entry: Entry)
    requires key !in m.entries
    ensures Merge(m, map[key := EntryJson(entry)]).entries[key] == EntryJson(entry)
  {
    DeepMergeRules(JObj(m.entries), map[key := EntryJson(entry)]);
    MergeIntoEmpty(EntryJson(entry).fields);
  }

  /** Merging the sources of a second entry into those of a first, each
      with one distinct source, keeps both. */
  lemma SourcesUnion(s1: map<string, map<string, Json>>, s2: map<string, map<string, Json>>, p1: string, p2: string)
    requires p1 != p2 && s1.Keys == {p1} && s2.Keys == {p2}
    ensures DeepMerge(JObj(SourcesJson(s1)), SourcesJson(s2))
         == JObj(map[p1 := JObj(s1[p1]), p2 := JObj(s2[p2])])
  {
    var j1 := SourcesJson(s1);
    var j2 := SourcesJson(s2);
    var merged := DeepMerge(JObj(j1), j2).fields;
    MergeAt(j1, j2, p1);
    MergeAt(j1, j2, p2);
    MergeIntoEmpty(s2[p2]);
    assert merged.Keys == {p1, p2};
    assert merged == map[p1 := JObj(s1[p1]), p2 := JObj(s2[p2])];
  }

  /** Merging an entry for a second source into an entry for a first one
      leaves both sources with their records. */
  lemma SecondSource(e1: Entry, e2: Entry, p1: string, p2: string)
    requires p1 != p2 && e1.sources.Keys == {p1} && e2.sources.Keys == {p2}
    ensures var e := DeepMerge(EntryJson(e1), EntryJson(e2).fields);
      && e.JObj? && "sources" in e.fields
      && e.fields["sources"] == JObj(map[p1 := JObj(e1.sources[p1]), p2 := JObj(e2.sources[p2])])
  {
    MergeAt(EntryJson(e1).fields, EntryJson(e2).fields, "sources");
    SourcesUnion(e1.sources, e2.sources, p1, p2);
  }

  /** Two files with the same content, imported one after the other into a
      manifest that does not know that content yet, are both recorded as
      sources of the one entry, each with its own record. */
  lemma SameContentBothRecorded(env: ImportEnv, st: ImportState, p1: string, p2: string)
    requires p1 != p2
    requires p1 in env.fs && p2 in env.fs && env.fs[p1] == env.fs[p2]
    requires env.supported(p1) && env.supported(p2)
    requires ContentKey(env, p1) !in st.manifest.entries
    requires Generate(env, st, p1).entry.Success?
    requires Generate(env, st.(cache := Generate(env, st, p1).cache), p2).entry.Success?
    ensures var st1 := ImportFile(env, st, p1).1;
      var st2 := ImportFile(env, st1, p2).1;
      var key := ContentKey(env, p1);
      && key in st2.manifest.entries
      && var e := st2.manifest.entries[key];
      && e.JObj? && "sources" in e.fields
      && e.fields["sources"]
         == JObj(map[p1 := JObj(SourceRecord(env.metadataOf(p1).value)), p2 := JObj(SourceRecord(env.metadataOf(p2).value))])
  {
    var key := ContentKey(env, p1);
    var e1 := Generate(env, st, p1).entry.value;
    var st1 := ImportFile(env, st, p1).1;
    var e2 := Generate(env, st1, p2).entry.value;
    assert st1.manifest == Merge(st.manifest, map[key := EntryJson(e1)]);
    MergeFresh(st.manifest, key, e1);
    var m2 := Merge(st1.manifest, map[key := EntryJson(e2)]);
    assert ImportFile(env, st1, p2).1.manifest == m2;
    MergeAt(st1.manifest.entries, map[key := EntryJson(e2)], key);
    assert m2.entries[key] == DeepMerge(EntryJson(e1), EntryJson(e2).fields);
    SecondSource(e1, e2, p1, p2);
  }

  /** What `import_file` returns for `path` in state `st`, given what the
      placement call returns for a path and entry, and the state it leaves. */
  function ImportOne(env: ImportEnv, place: (string, Entry) -> Outcome, st: ImportState, path: string)
    : (r: (ImportState, Outcome))
    ensures r.0 == ImportFile(env, st, path).1
  {
    var (d, st') := ImportFile(env, st, path);
    (st', OutcomeOf(d, if d.Place? then place(path, d.entry) else Returned(None)))
  }

  /** The per-file import the `import` command runs. */
  function PerFileImport(env: ImportEnv, place: (string, Entry) -> Outcome): (ImportState, string) -> (ImportState, Outcome) {
    (st, path) => ImportOne(env, place, st, path)
  }

  /** What the batch loop consults: the per-file import (`PerFileImport` for the
      `import` command; the loop is stated for any), and whether the
      metadata scrape of a batch returns anything. */
  datatype BatchEnv = BatchEnv(
    importOne: (ImportState, string) -> (ImportState, Outcome),
    scrapeOk: seq<string> -> bool)

  /** The state after some files: the import state and `has_errors`. */
  datatype Progress = Progress(st: ImportState, hasErrors: bool)

  const ConfigFileSuffix: string := "elodie.json"

  predicate Skipped(path: string) {
    EndsWith(path, ConfigFileSuffix)
  }

  function FileOutcome(env: BatchEnv, st: ImportState, path: string): Outcome {
    env.importOne(st, path).1
  }

  /** One file of the inner loop: `elodie.json` files are passed over;
      anything else is imported and a falsy or raised result sets
      `has_errors`. */
  function Step(env: BatchEnv, p: Progress, path: string): (q: Progress)
    ensures Skipped(path) ==> q == p
    ensures !Skipped(path) ==> q.st == env.importOne(p.st, path).0
    ensures !Skipped(path) ==> q.hasErrors == (p.hasErrors || !Truthy(FileOutcome(env, p.st, path)))
  {
    if Skipped(path) then p
    else
      var (st', outcome) := env.importOne(p.st, path);
      Progress(st', p.hasErrors || !Truthy(outcome))
  }

  /** Every file in order. */
  function Run(env: BatchEnv, p: Progress, files: seq<string>): Progress
    decreases |files|
  {
    if |files| == 0 then p else Step(env, Run(env, p, files[..|files| - 1]), files[|files| - 1])
  }

  /** A non-skipped file whose import raised or returned something falsy,
      in the state the files before it left. */
  predicate FailsAt(env: BatchEnv, p: Progress, files: seq<string>, i: int)
    requires 0 <= i < |files|
  {
    !Skipped(files[i]) && !Truthy(FileOutcome(env, Run(env, p, files[..i]).st, files[i]))
  }

  lemma RunLast(env: BatchEnv, p: Progress, files: seq<string>)
    requires |files| > 0
    ensures Run(env, p, files).hasErrors
        == (Run(env, p, files[..|files| - 1]).hasErrors || FailsAt(env, p, files, |files| - 1))
  {
  }

  predicate SomeFailure(env: BatchEnv, p: Progress, files: seq<string>) {
    exists i :: 0 <= i < |files| && FailsAt(env, p, files, i)
  }

  /** A failure among all files is one among all but the last, or the last. */
  lemma SomeFailureLast(env: BatchEnv, p: Progress, files: seq<string>)
    requires |files| > 0
    ensures SomeFailure(env, p, files)
        == (SomeFailure(env, p, files[..|files| - 1]) || FailsAt(env, p, files, |files| - 1))
  {
    var n := |files| - 1;
    var init := files[..n];
    if SomeFailure(env, p, init) {
      var i :| 0 <= i < n && FailsAt(env, p, init, i);
      assert init[..i] == files[..i];
      assert FailsAt(env, p, files, i);
    }
    if SomeFailure(env, p, files) {
      var i :| 0 <= i < |files| && FailsAt(env, p, files, i);
      if i < n {
        assert init[..i] == files[..i];
        assert FailsAt(env, p, init, i);
      }
    }
  }

  /** `has_errors` ends up set exactly when some non-skipped file failed. */
  lemma {:induction false} HasErrorsIff(env: BatchEnv, p: Progress, files: seq<string>)
    requires !p.hasErrors
    ensures Run(env, p, files).hasErrors <==> SomeFailure(env, p, files)
    decreases |files|
  {
    if |files| > 0 {
      HasErrorsIff(env, p, files[..|files| - 1]);
      RunLast(env, p, files);
      SomeFailureLast(env, p, files);
    }
  }

  /** `list(islice(files, n))` batches, for a positive size. */
  function Chunks(files: seq<string>, n: int): (r: seq<seq<string>>)
    requires n > 0
    ensures forall i :: 0 <= i < |r| ==> 0 < |r[i]| <= n
    decreases |files|
  {
    if |files| == 0 then []
    else if |files| <= n then [files]
    else [files[..n]] + Chunks(files[n..], n)
  }

  function Flatten(batches: seq<seq<string>>): seq<string>
    decreases |batches|
  {
    if |batches| == 0 then [] else batches[0] + Flatten(batches[1..])
  }

  /** The batches concatenate, in order, to the file stream. */
  lemma {:induction false} ChunksFlatten(files: seq<string>, n: int)
    requires n > 0
    ensures Flatten(Chunks(files, n)) == files
    decreases |files|
  {
    if |files| > n {
      ChunksFlatten(files[n..], n);
      assert ([files[..n]] + Chunks(files[n..], n))[1..] == Chunks(files[n..], n);
      assert files[..n] + files[n..] == files;
    } else if |files| > 0 {
      assert [files][1..] == [];
    }
  }

  /** A batch whose metadata scrape returns nothing. */
  predicate ScrapeFails(env: BatchEnv, batches: seq<seq<string>>) {
    exists i :: 0 <= i < |batches| && !env.scrapeOk(batches[i])
  }

  /** The tally the `import` command reports. */
  datatype Tally = Tally(progress: Progress, sourceFileCount: nat)

  /** Running over two stretches of files one after the other is running
      over both. */
  lemma {:induction false} RunAppend(env: BatchEnv, p: Progress, a: seq<string>, b: seq<string>)
    ensures Run(env, Run(env, p, a), b) == Run(env, p, a + b)
    decreases |b|
  {
    if |b| == 0 {
      assert a + b == a;
    } else {
      var n := |b| - 1;
      RunAppend(env, p, a, b[..n]);
      assert (a + b)[..|a + b| - 1] == a + b[..n];
      assert (a + b)[|a + b| - 1] == b[n];
    }
  }

  /** The inner loop over one batch. */
  method ImportBatch(env: BatchEnv, p: Progress, batch: seq<string>) returns (q: Progress)
    ensures q == Run(env, p, batch)
  {
    q := p;
    var j := 0;
    while j < |batch|
      invariant 0 <= j <= |batch|
      invariant q == Run(env, p, batch[..j])
    {
      assert batch[..j + 1][..j] == batch[..j];
      q := Step(env, q, batch[j]);
      j := j + 1;
    }
    assert batch[..j] == batch;
  }

  /** The batch `islice` reads at position `count` is the next chunk. */
  lemma NextChunk(files: seq<string>, count: nat, n: int)
    requires n > 0 && count < |files|
    ensures var batch := if n <= |files| - count then files[count..count + n] else files[count..];
      Chunks(files[count..], n) == [batch] + Chunks(files[count + |batch|..], n)
  {
    var batch := if n <= |files| - count then files[count..count + n] else files[count..];
    if |files[count..]| > n {
      assert files[count..][..n] == batch;
      assert files[count..][n..] == files[count + |batch|..];
    } else {
      assert files[count..] == batch;
      assert files[count + |batch|..] == [];
    }
  }

  lemma RunExtend(env: BatchEnv, p: Progress, files: seq<string>, count: nat, batch: seq<string>)
    requires count + |batch| <= |files| && batch == files[count..count + |batch|]
    ensures Run(env, Run(env, p, files[..count]), batch) == Run(env, p, files[..count + |batch|])
  {
    assert files[..count] + batch == files[..count + |batch|];
    RunAppend(env, p, files[..count], batch);
  }

  lemma FailingChunk(env: BatchEnv, chunks: seq<seq<string>>, batches: seq<seq<string>>,
                     batch: seq<string>, rest: seq<seq<string>>)
    requires chunks == batches + ([batch] + rest) && !env.scrapeOk(batch)
    ensures ScrapeFails(env, chunks)
  {
    assert chunks[|batches|] == batch;
  }

  /** `list(itertools.islice(stream, n))` where `stream` is what remains
      of `files` after `pos`: at most `n` files. */
  function Islice(files: seq<string>, pos: nat, n: nat): (batch: seq<string>)
    requires pos <= |files|
    ensures |batch| <= n && pos + |batch| <= |files| && batch == files[pos..pos + |batch|]
    ensures |batch| == 0 <==> n == 0 || pos == |files|
  {
    if n <= |files| - pos then files[pos..pos + n] else files[pos..]
  }

  /** What the loop knows after the batches read so far. */
  predicate LoopInvariant(env: BatchEnv, files: seq<string>, n: int, st: ImportState,
                          count: nat, p: Progress, batches: seq<seq<string>>)
    requires n > 0
  {
    && count <= |files|
    && p == Run(env, Progress(st, false), files[..count])
    && Chunks(files, n) == batches + Chunks(files[count..], n)
    && !ScrapeFails(env, batches)
    && (forall i :: 0 <= i < |batches| ==> 0 < |batches[i]| <= n)
  }

  /** One iteration for a non-empty batch: a failed scrape raises, anything
      else imports the batch. */
  method NextBatch(env: BatchEnv, files: seq<string>, n: int, st: ImportState,
                   count: nat, p: Progress, batches: seq<seq<string>>, batch: seq<string>)
    returns (failed: bool, count': nat, p': Progress, batches': seq<seq<string>>)
    requires n > 0 && LoopInvariant(env, files, n, st, count, p, batches)
    requires count < |files| && batch == Islice(files, count, n)
    ensures failed ==> ScrapeFails(env, Chunks(files, n))
    ensures failed ==> forall i :: 0 <= i < |batches'| ==> 0 < |batches'[i]| <= n
    ensures !failed ==> LoopInvariant(env, files, n, st, count', p', batches') && count' > count
  {
    batches' := batches + [batch];
    if !env.scrapeOk(batch) {
      NextChunk(files, count, n);
      var rest := Chunks(files[count + |batch|..], n);
      FailingChunk(env, Chunks(files, n), batches, batch, rest);
      BatchesBounded(batches, batch, n);
      return true, count, p, batches';
    }
    p' := ImportBatch(env, p, batch);
    InvariantStep(env, files, n, st, count, p, batches, batch, p');
    count' := count + |batch|;
    failed := false;
  }

  /** Importing a batch whose scrape succeeds keeps the loop invariant. */
  lemma InvariantStep(env: BatchEnv, files: seq<string>, n: int, st: ImportState,
                      count: nat, p: Progress, batches: seq<seq<string>>, batch: seq<string>, p': Progress)
    requires n > 0 && LoopInvariant(env, files, n, st, count, p, batches)
    requires count < |files| && batch == Islice(files, count, n)
    requires env.scrapeOk(batch) && p' == Run(env, p, batch)
    ensures LoopInvariant(env, files, n, st, count + |batch|, p', batches + [batch])
  {
    ChunksAdvance(files, n, count, batches, batch);
    RunExtend(env, Progress(st, false), files, count, batch);
    ScrapeExtend(env, batches, batch);
    BatchesBounded(batches, batch, n);
  }

  /** The batch read at `count` is the next chunk. */
  lemma ChunksAdvance(files: seq<string>, n: int, count: nat, batches: seq<seq<string>>, batch: seq<string>)
    requires n > 0 && count < |files| && batch == Islice(files, count, n)
    requires Chunks(files, n) == batches + Chunks(files[count..], n)
    ensures Chunks(files, n) == (batches + [batch]) + Chunks(files[count + |batch|..], n)
  {
    NextChunk(files, count, n);
  }

  lemma ScrapeExtend(env: BatchEnv, batches: seq<seq<string>>, batch: seq<string>)
    requires !ScrapeFails(env, batches) && env.scrapeOk(batch)
    ensures !ScrapeFails(env, batches + [batch])
  {
    forall i | 0 <= i < |batches + [batch]|
      ensures env.scrapeOk((batches + [batch])[i])
    {
      if i < |batches| {
        assert (batches + [batch])[i] == batches[i];
      }
    }
  }

  lemma BatchesBounded(batches: seq<seq<string>>, batch: seq<string>, n: int)
    requires forall i :: 0 <= i < |batches| ==> 0 < |batches[i]| <= n
    requires 0 < |batch| <= n
    ensures forall i :: 0 <= i < |batches + [batch]| ==> 0 < |(batches + [batch])[i]| <= n
  {
    forall i | 0 <= i < |batches + [batch]|
      ensures 0 < |(batches + [batch])[i]| <= n
    {
      if i < |batches| {
        assert (batches + [batch])[i] == batches[i];
      }
    }
  }

  /** The batches of a positive size. */
  method ImportBatches(env: BatchEnv, files: seq<string>, batchSize: int, st: ImportState)
    returns (r: Result<Tally>, batches: seq<seq<string>>)
    requires batchSize > 0
    ensures r.Failure? <==> ScrapeFails(env, Chunks(files, batchSize))
    ensures r.Failure? ==> r.error == MetadataScrapeFailed
    ensures r.Success? ==>
      && batches == Chunks(files, batchSize)
      && r.value == Tally(Run(env, Progress(st, false), files), |files|)
    ensures forall i :: 0 <= i < |batches| ==> 0 < |batches[i]| <= batchSize
  {
    var p := Progress(st, false);
    var count: nat := 0;
    batches := [];
    while true
      invariant LoopInvariant(env, files, batchSize, st, count, p, batches)
      decreases |files| - count
    {
      var batch := Islice(files, count, batchSize);
      if |batch| == 0 {
        break;
      }
      var failed;
      failed, count, p, batches := NextBatch(env, files, batchSize, st, count, p, batches, batch);
      if failed {
        r := Failure(MetadataScrapeFailed);
        return;
      }
    }
    assert files[count..] == [] && files[..count] == files;
    assert batches + [] == batches;
    r := Success(Tally(p, count));
  }

  /** The loop of the `import` command over the file stream. A negative
      batch size makes `islice` raise; a zero size gives an empty first
      batch, so nothing is counted or imported. Otherwise the files are
      processed in batches of at most `batchSize`; a batch whose scrape
      returns nothing raises out of the command; otherwise every file is
      counted (skipped ones included), and the result is the in-order run
      over all files. `batches` are the batches read. */
  method ImportAll(env: BatchEnv, files: seq<string>, batchSize: int, st: ImportState)
    returns (r: Result<Tally>, batches: seq<seq<string>>)
    ensures batchSize < 0 ==> r.Failure? && r.error.ValueError? && batches == []
    ensures batchSize == 0 ==> r == Success(Tally(Progress(st, false), 0)) && batches == []
    ensures batchSize > 0 ==> (r.Failure? <==> ScrapeFails(env, Chunks(files, batchSize)))
    ensures batchSize > 0 && r.Failure? ==> r.error == MetadataScrapeFailed
    ensures batchSize > 0 && r.Success? ==>
      && batches == Chunks(files, batchSize)
      && r.value == Tally(Run(env, Progress(st, false), files), |files|)
    ensures forall i :: 0 <= i < |batches| ==> 0 < |batches[i]| <= batchSize
  {
    if batchSize < 0 {
      return Failure(ValueError("Stop argument for islice() must be None or an integer")), [];
    }
    if batchSize == 0 {
      return Success(Tally(Progress(st, false), 0)), [];
    }
    r, batches := ImportBatches(env, files, batchSize, st);
  }

  // -----------------------------------------------------------------------
  // The `analyze` histogram

  /** `len(v["sources"])`: an entry that is not an object cannot be indexed
      by a string, an object without `sources` raises `KeyError`, and
      `len` accepts only objects, arrays and strings. */
  function SourceCount(v: Json): (r: Result<nat>)
    ensures r.Success? ==> v.JObj? && "sources" in v.fields
    ensures v.JObj? && "sources" in v.fields && v.fields["sources"].JObj? ==>
      r == Success(|v.fields["sources"].fields|)
  {
    if !v.JObj? then Failure(TypeError("string indices must be integers"))
    else if "sources" !in v.fields then Failure(KeyError("sources"))
    else match v.fields["sources"]
      case JObj(f) => Success(|f|)
      case JArr(a) => Success(|a|)
      case JStr(s) => Success(|s|)
      case _ => Failure(TypeError("object has no len()"))
  }

  /** The entries among `keys` with exactly `n` sources. */
  function WithCount(entries: map<string, Json>, keys: set<string>, n: nat): set<string> {
    set k | k in keys && k in entries && SourceCount(entries[k]) == Success(n)
  }

  /** The histogram after the entries `done`. */
  ghost predicate Histogram(entries: map<string, Json>, done: set<string>, hist: map<nat, nat>) {
    && (forall n: nat :: n in hist <==> n > 1 && WithCount(entries, done, n) != {})
    && (forall n :: n in hist ==> hist[n] == |WithCount(entries, done, n)|)
  }

  lemma WithCountAdd(entries: map<string, Json>, keys: set<string>, k: string, n: nat)
    requires k in entries && k !in keys
    ensures SourceCount(entries[k]) == Success(n) ==>
      WithCount(entries, keys + {k}, n) == WithCount(entries, keys, n) + {k}
      && |WithCount(entries, keys + {k}, n)| == |WithCount(entries, keys, n)| + 1
    ensures SourceCount(entries[k]) != Success(n) ==>
      WithCount(entries, keys + {k}, n) == WithCount(entries, keys, n)
  {
  }

  /** Counting one more entry with `c` sources bumps the bucket `c` when
      `c > 1` and leaves the histogram as it is otherwise. */
  lemma HistogramStep(entries: map<string, Json>, done: set<string>, hist: map<nat, nat>,
                      k: string, c: nat, hist': map<nat, nat>)
    requires Histogram(entries, done, hist)
    requires k in entries && k !in done && SourceCount(entries[k]) == Success(c)
    requires c > 1 ==> hist' == hist[c := if c in hist then hist[c] + 1 else 1]
    requires c <= 1 ==> hist' == hist
    ensures Histogram(entries, done + {k}, hist')
  {
    forall n: nat
      ensures n in hist' <==> n > 1 && WithCount(entries, done + {k}, n) != {}
      ensures n in hist' ==> hist'[n] == |WithCount(entries, done + {k}, n)|
    {
      WithCountAdd(entries, done, k, n);
      if n == c && c > 1 {
        assert k in WithCount(entries, done + {k}, n);
      }
    }
  }

  /** Moving one key from the keys still to visit to the visited ones
      keeps the two a partition of all keys. */
  lemma MoveKey(done: set<string>, todo: set<string>, all: set<string>, k: string)
    requires done + todo == all && done !! todo && k in todo
    ensures (done + {k}) + (todo - {k}) == all && (done + {k}) !! (todo - {k})
  {
  }

  predicate CountFails(entries: map<string, Json>, k: string)
    requires k in entries
  {
    SourceCount(entries[k]).Failure?
  }

  /** The loop of `analyze`: for every entry with more than one source, the
      histogram counts how many entries have that many sources; counts of
      one or none do not appear. The entries are visited in no particular
      order; an entry without a countable `sources` raises. */
  method Analyze(entries: map<string, Json>) returns (r: Result<map<nat, nat>>)
    ensures r.Failure? <==> exists k :: k in entries && CountFails(entries, k)
    ensures r.Success? ==> Histogram(entries, entries.Keys, r.value)
  {
    var hist: map<nat, nat> := map[];
    var done: set<string> := {};
    var todo := entries.Keys;
    while todo != {}
      invariant done + todo == entries.Keys && done !! todo
      invariant forall k :: k in done ==> !CountFails(entries, k)
      invariant Histogram(entries, done, hist)
      decreases |todo|
    {
      var k :| k in todo;
      var count := SourceCount(entries[k]);
      if count.Failure? {
        assert CountFails(entries, k);
        return Failure(count.error);
      }
      var length := count.value;
      ghost var prior := hist;
      if length > 1 {
        if length in hist {
          hist := hist[length := hist[length] + 1];
        } else {
          hist := hist[length := 1];
        }
      }
      HistogramStep(entries, done, prior, k, length, hist);
      MoveKey(done, todo, entries.Keys, k);
      done := done + {k};
      todo := todo - {k};
    }
    assert done == entries.Keys;
    assert !exists k :: k in entries && CountFails(entries, k);
    return Success(hist);
  }
}

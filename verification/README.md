# elodie import core in Dafny

elodie is a photo and video organiser. Its `import` command reads every file
of a source tree and keys each one by the SHA-256 checksum of its content in
a JSON *manifest*. It records where each file came from and what its
metadata says, then copies the file to a target directory whose path and
file name are derived from the metadata. This project models that core as
pure functions over values, and proves what the code promises about them:

- **Folder-pattern language** (`FolderPattern`). A pattern such as
  `%Y/%album|%origin|"Unsorted"` is parsed into segments of fallback
  alternatives. The parsed definition is cached. A segment is evaluated
  against a metadata record: a temporal field ends the segment, and so does
  a non-empty direct field. A quoted literal is appended but does not end
  it. `undated` appears at most once when there is no date.
- **File names** (`FileName`). Any earlier date prefix is stripped. The old
  title is removed and the sanitised title appended. The date and the
  origin or camera model go in front, and the whole name is lower-cased.
- **Manifest entries and placement** (`Placement`). The sparse source
  record and the target are built here. The placement decision works
  against a file system given as a map from path to bytes: skip an
  identical file, copy next to a differing one under
  `<stem>.<checksum><ext>`, or do a plain copy.
- **Manifest store** (`ManifestStore`, `Json`). `deep_merge` is modelled
  both as an order-free definition and as its loop. The module also covers
  load, merge, the write-path rule, `len`, and the hash-database
  operations.
- **Orchestration** (`Importer`). This covers the `import_file` decision
  sequence, the batch loop of `import` with its `has_errors` fold, and the
  duplicate histogram of `analyze`.
- **Checksum block loop** (`Checksum`). The blocks fed to the hasher
  concatenate to the file content.

Things outside the model's reach become parameters:
- SHA-256 is `Checksum.Hasher`, a function from bytes to a digest.
- `time.strftime` is `MediaMetadata.Strftime`.
- The metadata a media class extracts is `ImportEnv.metadataOf`.
- Whether a media class accepts a path is `ImportEnv.supported`.
- Whether ExifTool returned anything for a batch is `BatchEnv.scrapeOk`.
- Whether a copy succeeds is `copyOk`.
- The placement outcome of `import_file` is the `place` parameter of
  `Importer.ImportOne`.

Python's `os.path` functions (POSIX), `str.split`, `join`, `replace`,
`strip` and `lower` are written out in `Paths` and `Common`. Python
exceptions are `Result.Failure`/`Outcome.Raised` values named after the
failure: the exception class where the code raises a specific one, and a
descriptive name (`BadFolderPathDefinition`, `MetadataScrapeFailed`) where
it raises a plain `Exception`.

Where the documented behaviour and the code differ, the model follows the
code:

- The title is sanitised without lower-casing. Only the finished name is
  lower-cased, so a title with a capital letter is appended again on every
  re-import (`FileName.CapitalisedTitleRepeats`).
- Removing every `-<title>` can leave a new occurrence behind, so the base
  does not always end in exactly one copy of the title
  (`FileName.TitleRemovalCanReform`). It does when the text before the title
  never contains it (`FileName.TitledBaseStable`).
- A quoted literal does not end its segment. The alternatives after it are
  still tried.
- When the metadata has no `original_name`, re-importing an imported file
  reproduces its name only without an origin or camera model
  (`FileName.RerunStable`, `FileName.RerunStableTitled`). With either one,
  the name grows (`FileName.RerunWithOriginGrows`,
  `FileName.RerunWithModelGrows`). With a non-empty `original_name` the
  base is taken from it, so the name is reproduced whatever the file is
  called (`FileName.RerunWithOriginalName`).
- The comment on the location fallback says `%album|%city|"Unknown Location"`
  gives the city when there is no album. The loop never looks up `city`,
  `state` or `country`, so such an alternative contributes nothing
  (`FolderPattern.UnhandledIgnored`). That pattern gives "Unknown Location"
  whatever the city (`FolderPattern.CityFallbackUnreached`).

## Model

| member | source | states |
|---|---|---|
| Checksum.Checksum | elodie/filesystem.py:25-43 | the non-empty blocks fed to the hasher are at most the block size and concatenate to the file's content, so the digest is that of the content; a missing file raises; a zero block size hashes nothing |
| Checksum.DefaultChecksum | elodie/manifest.py:108-126 | with the default 65536-byte block size, streaming the file gives the digest of its whole content; a missing file raises `IOError` (the `return None` after the `with` is unreachable) |
| Json.DeepMergeRules | elodie/manifest.py:22-33 | `None` becomes the incoming mapping; a mapping target has the union of keys, keeps keys only it has, takes incoming scalars, and merges an incoming mapping into its own value (or `{}`); any other target is replaced unless the incoming mapping is empty |
| Json.LoopAgreesWithDeepMerge | elodie/manifest.py:22-33 | the `for k, v in u.items()` loop, including the rebinding of a non-mapping `d` to `{k: v}`, computes the key-by-key merge whatever order the keys are visited in |
| Json.NestedAgreesWithDeepMerge | elodie/manifest.py:22-33 | `deep_merge` as written, its recursive calls included, computes the key-by-key merge whatever order the keys of each mapping are visited in |
| Json.MergeIntoEmpty | elodie/manifest.py:22-33 | merging into `{}` rebuilds the incoming mapping |
| Json.MergeIdempotent | elodie/manifest.py:22-33 | merging the same mapping a second time changes nothing |
| ManifestStore.NewManifest | elodie/manifest.py:40-42 | a new manifest has no entries and its hash database is unset; its file is named `manifest.json`, and splitting its path gives back the working directory and `manifest.json` when the directory has no trailing slash |
| ManifestStore.LoadFromFile | elodie/manifest.py:44-54 | loading sets the file path and replaces the entries with the file's content; a missing file is created holding `{}` and yields no entries |
| ManifestStore.LoadReplacesEntries | elodie/manifest.py:53-54 | what a manifest held before loading has no influence on its entries after |
| ManifestStore.Len | elodie/manifest.py:78-79 | the number of distinct checksums in the entries; `MergeCount` states how a merge changes it |
| ManifestStore.Merge | elodie/manifest.py:56-57 | a merge adds the partial's keys and keeps the entries it does not mention |
| ManifestStore.MergeCount | elodie/manifest.py:78-79 | `len` after a merge grows by exactly the number of checksums that were new |
| ManifestStore.MergeTwice | elodie/manifest.py:56-57 | merging the same partial twice leaves what merging it once leaves |
| ManifestStore.MergeKeepsEverySource | elodie/manifest.py:56-57 | merging a second source path for a known checksum keeps the first path's record, records the second path with its record (merged into the record it already had, if any) and keeps the entry's other keys |
| ManifestStore.WritePath | elodie/manifest.py:60-69 | with `overwrite` the manifest's own path is written; otherwise a sibling in the same directory named `<name>_<timestamp><ext>` |
| ManifestStore.Write | elodie/manifest.py:60-76 | the write path is written and every other file is unchanged |
| ManifestStore.WriteThenLoad | elodie/manifest.py:44-76 | loading the file just written gives back the written entries |
| ManifestStore.GetHash | elodie/manifest.py:128-136 | the stored value for a present key, `None` for an absent one; raises while the hash database is unset |
| ManifestStore.CheckHash | elodie/manifest.py:100-106 | true exactly when `get_hash` finds a value; raises exactly when it does |
| ManifestStore.AddHash | elodie/manifest.py:81-90 | afterwards the key maps to the value and `check_hash` holds, every other key reads as before, and the entries are untouched; raises while the hash database is unset |
| ManifestStore.ResetHashDb | elodie/manifest.py:146-147 | afterwards every key reads `None`; entries are untouched |
| ManifestStore.All | elodie/manifest.py:138-144 | yields exactly the pairs `get_hash` confirms |
| ManifestStore.HashDbNeedsReset | elodie/manifest.py:40-42 | on a fresh manifest `add_hash` and `get_hash` raise, and after `reset_hash_db` `add_hash` succeeds |
| FolderPattern.FindRuns | elodie/filesystem.py:222-225 | every run found starts with `%`, has at least one more character and holds no `/`; `FindRunsMaximal` and `FindRunsOfJoin` state which runs are found |
| FolderPattern.FindRunsMaximal | elodie/filesystem.py:222-225 | on any pattern, each run found occurs at its recorded start and stops at a `/` or the end, the runs come left to right without overlap, and every `%` followed by a non-slash character lies inside one of them |
| FolderPattern.FindRunsOfJoin | elodie/filesystem.py:219-225 | joining well-formed runs with `/` and scanning the result gives back exactly those runs, in order (`%foo/%bar` gives `%foo` and `%bar`) |
| FolderPattern.FindRunsEmpty | elodie/filesystem.py:222-228 | no run is found exactly when no `%` is followed by a non-slash character |
| FolderPattern.SegmentOf | elodie/filesystem.py:232-248 | a run stripped of `%` that is a default part becomes one alternative with an empty mask; otherwise it is split at every vertical bar and each name gets mask `%name`; the names joined with vertical bars give back the stripped run |
| FolderPattern.ParseDefinition | elodie/filesystem.py:222-248 | raises the bad-definition error exactly when there is no run; otherwise one segment per run, in order |
| FolderPattern.GetFolderPathDefinition | elodie/filesystem.py:207-250 | a cached definition is returned whatever the pattern; otherwise the pattern is parsed and the cache is set exactly when parsing succeeds |
| FolderPattern.LaterPatternsIgnored | elodie/filesystem.py:210-211 | after a successful first lookup, any later pattern yields the first definition |
| FolderPattern.GetFolderPath | elodie/filesystem.py:252-289 | the components of the evaluated definition joined as `os.path.join` does; no components raises; a failed lookup propagates |
| FolderPattern.SegmentReference | elodie/filesystem.py:268-287 | a segment yields the quoted literals before its first stopping alternative, then that alternative's component; it sets the undated flag exactly when that alternative is temporal and there is no date |
| FolderPattern.UnhandledIgnored | elodie/filesystem.py:268-285 | an alternative the loop does not handle (`city`, `state`, `country`) can be removed from any position of its segment without changing what the segment produces |
| FolderPattern.CityFallbackUnreached | elodie/filesystem.py:262-285 | a segment with the alternatives `%album`, `%city` and `"Unknown Location"`, in that order, gives "Unknown Location" when there is no album, whatever the city, unlike the comment's "Sunnyvale" example |
| FolderPattern.AfterStopIgnored | elodie/filesystem.py:270-285 | alternatives after a stopping one are never consulted |
| FolderPattern.SegmentTemporalCount | elodie/filesystem.py:270-281 | a segment yields one temporal component exactly when it stops on a temporal alternative and there is a date or no `undated` yet |
| FolderPattern.UndatedAtMostOnce | elodie/filesystem.py:260-281 | without a date the whole path holds at most one `undated` component produced by a date field (a quoted `"undated"` or an album of that name is not counted), and exactly one when some segment stops on a temporal alternative |
| FolderPattern.DatedComponentsFormatted | elodie/filesystem.py:270-274 | with a date, every temporal component is the date formatted with some alternative's mask |
| FileName.StripStamp | elodie/filesystem.py:158-162 | the result is a suffix of the name: either the name itself, or what follows a leading date stamp |
| FileName.StripStampOfStamped | elodie/filesystem.py:158-162 | a stamp followed by anything loses exactly the stamp |
| FileName.StripStampUnstamped | elodie/filesystem.py:158-162 | a name without a leading stamp is kept |
| FileName.BaseOf | elodie/filesystem.py:150-164 | with a non-empty original name, the base plus its extension is the original name; otherwise a leading date stamp followed by more text is removed, a name without a leading stamp is kept, and a name that is only a stamp is kept whole |
| FileName.Sanitize | elodie/filesystem.py:171 | the result holds only word characters and `-`, never two non-word characters in a row, and keeps the first character or replaces it by `-` |
| FileName.SanitizeRun | elodie/filesystem.py:171 | the word characters before a maximal run of non-word characters are kept, and the whole run becomes a single `-` |
| FileName.SanitizeKeepsWords | elodie/filesystem.py:171 | text of word characters only is kept as it is |
| FileName.SanitizedIsFixed | elodie/filesystem.py:171 | text already in sanitised form is its own sanitisation |
| FileName.SanitizeFixed | elodie/filesystem.py:171 | text is its own sanitisation exactly when it is already in sanitised form |
| FileName.SanitizeIdempotent | elodie/filesystem.py:171 | sanitising twice gives what sanitising once gives |
| FileName.TitledBase | elodie/filesystem.py:166-173 | the titled base ends with `-<sanitised title>` and is at most that much longer than the base |
| FileName.TitledBaseFresh | elodie/filesystem.py:172-173 | a base not containing `-<title>` just gets it appended |
| FileName.TitledBaseStable | elodie/filesystem.py:172-173 | a base that is `b-<title>`, where the scan meets the title only at the end, is kept as it is |
| FileName.TitledBaseTwice | elodie/filesystem.py:172-173 | applying the title twice gives what applying it once gives, when the title occurs only at the end of the result |
| FileName.TitleRemovalCanReform | elodie/filesystem.py:172-173 | for any sanitised title `q` starting with a word character, the base `--qq` comes out as `-q-q`: the removal re-forms an occurrence and the title ends up twice |
| FileName.CapitalisedTitleRepeats | elodie/filesystem.py:171-188 | when the sanitised title has a capital letter, titling the lower-cased titled base appends the title again |
| FileName.FileName | elodie/filesystem.py:175-188 | the name holds no upper-case letter |
| FileName.GetFileName | elodie/filesystem.py:144-145 | `None` metadata gives `None`; otherwise the name is derived |
| FileName.FileNameShape | elodie/filesystem.py:175-188 | the name is the lower-cased `<date>-` (if dated), `<origin>-` or else `<camera model>-` (when not `None`, even if empty), titled base, `.` and extension |
| FileName.RerunStable | elodie/filesystem.py:150-188 | a dated, untitled file without origin or camera model keeps its name when re-imported under that name |
| FileName.RerunStableTitled | elodie/filesystem.py:150-188 | the same for a titled file whose base never contains the title before its end |
| FileName.RerunWithOriginGrows | elodie/filesystem.py:150-188 | with an origin, re-importing under the produced name gives a longer name |
| FileName.RerunWithModelGrows | elodie/filesystem.py:150-188 | without an origin but with a camera model, re-importing under the produced name gives a longer name |
| FileName.RerunWithOriginalName | elodie/filesystem.py:150-151 | with a non-empty `original_name`, renaming the file (changing `base_name`) leaves the produced name unchanged, with or without an origin or camera model |
| Placement.SourceRecord | elodie/filesystem.py:303-309 | the record has exactly the keys among date, camera make, camera model, album, title and origin whose value is not `None`, with those values; the date is wrapped in a 1-tuple |
| Placement.GenerateManifest | elodie/filesystem.py:291-311 | an entry with exactly one source key (the file path), that source's sparse record, the folder path and the file name; `None` metadata or a failed folder-path lookup raises, and with metadata and a folder path an entry is always produced |
| Placement.ExecuteManifest | elodie/filesystem.py:314-346 | returns `None` exactly when neither destination nor source exists; `False` exactly when the copy to a free destination fails, and then nothing is written; raises exactly when the destination exists and the source is missing, or differs and cannot be copied, and then nothing is written; an existing destination with the source's checksum returns `True` and writes nothing; a plain copy puts the source's content at the destination, and a differing destination gets the source's content at the checksum-qualified name |
| Placement.HashedDiffers | elodie/filesystem.py:325-327 | the checksum-qualified destination is never the plain one |
| Placement.ExecuteWritesOnlyTargets | elodie/filesystem.py:320-346 | an existing destination is never overwritten, no file disappears, and only the destination or the checksum-qualified name can change |
| Placement.ExecuteTrueMeansPresent | elodie/filesystem.py:320-341 | on `True` the source exists and the destination holds content with the source's digest, or the checksum-qualified name holds the source |
| Placement.ExecuteIdempotent | elodie/filesystem.py:314-346 | placing the same file again after a successful placement writes nothing: it returns `True` for any copy outcome when the destination holds the source's checksum; otherwise it repeats the copy to the checksum-qualified name, returning `True` if that copy succeeds and raising if it fails |
| Importer.ImportFile | elodie.py:43-84 | a missing path and an unsupported file leave everything unchanged; a failure leaves the manifest unchanged; placement happens only outside dry runs and for a new checksum unless duplicates are allowed |
| Importer.OutcomeOf | elodie.py:47-90 | missing and unsupported files return `None`; a skipped duplicate and a dry run return `True`; a placement returns what `execute_manifest` returns |
| Importer.ImportOrder | elodie.py:69-84 | the duplicate test reads the manifest before the merge; the merge always happens; skip, dry run and placement are decided in that order |
| Importer.ImportTwice | elodie.py:69-78 | importing the same file again changes neither manifest nor cache and, without allowing duplicates, is a skipped duplicate |
| Importer.SameContentBothRecorded | elodie.py:69-78 | two paths with the same content both end up as sources of the one checksum entry |
| Importer.ImportBatch | elodie.py:175-184 | the inner loop over one batch leaves the progress that folding `Step` over the batch's files in order gives |
| Importer.Step | elodie.py:175-184 | an `elodie.json` file changes nothing; any other file is imported and sets `has_errors` when its result is not `True` |
| Importer.HasErrorsIff | elodie.py:179-184 | after the loop `has_errors` holds exactly when some non-skipped file raised or returned something falsy |
| Importer.Chunks | elodie.py:163-165 | batches are non-empty and at most the batch size |
| Importer.ChunksFlatten | elodie.py:163-165 | batches concatenate, in order, to the file stream |
| Importer.ImportBatches | elodie.py:159-184 | for a positive batch size, raises exactly when some batch's scrape fails; otherwise reads the chunks, counts every file (skipped ones included) and runs the files in order |
| Importer.ImportAll | elodie.py:159-184 | a negative batch size raises `ValueError`, a zero one imports nothing, otherwise as `ImportBatches` |
| Importer.SourceCount | elodie.py:224-225 | an entry with an object `sources` counts its keys; success implies the entry is an object with `sources` |
| Importer.Analyze | elodie.py:220-229 | raises exactly when some entry's sources cannot be counted; otherwise maps each n > 1 to the number of entries with exactly n sources, and nothing else |

## Left out

- File-system effects are not modelled: directory creation, `shutil.copy`, `os.utime`, logging and JSON text parsing and dumping. A file is a path in a map from path to content. `isfile` and `exists` are both membership in that map.
- SHA-256, `time.strftime` and `datetime.utcnow` are parameters. The struct_time fields beyond the six date and time numbers are not modelled.
- ExifTool, the media classes and `metadata_dict` are replaced by the metadata record `metadataOf` yields and the `supported` and `scrapeOk` predicates.
- The placement call at elodie.py:84 passes `move_not_copy`, which `execute_manifest` does not accept. `import_file` is modelled up to that call, and the batch loop takes the placement outcome as a parameter.
- Moving instead of copying is not modelled.
- Importer.ImportBatches: the file system seen by later imports is the one the batch started with, because placement is abstract.
- The CLI (click options, config loading, signal handling) and the statistics logging are not modelled. The new-hash count is covered by `ManifestStore.MergeCount`.
- The `_update`, `_merge`, `_find` and `_verify` commands and `FileSystem.process_file` are left out: they are stale or broken in the code. So are `backup_hash_db`, `update_hash_db` (reached through `add_hash(..., write=True)`) and `update_location_db`, which are pure I/O.
- `Manifest.write` with `indent` only changes the JSON text layout, which is not modelled.
- ManifestStore.All: the generator's order is not kept. The model returns the set of pairs. Because `all()` is a generator, an unset `hash_db` raises `AttributeError` only when iteration starts, not at the call; the model fails at the call.
- Json.LoopAgreesWithDeepMerge: Python's dict insertion order is not tracked. The lemma covers every visiting order instead, and so does `Json.NestedAgreesWithDeepMerge` for the recursive calls.
- Json.DeepMerge: `collections.Mapping` is assumed to exist. It was removed in Python 3.10, where every call on a non-`None` target with a non-empty update raises `AttributeError`.
- ManifestStore.LoadFromFile: a manifest file whose top level is not a JSON object cannot be represented. Its entries are always a mapping.
- FileName.StripStamp: `\d` is taken as the ASCII digits, while Python 3 also accepts other Unicode decimal digits.
- FileName.Sanitize: `\W` is taken over ASCII, with every non-ASCII character counted as a word character. `str.strip` and `str.lower` use ASCII whitespace and letters only.
- FileName.RerunStable: the re-import name is taken before lower-casing. This matches the real name when the base has no capital letters. `FileName.CapitalisedTitleRepeats` covers titles that have them.
- FileName.RerunStableTitled: the same restriction as `FileName.RerunStable`.
- Importer.SourceCount: the JSON-number and `null` entries that `len` rejects, and the non-object entries, are reported as the raised exception's class with no message fidelity.

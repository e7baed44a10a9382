/** Manifest-entry construction and the placement decision of
    elodie/filesystem.py: `generate_manifest` builds the entry an import
    records, and `execute_manifest` puts the source file at the entry's
    target, deciding between skipping, a plain copy and a copy under a
    checksum-qualified name. The file system is a map from path to content;
    directories are not modelled. */
module Placement {
  import opened Common
  import opened Json
  import opened MediaMetadata
  import opened Checksum
  import Paths
  import FolderPattern
  import FileName

  /** The part of a target configuration the importer reads. */
  datatype TargetConfig = TargetConfig(basePath: string, filePathPattern: string)

  /** A manifest entry: the source records by source path, and the target
      directory and file name. */
  datatype Entry = Entry(sources: map<string, map<string, Json>>, path: string, name: string)

  /** `date_taken` as the manifest stores it: a 1-tuple holding the date. */
  function DateJson(d: DateTime): Json {
    JArr([JArr([JNum(d.year), JNum(d.month), JNum(d.day), JNum(d.hour), JNum(d.minute), JNum(d.second)])])
  }

  function SourcesJson(sources: map<string, map<string, Json>>): map<string, Json> {
    map p | p in sources :: JObj(sources[p])
  }

  /** The entry as the JSON object the manifest holds. */
  function EntryJson(e: Entry): (j: Json)
    ensures j.JObj? && j.fields.Keys == {"sources", "target"}
  {
    JObj(map[
      "sources" := JObj(SourcesJson(e.sources)),
      "target" := JObj(map["path" := JStr(e.path), "name" := JStr(e.name)])])
  }

  // -----------------------------------------------------------------------
  // generate_manifest

  /** The metadata fields a source record can hold, under their manifest
      keys, with the value stored for each (`None` when the field is). */
  function FieldValue(md: Metadata, k: string): Option<Json> {
    match k
    case "date_taken" => if md.dateTaken.Some? then Some(DateJson(md.dateTaken.value)) else None
    case "camera_make" => if md.cameraMake.Some? then Some(JStr(md.cameraMake.value)) else None
    case "camera_model" => if md.cameraModel.Some? then Some(JStr(md.cameraModel.value)) else None
    case "album" => if md.album.Some? then Some(JStr(md.album.value)) else None
    case "title" => if md.title.Some? then Some(JStr(md.title.value)) else None
    case "origin" => if md.origin.Some? then Some(JStr(md.origin.value)) else None
    case _ => None
  }

  const RecordKeys: set<string> := {"date_taken", "camera_make", "camera_model", "album", "title", "origin"}

  /** The source record: only the fields whose value is not `None`. */
  function SourceRecord(md: Metadata): (r: map<string, Json>)
    ensures forall k :: k in r <==>
      || (k == "date_taken" && md.dateTaken.Some?)
      || (k == "camera_make" && md.cameraMake.Some?)
      || (k == "camera_model" && md.cameraModel.Some?)
      || (k == "album" && md.album.Some?)
      || (k == "title" && md.title.Some?)
      || (k == "origin" && md.origin.Some?)
    ensures "date_taken" in r ==> r["date_taken"] == DateJson(md.dateTaken.value)
    ensures "camera_make" in r ==> r["camera_make"] == JStr(md.cameraMake.value)
    ensures "camera_model" in r ==> r["camera_model"] == JStr(md.cameraModel.value)
    ensures "album" in r ==> r["album"] == JStr(md.album.value)
    ensures "title" in r ==> r["title"] == JStr(md.title.value)
    ensures "origin" in r ==> r["origin"] == JStr(md.origin.value)
  {
    map k | k in RecordKeys && FieldValue(md, k).Some? :: FieldValue(md, k).value
  }

  datatype Generated = Generated(entry: Result<Entry>, cache: Option<FolderPattern.Definition>)

  /** `generate_manifest(file_path, target, metadata_dict, media)` on a file
      system object whose cached folder definition is `cache`, where `md` is
      what the media class extracted. The folder path is computed first, so
      a bad pattern raises before anything else; without metadata, reading
      its fields raises a `TypeError`. */
  function GenerateManifest(cache: Option<FolderPattern.Definition>, filePath: string, target: TargetConfig,
                            md: Option<Metadata>, fmt: Strftime): (r: Generated)
    ensures r.cache == FolderPattern.GetFolderPathDefinition(cache, target.filePathPattern).cache
    ensures FolderPattern.GetFolderPathDefinition(cache, target.filePathPattern).definition.Failure? ==> r.entry.Failure?
    ensures md.None? ==> r.entry.Failure?
    ensures md.Some? && FolderPattern.GetFolderPath(cache, target.filePathPattern, md.value, fmt).path.Success? ==>
      r.entry.Success?
    ensures r.entry.Success? ==>
      && md.Some?
      && r.entry.value.sources.Keys == {filePath}
      && r.entry.value.sources[filePath] == SourceRecord(md.value)
      && Success(r.entry.value.path) == FolderPattern.GetFolderPath(cache, target.filePathPattern, md.value, fmt).path
      && r.entry.value.name == FileName.FileName(md.value, fmt)
  {
    var lookup := FolderPattern.GetFolderPathDefinition(cache, target.filePathPattern);
    match md
    case None =>
      Generated(Failure(if lookup.definition.Failure? then lookup.definition.error
                        else TypeError("'NoneType' object is not subscriptable")), lookup.cache)
    case Some(m) =>
      var folder := FolderPattern.GetFolderPath(cache, target.filePathPattern, m, fmt);
      match folder.path
      case Failure(e) => Generated(Failure(e), folder.cache)
      case Success(path) =>
        Generated(Success(Entry(map[filePath := SourceRecord(m)], path, FileName.FileName(m, fmt))), folder.cache)
  }

  // -----------------------------------------------------------------------
  // execute_manifest

  /** `os.path.join(base_path, path, name)`. */
  function Destination(basePath: string, path: string, name: string): string {
    Paths.JoinAll([basePath, path, name])
  }

  /** The name a differing file is copied under: `<stem>.<checksum><ext>`. */
  function HashedName(name: string, digest: string): (r: string)
    ensures |r| == |name| + 1 + |digest|
    ensures |name| > 0 && name[0] == '/' ==> |r| > 0 && r[0] == '/'
    ensures (|name| == 0 || name[0] != '/') ==> |r| == 0 || r[0] != '/'
  {
    var (stem, ext) := Paths.SplitExt(name);
    assert |stem| > 0 ==> stem[0] == name[0];
    stem + "." + digest + ext
  }

  datatype Placed = Placed(outcome: Outcome, fs: FileStore)

  /** `execute_manifest(source_path, manifest_entry, base_path)`, with
      `copyOk` saying whether creating the directory and copying succeed.
      An existing destination is compared by checksum: equal means done,
      different means the source is copied next to it under its checksum
      (a failing copy propagates). A missing destination gets a plain copy;
      a failing copy returns `False` and a missing source `None`. */
  function ExecuteManifest(fs: FileStore, src: string, entry: Entry, basePath: string,
                           hash: Hasher, copyOk: bool): (r: Placed)
    ensures var dest := Destination(basePath, entry.path, entry.name);
      r.outcome == Returned(None) <==> dest !in fs && src !in fs
    ensures var dest := Destination(basePath, entry.path, entry.name);
      r.outcome == Returned(Some(false)) <==> dest !in fs && src in fs && !copyOk
    ensures var dest := Destination(basePath, entry.path, entry.name);
      r.outcome.Raised? <==> dest in fs && (src !in fs || (hash(fs[dest]) != hash(fs[src]) && !copyOk))
    ensures r.outcome.Returned? ==> r.outcome.value != Some(false) || r.fs == fs
    ensures var dest := Destination(basePath, entry.path, entry.name);
      dest in fs && src in fs && hash(fs[dest]) == hash(fs[src]) ==> r == Placed(Returned(Some(true)), fs)
    ensures var dest := Destination(basePath, entry.path, entry.name);
      dest !in fs && src in fs && copyOk ==> r.fs == fs[dest := fs[src]]
    ensures var dest := Destination(basePath, entry.path, entry.name);
      dest in fs && src in fs && hash(fs[dest]) != hash(fs[src]) && copyOk ==>
        r.fs == fs[Destination(basePath, entry.path, HashedName(entry.name, hash(fs[src]))) := fs[src]]
    ensures r.outcome.Raised? ==> r.fs == fs
  {
    var dest := Destination(basePath, entry.path, entry.name);
    if dest in fs then
      if src !in fs then Placed(Raised(IOError(src)), fs)
      else if hash(fs[dest]) == hash(fs[src]) then Placed(Returned(Some(true)), fs)
      else
        var hashed := Destination(basePath, entry.path, HashedName(entry.name, hash(fs[src])));
        if copyOk then Placed(Returned(Some(true)), fs[hashed := fs[src]])
        else Placed(Raised(IOError(hashed)), fs)
    else if src !in fs then Placed(Returned(None), fs)
    else if copyOk then Placed(Returned(Some(true)), fs[dest := fs[src]])
    else Placed(Returned(Some(false)), fs)
  }

  /** Names of different lengths that agree on being absolute join to
      different paths. */
  lemma JoinDistinct(a: string, n1: string, n2: string)
    requires |n1| != |n2|
    requires (|n1| > 0 && n1[0] == '/') <==> (|n2| > 0 && n2[0] == '/')
    ensures Paths.Join(a, n1) != Paths.Join(a, n2)
  {
    assert |Paths.Join(a, n1)| - |n1| == |Paths.Join(a, n2)| - |n2|;
  }

  /** The checksum-qualified copy never lands on the destination itself. */
  lemma HashedDiffers(basePath: string, path: string, name: string, digest: string)
    ensures Destination(basePath, path, HashedName(name, digest)) != Destination(basePath, path, name)
  {
    var dir := Paths.JoinAll([basePath, path]);
    assert [basePath, path, name][..2] == [basePath, path];
    assert [basePath, path, HashedName(name, digest)][..2] == [basePath, path];
    JoinDistinct(dir, HashedName(name, digest), name);
  }

  /** An existing destination is never overwritten, and nothing but the
      destination or its checksum-qualified sibling is ever written. */
  lemma ExecuteWritesOnlyTargets(fs: FileStore, src: string, entry: Entry, basePath: string,
                                 hash: Hasher, copyOk: bool)
    ensures var dest := Destination(basePath, entry.path, entry.name);
      var after := ExecuteManifest(fs, src, entry, basePath, hash, copyOk).fs;
      && (dest in fs ==> dest in after && after[dest] == fs[dest])
      && (forall p :: p in fs ==> p in after)
      && (forall p :: p in after && p != dest
            && (src !in fs || p != Destination(basePath, entry.path, HashedName(entry.name, hash(fs[src]))))
            ==> p in fs && after[p] == fs[p])
  {
    if src in fs {
      HashedDiffers(basePath, entry.path, entry.name, hash(fs[src]));
    }
  }

  /** A `True` result means the source's content is at the destination, or
      the destination holds different content and the source's content is
      at the checksum-qualified sibling. */
  lemma ExecuteTrueMeansPresent(fs: FileStore, src: string, entry: Entry, basePath: string,
                                hash: Hasher, copyOk: bool)
    requires Truthy(ExecuteManifest(fs, src, entry, basePath, hash, copyOk).outcome)
    ensures var dest := Destination(basePath, entry.path, entry.name);
      var after := ExecuteManifest(fs, src, entry, basePath, hash, copyOk).fs;
      && src in fs && dest in after
      && (hash(after[dest]) == hash(fs[src])
          || (var hashed := Destination(basePath, entry.path, HashedName(entry.name, hash(fs[src])));
              hashed in after && after[hashed] == fs[src]))
  {
  }

  /** Placing the same entry again after a successful placement writes
      nothing. When the destination holds the source's content (by
      checksum) the second call returns `True` whatever the copy would do;
      otherwise it repeats the copy to the checksum-qualified name, which
      returns `True` when it succeeds and raises when it fails. */
  lemma ExecuteIdempotent(fs: FileStore, src: string, entry: Entry, basePath: string,
                          hash: Hasher, copyOk: bool, copyAgain: bool)
    requires Truthy(ExecuteManifest(fs, src, entry, basePath, hash, copyOk).outcome)
    ensures src in fs
    ensures var dest := Destination(basePath, entry.path, entry.name);
      var hashed := Destination(basePath, entry.path, HashedName(entry.name, hash(fs[src])));
      var once := ExecuteManifest(fs, src, entry, basePath, hash, copyOk).fs;
      var again := ExecuteManifest(once, src, entry, basePath, hash, copyAgain);
      && dest in once
      && (hash(once[dest]) == hash(fs[src]) ==> again == Placed(Returned(Some(true)), once))
      && (hash(once[dest]) != hash(fs[src]) ==>
            again == (if copyAgain then Placed(Returned(Some(true)), once)
                      else Placed(Raised(IOError(hashed)), once)))
  {
    var dest := Destination(basePath, entry.path, entry.name);
    var hashed := Destination(basePath, entry.path, HashedName(entry.name, hash(fs[src])));
    var once := ExecuteManifest(fs, src, entry, basePath, hash, copyOk).fs;
    HashedDiffers(basePath, entry.path, entry.name, hash(fs[src]));
    assert once[src] == fs[src];
    if dest in fs && hash(fs[dest]) != hash(fs[src]) {
      assert once == fs[hashed := fs[src]];
      assert once[hashed := once[src]] == once;
    }
  }
}

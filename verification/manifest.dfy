/** The manifest store (elodie/manifest.py): the checksum-keyed entries, how
    they are loaded, merged and where they are written, and the separate
    hash database of the older `generate-db`/`verify` commands. Reading and
    writing JSON text is not modelled: a manifest file is represented by the
    JSON object it holds. */
module ManifestStore {
  import opened Common
  import opened Json
  import Paths

  /** `entries` maps a content checksum to its entry; `hashDb` is `None`
      while the `hash_db` attribute has never been assigned (the constructor
      does not assign it). */
  datatype Manifest = Manifest(
    entries: map<string, Json>,
    filePath: string,
    hashDb: Option<map<string, string>>)

  /** Manifest files on disk, by path, at the level of their JSON content. */
  type ManifestFiles = map<string, map<string, Json>>

  const DefaultFileName: string := "manifest.json"

  /** `Manifest()`: no entries, and a default file `manifest.json` in the
      working directory `cwd` (`os.getcwd()` gives a directory without a
      trailing slash, or `/`). */
  function NewManifest(cwd: string): (m: Manifest)
    ensures m.entries == map[] && m.hashDb == None
    ensures Paths.Split(m.filePath).1 == DefaultFileName
    ensures Paths.NormalHead(cwd) ==> Paths.Split(m.filePath) == (cwd, DefaultFileName)
  {
    Paths.TailOfJoin(cwd, DefaultFileName);
    DefaultFileSplits(cwd);
    Manifest(map[], Paths.Join(cwd, DefaultFileName), None)
  }

  lemma DefaultFileSplits(cwd: string)
    ensures Paths.NormalHead(cwd) ==> Paths.Split(Paths.Join(cwd, DefaultFileName)) == (cwd, DefaultFileName)
  {
    if Paths.NormalHead(cwd) {
      Paths.SplitJoin(cwd, DefaultFileName);
    }
  }

  /** `len(manifest)`: the number of distinct checksums. */
  function Len(m: Manifest): (n: nat)
    ensures n == |m.entries.Keys|
  {
    |m.entries|
  }

  /** `load_from_file(path)`: a missing file is first created holding `{}`;
      the manifest then takes the file's content as its entries, replacing
      what it held, and remembers `path` for writing back. */
  function LoadFromFile(m: Manifest, path: string, files: ManifestFiles): (r: (Manifest, ManifestFiles))
    ensures path in r.1 && r.1[path] == r.0.entries
    ensures path in files ==> r.0.entries == files[path] && r.1 == files
    ensures path !in files ==> r.0.entries == map[] && r.1 == files[path := map[]]
    ensures r.0.filePath == path && r.0.hashDb == m.hashDb
  {
    var files' := if path in files then files else files[path := map[]];
    (m.(entries := files'[path], filePath := path), files')
  }

  /** Loading does not merge: what a manifest held before has no influence
      on its entries afterwards. */
  lemma LoadReplacesEntries(m1: Manifest, m2: Manifest, path: string, files: ManifestFiles)
    ensures LoadFromFile(m1, path, files).0.entries == LoadFromFile(m2, path, files).0.entries
  {
  }

  /** `merge(partial)`: deep-merges the partial record into the entries. */
  function Merge(m: Manifest, partial: map<string, Json>): (r: Manifest)
    ensures r.entries.Keys == m.entries.Keys + partial.Keys
    ensures forall c :: c in m.entries && c !in partial ==> r.entries[c] == m.entries[c]
    ensures r.filePath == m.filePath && r.hashDb == m.hashDb
  {
    DeepMergeRules(JObj(m.entries), partial);
    m.(entries := DeepMerge(JObj(m.entries), partial).fields)
  }

  /** `len` after a merge: the checksums of the partial record that were
      new are added to the count (the "New Hashes" the import reports). */
  lemma MergeCount(m: Manifest, partial: map<string, Json>)
    ensures Len(Merge(m, partial)) == Len(m) + |partial.Keys - m.entries.Keys|
  {
    var added := partial.Keys - m.entries.Keys;
    assert m.entries.Keys + partial.Keys == m.entries.Keys + added;
    assert m.entries.Keys !! added;
  }

  /** Merging the same partial record a second time changes nothing. */
  lemma MergeTwice(m: Manifest, partial: map<string, Json>)
    ensures Merge(Merge(m, partial), partial) == Merge(m, partial)
  {
    MergeIdempotent(JObj(m.entries), partial);
  }

  /** Recording a second source for a checksum already in the manifest keeps
      the first one: both paths end up under the entry's `sources`, the new
      path with the record it was given (merged into the record it already
      had, if it had one), and the entry's other fields are kept. */
  lemma MergeKeepsEverySource(m: Manifest, c: string, p1: string, p2: string,
                              rec2: Json, entry: map<string, Json>)
    requires c in m.entries && m.entries[c].JObj?
    requires "sources" in m.entries[c].fields && m.entries[c].fields["sources"].JObj?
    requires p1 in m.entries[c].fields["sources"].fields
    requires p1 != p2
    requires "sources" in entry && entry["sources"] == JObj(map[p2 := rec2])
    ensures var e := Merge(m, map[c := JObj(entry)]).entries[c];
      var before := m.entries[c].fields["sources"].fields;
      && e.JObj? && "sources" in e.fields && e.fields["sources"].JObj?
      && var sources := e.fields["sources"].fields;
      && p1 in sources && sources[p1] == before[p1]
      && p2 in sources
      && (p2 !in before ==> sources[p2] == rec2)
      && (p2 in before ==> sources[p2] == MergeValue(before[p2], rec2))
      && (forall k :: k in m.entries[c].fields && k !in entry ==> k in e.fields && e.fields[k] == m.entries[c].fields[k])
  {
    var prior := m.entries[c];
    var before := prior.fields["sources"].fields;
    DeepMergeRules(JObj(m.entries), map[c := JObj(entry)]);
    DeepMergeRules(prior, entry);
    MergeAt(before, map[p2 := rec2], p1);
    MergeAt(before, map[p2 := rec2], p2);
    if p2 !in before && rec2.JObj? {
      MergeIntoEmpty(rec2.fields);
    }
  }

  // -----------------------------------------------------------------------
  // Writing

  /** The file `write` targets: the manifest's own file when overwriting,
      otherwise a sibling `<name>_<stamp><ext>` in the same directory, where
      `stamp` is the current UTC time formatted `%Y-%m-%d_%H-%M-%S`. */
  function WritePath(m: Manifest, overwrite: bool, stamp: string): (r: string)
    ensures overwrite ==> r == m.filePath
    ensures !overwrite && !Contains(stamp, '/') ==>
      var (dir, file) := Paths.Split(m.filePath);
      var (name, ext) := Paths.SplitExt(file);
      Paths.Split(r) == (dir, name + "_" + stamp + ext)
  {
    var (dir, file) := Paths.Split(m.filePath);
    var (name, ext) := Paths.SplitExt(file);
    if overwrite then m.filePath
    else
      SiblingSplits(dir, name, ext, stamp);
      Paths.Join(dir, name + "_" + stamp + ext)
  }

  lemma SiblingSplits(dir: string, name: string, ext: string, stamp: string)
    requires Paths.NormalHead(dir)
    requires !Contains(name + ext, '/')
    ensures !Contains(stamp, '/') ==>
      Paths.Split(Paths.Join(dir, name + "_" + stamp + ext)) == (dir, name + "_" + stamp + ext)
  {
    var written := name + "_" + stamp + ext;
    if !Contains(stamp, '/') {
      forall i | 0 <= i < |written|
        ensures written[i] != '/'
      {
        if i < |name| {
          assert written[i] == (name + ext)[i];
        } else if i == |name| {
        } else if i < |name| + 1 + |stamp| {
          assert written[i] == stamp[i - |name| - 1];
        } else {
          assert written[i] == (name + ext)[i - 1 - |stamp|];
        }
      }
      Paths.SplitJoin(dir, written);
    }
  }

  /** `write(indent, overwrite)`: the entries are stored at `WritePath`; the
      indentation only changes the text layout, which is not modelled. */
  function Write(m: Manifest, overwrite: bool, stamp: string, files: ManifestFiles): (r: ManifestFiles)
    ensures WritePath(m, overwrite, stamp) in r
    ensures forall p :: p in files && p != WritePath(m, overwrite, stamp) ==> p in r && r[p] == files[p]
  {
    files[WritePath(m, overwrite, stamp) := m.entries]
  }

  /** Writing a manifest and loading the written file back gives the same
      entries. */
  lemma WriteThenLoad(m: Manifest, other: Manifest, overwrite: bool, stamp: string, files: ManifestFiles)
    ensures var path := WritePath(m, overwrite, stamp);
      LoadFromFile(other, path, Write(m, overwrite, stamp, files)).0.entries == m.entries
  {
  }

  // -----------------------------------------------------------------------
  // The hash database

  function GetHash(m: Manifest, key: string): (r: Result<Option<string>>)
    ensures m.hashDb.None? <==> r.Failure?
    ensures r.Success? ==> (r.value.Some? <==> key in m.hashDb.value)
    ensures r.Success? && r.value.Some? ==> r.value.value == m.hashDb.value[key]
  {
    match m.hashDb
    case None => Failure(AttributeError("hash_db"))
    case Some(db) => if key in db then Success(Some(db[key])) else Success(None)
  }

  function CheckHash(m: Manifest, key: string): (r: Result<bool>)
    ensures r.Success? <==> GetHash(m, key).Success?
    ensures r.Success? ==> (r.value <==> GetHash(m, key).value.Some?)
  {
    match m.hashDb
    case None => Failure(AttributeError("hash_db"))
    case Some(db) => Success(key in db)
  }

  /** `add_hash(key, value)`: afterwards `key` is present with `value` and
      every other key reads as before. */
  function AddHash(m: Manifest, key: string, value: string): (r: Result<Manifest>)
    ensures r.Success? <==> m.hashDb.Some?
    ensures r.Success? ==> GetHash(r.value, key) == Success(Some(value))
    ensures r.Success? ==> CheckHash(r.value, key) == Success(true)
    ensures r.Success? ==> forall k :: k != key ==> GetHash(r.value, k) == GetHash(m, k)
    ensures r.Success? ==> r.value.entries == m.entries && r.value.filePath == m.filePath
  {
    match m.hashDb
    case None => Failure(AttributeError("hash_db"))
    case Some(db) => Success(m.(hashDb := Some(db[key := value])))
  }

  /** `reset_hash_db()`: every key reads as absent afterwards. */
  function ResetHashDb(m: Manifest): (r: Manifest)
    ensures forall k :: GetHash(r, k) == Success(None)
    ensures r.entries == m.entries && r.filePath == m.filePath
  {
    m.(hashDb := Some(map[]))
  }

  /** `all()`: the (checksum, path) pairs of the hash database. */
  function All(m: Manifest): (r: Result<set<(string, string)>>)
    ensures r.Failure? <==> m.hashDb.None?
    ensures r.Success? ==> forall c, p :: (c, p) in r.value <==> GetHash(m, c) == Success(Some(p))
  {
    match m.hashDb
    case None => Failure(AttributeError("hash_db"))
    case Some(db) => Success(set c | c in db :: (c, db[c]))
  }

  /** A fresh manifest has no hash database: using it before
      `reset_hash_db` raises. */
  lemma HashDbNeedsReset(cwd: string, key: string, value: string)
    ensures AddHash(NewManifest(cwd), key, value).Failure?
    ensures GetHash(NewManifest(cwd), key).Failure?
    ensures AddHash(ResetHashDb(NewManifest(cwd)), key, value).Success?
  {
  }
}

/// The UploadToCollection handler (apis/collection.go): every uploaded form
/// file whose media type is exactly application/zip is read as an archive;
/// its entries are put in natural order of their names with a stable sort
/// and imported one by one (write the content-addressed file, insert one
/// image row). The first failure ends the whole request; nothing done
/// before it is undone.
///
/// ZIP decoding, mime.ParseMediaType, natural.Less, utils.WriteHashedFile
/// and the values the database supplies at each insert are given by an
/// `Env`; the spec functions below are the order of operations, and the
/// methods are proved to follow them.
module UploadApi {
  import opened Common
  import opened GoPath
  import Os
  import Types
  import opened StableSort
  import opened CollectionDb
  import opened ImageDb
  import CollectionApi

  /// An archive entry's contents, or the error opening or reading it.
  datatype EntryBody = Contents(data: seq<byte>) | OpenFails(openErr: string) | ReadFails(readErr: string)

  datatype ZipEntry = ZipEntry(name: string, body: EntryBody)

  /// An uploaded file read as an archive: it may fail to open, fail to be
  /// read as a ZIP archive, or give its entries in archive order.
  datatype Archive = OpenFailed(openErr: string) | NotAnArchive(zipErr: string) | Entries(entries: seq<ZipEntry>)

  datatype FormFile = FormFile(filename: string, contentType: string, archive: Archive)

  /// utils.WriteHashedFile's result: the path it wrote and the content hash.
  datatype WriteOutcome = Wrote(path: string, hash: string) | WriteFailed(writeErr: string)

  /// What the database supplies to one insert: the clock reading, the
  /// value of the `id` column, and the error it reports, if any.
  datatype InsertCtx = InsertCtx(now: int, id: string, fault: Option<string>)

  /// The collaborators of the upload, fixed for one request. `insert(f, e)`
  /// is the database's side of the insert for entry `e` (in processing
  /// order) of uploaded file `f`.
  datatype Env = Env(parseMediaType: string -> Result<string>,
                     natLess: (string, string) -> bool,
                     writeHashed: (seq<byte>, string, string) -> WriteOutcome,
                     insert: (nat, nat) -> InsertCtx)

  /// The files on disk and the rows of the images table.
  datatype Store = Store(files: map<string, seq<byte>>, rows: seq<Image>)

  const ZipMediaType: string := "application/zip"

  /// Entries compare by natural order of their names.
  function ByName(less: (string, string) -> bool): (r: (ZipEntry, ZipEntry) -> bool)
    ensures forall a, b :: r(a, b) == less(a.name, b.name)
  {
    (a: ZipEntry, b: ZipEntry) => less(a.name, b.name)
  }

  /// The order in which readZip imports an archive's entries.
  function ProcessingOrder(entries: seq<ZipEntry>, less: (string, string) -> bool): seq<ZipEntry> {
    Sort(entries, ByName(less))
  }

  /// importFile on one entry: open and read it, write the hashed file with
  /// the extension of the entry's name into `imagesDir`, then insert a row
  /// for the collection carrying the hash and the base name of the written
  /// path. The file stays on disk when the insert fails.
  function ImportEntry(env: Env, st: Store, imagesDir: string, cid: string, fi: nat, ei: nat, e: ZipEntry): (r: (Store, Option<Error>))
    ensures |st.rows| <= |r.0.rows| && r.0.rows[..|st.rows|] == st.rows
    ensures r.1.Some? ==> r.0.rows == st.rows
    ensures r.1.None? ==>
      && e.body.Contents?
      && var w := env.writeHashed(e.body.data, imagesDir, Ext(e.name));
      && w.Wrote?
      && |r.0.rows| == |st.rows| + 1 && r.0.rows == st.rows + [r.0.rows[|st.rows|]]
      && r.0.rows[|st.rows|].collectionId == cid
      && r.0.rows[|st.rows|].hash == w.hash
      && r.0.rows[|st.rows|].filename == Base(w.path)
      && r.0.files == st.files[w.path := e.body.data]
    ensures || r.0.files == st.files
            || (&& e.body.Contents?
                && var w := env.writeHashed(e.body.data, imagesDir, Ext(e.name));
                && w.Wrote? && r.0.files == st.files[w.path := e.body.data])
    ensures st.files.Keys <= r.0.files.Keys
  {
    match e.body
    case OpenFails(m) => (st, Some(Failure(m)))
    case ReadFails(m) => (st, Some(Failure(m)))
    case Contents(data) =>
      match env.writeHashed(data, imagesDir, Ext(e.name))
      case WriteFailed(m) => (st, Some(Failure(m)))
      case Wrote(out, hash) =>
        var files := st.files[out := data];
        var ctx := env.insert(fi, ei);
        if ctx.fault.Some? then (Store(files, st.rows), Some(Failure(ctx.fault.value)))
        else (Store(files, st.rows + [NewImage(CreateImageParams(cid, hash, Base(out), 0, 0), ctx.now, ctx.id)]), None)
  }

  /// The entry loop of readZip over `entries` (already in processing
  /// order): import each in turn and stop at the first error.
  function ImportAll(env: Env, st: Store, imagesDir: string, cid: string, fi: nat, entries: seq<ZipEntry>): (r: (Store, Option<Error>))
    ensures |st.rows| <= |r.0.rows| <= |st.rows| + |entries|
    ensures r.0.rows[..|st.rows|] == st.rows
    ensures r.1.None? ==> |r.0.rows| == |st.rows| + |entries|
    ensures st.files.Keys <= r.0.files.Keys
  {
    if entries == [] then (st, None)
    else
      var prev := ImportAll(env, st, imagesDir, cid, fi, entries[..|entries| - 1]);
      if prev.1.Some? then prev
      else
        var r := ImportEntry(env, prev.0, imagesDir, cid, fi, |entries| - 1, entries[|entries| - 1]);
        assert r.0.rows[..|st.rows|] == r.0.rows[..|prev.0.rows|][..|st.rows|];
        r
  }

  /// readZip on one uploaded file.
  function ReadZipOutcome(env: Env, st: Store, imagesDir: string, cid: string, fi: nat, archive: Archive): (Store, Option<Error>) {
    match archive
    case OpenFailed(m) => (st, Some(Failure(m)))
    case NotAnArchive(m) => (st, Some(Failure(m)))
    case Entries(es) => ImportAll(env, st, imagesDir, cid, fi, ProcessingOrder(es, env.natLess))
  }

  /// One iteration of the handler's loop over the uploaded files: an
  /// unparsable Content-Type is an error; only the exact media type
  /// application/zip is read; any other file is skipped.
  function UploadFile(env: Env, st: Store, imagesDir: string, cid: string, fi: nat, f: FormFile): (r: (Store, Option<Error>))
    ensures env.parseMediaType(f.contentType).Err? ==> r == (st, Some(env.parseMediaType(f.contentType).error))
    ensures env.parseMediaType(f.contentType).Ok? && env.parseMediaType(f.contentType).value != ZipMediaType ==> r == (st, None)
  {
    match env.parseMediaType(f.contentType)
    case Err(e) => (st, Some(e))
    case Ok(mediaType) =>
      if mediaType == ZipMediaType then ReadZipOutcome(env, st, imagesDir, cid, fi, f.archive)
      else (st, None)
  }

  /// The handler's loop over the uploaded files, stopping at the first error.
  function UploadAll(env: Env, st: Store, imagesDir: string, cid: string, files: seq<FormFile>): (r: (Store, Option<Error>)) {
    if files == [] then (st, None)
    else
      var prev := UploadAll(env, st, imagesDir, cid, files[..|files| - 1]);
      if prev.1.Some? then prev
      else UploadFile(env, prev.0, imagesDir, cid, |files| - 1, files[|files| - 1])
  }

  /// The whole handler: look the collection up (a missing one is
  /// CollectionNotFound), make sure its directories exist, then upload.
  function UploadOutcome(env: Env, collections: seq<Collection>, dirs: set<string>, st: Store, workDir: string,
                         id: string, mkdirFault: string -> Option<string>, files: seq<FormFile>)
    : (set<string>, Store, Option<Error>)
  {
    match FindById(collections, id)
    case Err(e) => (dirs, st, Some(CollectionApi.MapNotFound(e)))
    case Ok(c) =>
      var d := Types.CollectionDirById(workDir, c.id);
      var (dirs', e) := Types.CreateOutcome(dirs, st.files, d, mkdirFault);
      if e.Some? then (dirs', st, e)
      else
        var (st', e') := UploadAll(env, st, Types.Images(d), c.id, files);
        (dirs', st', e')
  }

  /// Once an entry has failed, the remaining entries are not imported.
  lemma {:induction false} ImportAllStops(env: Env, st: Store, imagesDir: string, cid: string, fi: nat,
                                          entries: seq<ZipEntry>, k: nat)
    requires k <= |entries| && ImportAll(env, st, imagesDir, cid, fi, entries[..k]).1.Some?
    ensures ImportAll(env, st, imagesDir, cid, fi, entries) == ImportAll(env, st, imagesDir, cid, fi, entries[..k])
    decreases |entries| - k
  {
    if k < |entries| {
      assert entries[..|entries| - 1][..k] == entries[..k];
      ImportAllStops(env, st, imagesDir, cid, fi, entries[..|entries| - 1], k);
    } else {
      assert entries[..k] == entries;
    }
  }

  /// Once an uploaded file has failed, the remaining files are not read.
  lemma {:induction false} UploadAllStops(env: Env, st: Store, imagesDir: string, cid: string,
                                          files: seq<FormFile>, k: nat)
    requires k <= |files| && UploadAll(env, st, imagesDir, cid, files[..k]).1.Some?
    ensures UploadAll(env, st, imagesDir, cid, files) == UploadAll(env, st, imagesDir, cid, files[..k])
    decreases |files| - k
  {
    if k < |files| {
      assert files[..|files| - 1][..k] == files[..k];
      UploadAllStops(env, st, imagesDir, cid, files[..|files| - 1], k);
    } else {
      assert files[..k] == files;
    }
  }

  /// A failed import is its first failing entry k: entries 0 .. k-1 were
  /// imported (one row each, kept), and the outcome is entry k's own
  /// failure on top of them, so nothing after it was attempted and nothing
  /// was undone.
  lemma ImportAllFirstFailure(env: Env, st: Store, imagesDir: string, cid: string, fi: nat,
                              entries: seq<ZipEntry>, k: nat)
    requires k < |entries|
    requires ImportAll(env, st, imagesDir, cid, fi, entries[..k]).1.None?
    requires ImportAll(env, st, imagesDir, cid, fi, entries[..k + 1]).1.Some?
    ensures var p := ImportAll(env, st, imagesDir, cid, fi, entries[..k]).0;
      && ImportAll(env, st, imagesDir, cid, fi, entries) == ImportEntry(env, p, imagesDir, cid, fi, k, entries[k])
      && ImportAll(env, st, imagesDir, cid, fi, entries).0.rows == p.rows
      && |p.rows| == |st.rows| + k
  {
    ImportAllStops(env, st, imagesDir, cid, fi, entries, k + 1);
    assert entries[..k + 1][..k] == entries[..k];
    assert entries[..k + 1][k] == entries[k];
  }

  /// `row` is the image row for entry `e`: the entry was read, the writer
  /// was called with its data, the images directory and the extension of
  /// its name, and the row carries the collection id, the hash and the base
  /// name of the written path, which is among `files`.
  predicate RowFrom(env: Env, imagesDir: string, cid: string, row: Image, e: ZipEntry, files: map<string, seq<byte>>) {
    && e.body.Contents?
    && var w := env.writeHashed(e.body.data, imagesDir, Ext(e.name));
    && w.Wrote?
    && row.collectionId == cid && row.hash == w.hash && row.filename == Base(w.path)
    && w.path in files
  }

  /// The row a successful importFile adds is the row for its entry.
  lemma ImportEntryRow(env: Env, st: Store, imagesDir: string, cid: string, fi: nat, ei: nat, e: ZipEntry)
    requires ImportEntry(env, st, imagesDir, cid, fi, ei, e).1.None?
    ensures var r := ImportEntry(env, st, imagesDir, cid, fi, ei, e).0;
      RowFrom(env, imagesDir, cid, r.rows[|st.rows|], e, r.files)
  {
  }

  /// Writing more files keeps a row's file on disk.
  lemma RowFromMoreFiles(env: Env, imagesDir: string, cid: string, row: Image, e: ZipEntry,
                         files: map<string, seq<byte>>, files': map<string, seq<byte>>)
    requires RowFrom(env, imagesDir, cid, row, e, files) && files.Keys <= files'.Keys
    ensures RowFrom(env, imagesDir, cid, row, e, files')
  {
    var w := env.writeHashed(e.body.data, imagesDir, Ext(e.name));
    assert w.path in files.Keys;
  }

  /// `added` are the rows for the first |added| of `entries`, in order.
  ghost predicate RowsFrom(env: Env, imagesDir: string, cid: string, added: seq<Image>, entries: seq<ZipEntry>,
                           files: map<string, seq<byte>>) {
    && |added| <= |entries|
    && forall i :: 0 <= i < |added| ==> RowFrom(env, imagesDir, cid, added[i], entries[i], files)
  }

  /// More entries after the imported ones, and more files on disk, keep
  /// the rows matched to their entries.
  lemma RowsFromWiden(env: Env, imagesDir: string, cid: string, added: seq<Image>, entries: seq<ZipEntry>,
                      more: seq<ZipEntry>, files: map<string, seq<byte>>, files': map<string, seq<byte>>)
    requires RowsFrom(env, imagesDir, cid, added, entries, files) && files.Keys <= files'.Keys
    requires |entries| <= |more| && more[..|entries|] == entries
    ensures RowsFrom(env, imagesDir, cid, added, more, files')
  {
    forall i | 0 <= i < |added|
      ensures RowFrom(env, imagesDir, cid, added[i], more[i], files')
    {
      assert more[i] == entries[i];
      RowFromMoreFiles(env, imagesDir, cid, added[i], entries[i], files, files');
    }
  }

  /// Importing the next entry after the rows for the ones before it keeps
  /// the match, with one more row when it succeeds.
  lemma RowsFromImportEntry(env: Env, imagesDir: string, cid: string, fi: nat, p: Store, base: nat,
                            entries: seq<ZipEntry>)
    requires entries != [] && |p.rows| == base + |entries| - 1
    requires RowsFrom(env, imagesDir, cid, p.rows[base..], entries[..|entries| - 1], p.files)
    ensures var q := ImportEntry(env, p, imagesDir, cid, fi, |entries| - 1, entries[|entries| - 1]).0;
      RowsFrom(env, imagesDir, cid, q.rows[base..], entries, q.files)
  {
    var n := |entries| - 1;
    var r := ImportEntry(env, p, imagesDir, cid, fi, n, entries[n]);
    var q := r.0;
    RowsFromWiden(env, imagesDir, cid, p.rows[base..], entries[..n], entries, p.files, q.files);
    if r.1.None? {
      ImportEntryRow(env, p, imagesDir, cid, fi, n, entries[n]);
      var added := q.rows[base..];
      forall i | 0 <= i < |added|
        ensures RowFrom(env, imagesDir, cid, added[i], entries[i], q.files)
      {
        if i < n {
          assert added[i] == p.rows[base..][i];
        } else {
          assert added[i] == q.rows[|p.rows|];
        }
      }
    }
  }

  /// Every row an import adds is the row for the entry at the same
  /// position in processing order.
  lemma {:induction false} ImportAllRows(env: Env, st: Store, imagesDir: string, cid: string, fi: nat,
                                         entries: seq<ZipEntry>)
    ensures var r := ImportAll(env, st, imagesDir, cid, fi, entries).0;
      RowsFrom(env, imagesDir, cid, r.rows[|st.rows|..], entries, r.files)
  {
    if entries != [] {
      var n := |entries| - 1;
      var prev := ImportAll(env, st, imagesDir, cid, fi, entries[..n]);
      ImportAllRows(env, st, imagesDir, cid, fi, entries[..n]);
      if prev.1.Some? {
        RowsFromWiden(env, imagesDir, cid, prev.0.rows[|st.rows|..], entries[..n], entries, prev.0.files, prev.0.files);
      } else {
        RowsFromImportEntry(env, imagesDir, cid, fi, prev.0, |st.rows|, entries);
      }
    }
  }

  /// The i-th row an import adds comes from the i-th entry in processing
  /// order.
  lemma ImportedRow(env: Env, st: Store, imagesDir: string, cid: string, fi: nat, entries: seq<ZipEntry>, i: nat)
    requires |st.rows| + i < |ImportAll(env, st, imagesDir, cid, fi, entries).0.rows|
    ensures i < |entries|
    ensures var r := ImportAll(env, st, imagesDir, cid, fi, entries).0;
      RowFrom(env, imagesDir, cid, r.rows[|st.rows| + i], entries[i], r.files)
  {
    ImportAllRows(env, st, imagesDir, cid, fi, entries);
    var r := ImportAll(env, st, imagesDir, cid, fi, entries).0;
    assert r.rows[|st.rows|..][i] == r.rows[|st.rows| + i];
  }

  /// An archive is processed as a stable permutation of its entries in
  /// natural order of their names: the same entries, ordered, and entries
  /// whose names the comparator does not tell apart keep their archive
  /// order.
  lemma ProcessingOrderIsStableSort(entries: seq<ZipEntry>, less: (string, string) -> bool, z: ZipEntry)
    requires StrictWeakOrder(less)
    ensures multiset(ProcessingOrder(entries, less)) == multiset(entries)
    ensures var p := ProcessingOrder(entries, less);
      forall i, j :: 0 <= i < j < |p| ==> !less(p[j].name, p[i].name)
    ensures ClassOf(ProcessingOrder(entries, less), z, ByName(less)) == ClassOf(entries, z, ByName(less))
  {
    var cmp := ByName(less);
    assert StrictWeakOrder(cmp) by {
      forall a: ZipEntry, b: ZipEntry | cmp(a, b) ensures !cmp(b, a) {
        assert less(a.name, b.name);
      }
      forall a: ZipEntry, b: ZipEntry, c: ZipEntry | !cmp(a, b) && !cmp(b, c) ensures !cmp(a, c) {
        assert !less(a.name, b.name) && !less(b.name, c.name);
      }
    }
    SortSorted(entries, cmp);
    SortStable(entries, z, cmp);
  }

  /// utils.WriteHashedFile writes content-addressed files: into the given
  /// directory, under the hash (a plain non-empty name) followed by the
  /// extension it was given.
  ghost predicate ContentAddressed(writeHashed: (seq<byte>, string, string) -> WriteOutcome) {
    forall data, dir, ext :: writeHashed(data, dir, ext).Wrote? ==>
      var w := writeHashed(data, dir, ext);
      && w.hash != "" && '.' !in w.hash && '/' !in w.hash
      && w.path == Join(dir, w.hash + ext)
  }

  /// With a content-addressed writer and a clean images directory, the
  /// filename stored for an imported entry is its hash followed by the
  /// extension of the entry's name (so the extension survives), and the
  /// file it names inside the images directory is on disk.
  lemma ImportedFileBacksRow(env: Env, st: Store, imagesDir: string, cid: string, fi: nat,
                             entries: seq<ZipEntry>, i: nat)
    requires ContentAddressed(env.writeHashed) && IsCleanDir(imagesDir)
    requires |st.rows| + i < |ImportAll(env, st, imagesDir, cid, fi, entries).0.rows|
    ensures i < |entries|
    ensures var r := ImportAll(env, st, imagesDir, cid, fi, entries).0;
      var row := r.rows[|st.rows| + i];
      && row.filename == row.hash + Ext(entries[i].name)
      && Ext(row.filename) == Ext(entries[i].name)
      && Join(imagesDir, row.filename) in r.files
  {
    ImportedRow(env, st, imagesDir, cid, fi, entries, i);
    var ext := Ext(entries[i].name);
    var w := env.writeHashed(entries[i].body.data, imagesDir, ext);
    HashedNameIsSimple(w.hash, ext);
    JoinChild(imagesDir, w.hash + ext);
    ExtOfAppended(w.hash, ext);
  }

  /// A plain non-empty hash followed by an extension is a single path
  /// element that `Join` appends verbatim.
  lemma HashedNameIsSimple(hash: string, ext: string)
    requires hash != "" && '.' !in hash && '/' !in hash
    requires ext == "" || (ext[0] == '.' && forall j :: 0 < j < |ext| ==> ext[j] != '.' && ext[j] != '/')
    ensures IsSimpleName(hash + ext)
  {
    var name := hash + ext;
    forall j | 0 <= j < |name| ensures name[j] != '/' {
      if j >= |hash| {
        assert name[j] == ext[j - |hash|];
      }
    }
    assert name[0] == hash[0];
  }

  /// Importing one entry (importFile).
  method ImportFile(fs: Os.FileSystem, images: ImageTable, env: Env, imagesDir: string, cid: string,
                    fi: nat, ei: nat, e: ZipEntry)
    returns (err: Option<Error>)
    modifies fs, images
    ensures (Store(fs.files, images.rows), err)
         == ImportEntry(env, Store(old(fs.files), old(images.rows)), imagesDir, cid, fi, ei, e)
    ensures fs.dirs == old(fs.dirs)
  {
    match e.body
    case OpenFails(m) => return Some(Failure(m));
    case ReadFails(m) => return Some(Failure(m));
    case Contents(data) =>
      var w := env.writeHashed(data, imagesDir, Ext(e.name));
      if w.WriteFailed? {
        return Some(Failure(w.writeErr));
      }
      fs.WriteFile(w.path, data);
      var ctx := env.insert(fi, ei);
      err := images.CreateImage(CreateImageParams(cid, w.hash, Base(w.path), 0, 0), ctx.now, ctx.id, ctx.fault);
  }

  /// readZip: open the archive, order its entries, import them in turn.
  method ReadZip(fs: Os.FileSystem, images: ImageTable, env: Env, imagesDir: string, cid: string,
                 fi: nat, archive: Archive)
    returns (err: Option<Error>)
    modifies fs, images
    ensures (Store(fs.files, images.rows), err)
         == ReadZipOutcome(env, Store(old(fs.files), old(images.rows)), imagesDir, cid, fi, archive)
    ensures fs.dirs == old(fs.dirs)
  {
    match archive
    case OpenFailed(m) => return Some(Failure(m));
    case NotAnArchive(m) => return Some(Failure(m));
    case Entries(es) =>
      var st0 := Store(fs.files, images.rows);
      var sorted := ProcessingOrder(es, env.natLess);
      for i := 0 to |sorted|
        invariant fs.dirs == old(fs.dirs)
        invariant ImportAll(env, st0, imagesDir, cid, fi, sorted[..i]) == (Store(fs.files, images.rows), None)
      {
        assert sorted[..i + 1][..i] == sorted[..i];
        var e := ImportFile(fs, images, env, imagesDir, cid, fi, i, sorted[i]);
        if e.Some? {
          ImportAllStops(env, st0, imagesDir, cid, fi, sorted, i + 1);
          return e;
        }
      }
      assert sorted[..|sorted|] == sorted;
      return None;
  }

  /// UploadToCollection.
  method UploadToCollection(fs: Os.FileSystem, collections: CollectionTable, images: ImageTable, env: Env,
                            workDir: string, id: string, mkdirFault: string -> Option<string>, files: seq<FormFile>)
    returns (err: Option<Error>)
    modifies fs, images
    ensures (fs.dirs, Store(fs.files, images.rows), err)
         == UploadOutcome(env, collections.rows, old(fs.dirs), Store(old(fs.files), old(images.rows)),
                          workDir, id, mkdirFault, files)
  {
    var found := collections.GetCollectionById(id);
    if found.Err? {
      return Some(CollectionApi.MapNotFound(found.error));
    }
    var collectionDir := Types.CollectionDirById(workDir, found.value.id);
    var e := Types.Create(fs, collectionDir, mkdirFault);
    if e.Some? {
      return e;
    }
    var imagesDir := Types.Images(collectionDir);
    var cid := found.value.id;
    var st0 := Store(fs.files, images.rows);
    for fi := 0 to |files|
      invariant fs.dirs == Types.CreateOutcome(old(fs.dirs), old(fs.files), collectionDir, mkdirFault).0
      invariant UploadAll(env, st0, imagesDir, cid, files[..fi]) == (Store(fs.files, images.rows), None)
    {
      assert files[..fi + 1][..fi] == files[..fi];
      var f := files[fi];
      var parsed := env.parseMediaType(f.contentType);
      if parsed.Err? {
        UploadAllStops(env, st0, imagesDir, cid, files, fi + 1);
        return Some(parsed.error);
      }
      if parsed.value == ZipMediaType {
        var e := ReadZip(fs, images, env, imagesDir, cid, fi, f.archive);
        if e.Some? {
          UploadAllStops(env, st0, imagesDir, cid, files, fi + 1);
          return e;
        }
      }
    }
    assert files[..|files|] == files;
    return None;
  }

  /// One uploaded file only adds rows of the collection, and only adds files.
  lemma UploadFileAppends(env: Env, st: Store, imagesDir: string, cid: string, fi: nat, f: FormFile)
    ensures var r := UploadFile(env, st, imagesDir, cid, fi, f).0;
      && |st.rows| <= |r.rows| && r.rows[..|st.rows|] == st.rows
      && (forall i :: |st.rows| <= i < |r.rows| ==> r.rows[i].collectionId == cid)
      && st.files.Keys <= r.files.Keys
  {
    var r := UploadFile(env, st, imagesDir, cid, fi, f).0;
    if && env.parseMediaType(f.contentType).Ok?
       && env.parseMediaType(f.contentType).value == ZipMediaType
       && f.archive.Entries?
    {
      var entries := ProcessingOrder(f.archive.entries, env.natLess);
      ImportAllRows(env, st, imagesDir, cid, fi, entries);
      forall i | |st.rows| <= i < |r.rows| ensures r.rows[i].collectionId == cid {
        assert r.rows[i] == r.rows[|st.rows|..][i - |st.rows|];
      }
    }
  }

  /// `p` is a path the writer returns for some contents written into
  /// `imagesDir`.
  ghost predicate WriterPath(env: Env, imagesDir: string, p: string) {
    exists data: seq<byte>, ext: string ::
      env.writeHashed(data, imagesDir, ext).Wrote? && env.writeHashed(data, imagesDir, ext).path == p
  }

  /// Going from `before` to `after`, no file was removed, and every file
  /// that is new or has new contents is at a path the writer returned.
  ghost predicate OnlyWriterPaths(env: Env, imagesDir: string, before: map<string, seq<byte>>,
                                  after: map<string, seq<byte>>) {
    && before.Keys <= after.Keys
    && forall p :: p in after && (p !in before || after[p] != before[p]) ==> WriterPath(env, imagesDir, p)
  }

  lemma OnlyWriterPathsTrans(env: Env, imagesDir: string, a: map<string, seq<byte>>, b: map<string, seq<byte>>,
                             c: map<string, seq<byte>>)
    requires OnlyWriterPaths(env, imagesDir, a, b) && OnlyWriterPaths(env, imagesDir, b, c)
    ensures OnlyWriterPaths(env, imagesDir, a, c)
  {
    forall p | p in c && (p !in a || c[p] != a[p]) ensures WriterPath(env, imagesDir, p) {
      if p in b && (p !in a || b[p] != a[p]) {
        assert WriterPath(env, imagesDir, p);
      } else {
        assert p !in b || c[p] != b[p];
      }
    }
  }

  /// importFile writes at most the one file the writer named.
  lemma ImportEntryWrites(env: Env, st: Store, imagesDir: string, cid: string, fi: nat, ei: nat, e: ZipEntry)
    ensures OnlyWriterPaths(env, imagesDir, st.files, ImportEntry(env, st, imagesDir, cid, fi, ei, e).0.files)
  {
    var after := ImportEntry(env, st, imagesDir, cid, fi, ei, e).0.files;
    if after != st.files {
      var w := env.writeHashed(e.body.data, imagesDir, Ext(e.name));
      assert WriterPath(env, imagesDir, w.path);
      forall p | p in after && (p !in st.files || after[p] != st.files[p])
        ensures WriterPath(env, imagesDir, p)
      {
        assert p == w.path;
      }
    }
  }

  /// An archive's import changes only files the writer named.
  lemma {:induction false} ImportAllWrites(env: Env, st: Store, imagesDir: string, cid: string, fi: nat,
                                           entries: seq<ZipEntry>)
    ensures OnlyWriterPaths(env, imagesDir, st.files, ImportAll(env, st, imagesDir, cid, fi, entries).0.files)
  {
    if entries != [] {
      var n := |entries| - 1;
      var prev := ImportAll(env, st, imagesDir, cid, fi, entries[..n]);
      ImportAllWrites(env, st, imagesDir, cid, fi, entries[..n]);
      if prev.1.None? {
        ImportEntryWrites(env, prev.0, imagesDir, cid, fi, n, entries[n]);
        OnlyWriterPathsTrans(env, imagesDir, st.files, prev.0.files,
                             ImportEntry(env, prev.0, imagesDir, cid, fi, n, entries[n]).0.files);
      }
    }
  }

  /// A whole upload, failed or not, removes no file and changes only files
  /// at paths the writer returned for the collection's images directory.
  lemma {:induction false} UploadOnlyWritesImages(env: Env, st: Store, imagesDir: string, cid: string,
                                                  files: seq<FormFile>)
    ensures OnlyWriterPaths(env, imagesDir, st.files, UploadAll(env, st, imagesDir, cid, files).0.files)
  {
    if files != [] {
      var n := |files| - 1;
      var prev := UploadAll(env, st, imagesDir, cid, files[..n]);
      UploadOnlyWritesImages(env, st, imagesDir, cid, files[..n]);
      if prev.1.None? {
        var f := files[n];
        var after := UploadFile(env, prev.0, imagesDir, cid, n, f).0.files;
        if && env.parseMediaType(f.contentType).Ok?
           && env.parseMediaType(f.contentType).value == ZipMediaType
           && f.archive.Entries?
        {
          ImportAllWrites(env, prev.0, imagesDir, cid, n, ProcessingOrder(f.archive.entries, env.natLess));
        }
        OnlyWriterPathsTrans(env, imagesDir, st.files, prev.0.files, after);
      }
    }
  }

  /// A request that fails leaves every row it inserted before the failure
  /// in place: the images table only ever grows during an upload, and the
  /// rows added all belong to the collection.
  lemma {:induction false} UploadOnlyAppends(env: Env, st: Store, imagesDir: string, cid: string, files: seq<FormFile>)
    ensures var r := UploadAll(env, st, imagesDir, cid, files).0;
      && |st.rows| <= |r.rows| && r.rows[..|st.rows|] == st.rows
      && (forall i :: |st.rows| <= i < |r.rows| ==> r.rows[i].collectionId == cid)
      && st.files.Keys <= r.files.Keys
  {
    if files != [] {
      var prev := UploadAll(env, st, imagesDir, cid, files[..|files| - 1]);
      UploadOnlyAppends(env, st, imagesDir, cid, files[..|files| - 1]);
      if prev.1.None? {
        var f := files[|files| - 1];
        var r := UploadFile(env, prev.0, imagesDir, cid, |files| - 1, f);
        assert UploadAll(env, st, imagesDir, cid, files) == r;
        UploadFileAppends(env, prev.0, imagesDir, cid, |files| - 1, f);
        assert r.0.rows[..|st.rows|] == r.0.rows[..|prev.0.rows|][..|st.rows|];
        forall i | |st.rows| <= i < |r.0.rows| ensures r.0.rows[i].collectionId == cid {
          if i < |prev.0.rows| {
            assert r.0.rows[i] == r.0.rows[..|prev.0.rows|][i];
          }
        }
      }
    }
  }

  /// Files whose media type is not exactly application/zip add nothing.
  lemma {:induction false} NonZipFilesAreSkipped(env: Env, st: Store, imagesDir: string, cid: string, files: seq<FormFile>)
    requires forall i :: 0 <= i < |files| ==>
      env.parseMediaType(files[i].contentType).Ok? && env.parseMediaType(files[i].contentType).value != ZipMediaType
    ensures UploadAll(env, st, imagesDir, cid, files) == (st, None)
  {
    if files != [] {
      NonZipFilesAreSkipped(env, st, imagesDir, cid, files[..|files| - 1]);
    }
  }

  /// Nothing is written and no row is added when the collection does not
  /// exist or its directory cannot be made.
  lemma UploadEarlyFailures(env: Env, collections: seq<Collection>, dirs: set<string>, st: Store, workDir: string,
                            id: string, mkdirFault: string -> Option<string>, files: seq<FormFile>)
    ensures FindById(collections, id).Err? ==>
      UploadOutcome(env, collections, dirs, st, workDir, id, mkdirFault, files) == (dirs, st, Some(CollectionNotFound))
    ensures (&& FindById(collections, id).Ok?
             && Types.CreateOutcome(dirs, st.files, Types.CollectionDirById(workDir, id), mkdirFault).1.Some?)
        ==> UploadOutcome(env, collections, dirs, st, workDir, id, mkdirFault, files).1 == st
  {
  }
}

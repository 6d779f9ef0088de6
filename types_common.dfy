/// The work-directory layout, collection-directory creation and the admin
/// status validator (Go package `types`).
///
/// Layout: <workDir>/data.db, <workDir>/collections/<id>/images.
module Types {
  import opened Common
  import opened GoPath
  import Os

  /// WorkDir.DatabaseFile: "data.db", directly inside the work directory.
  function DatabaseFile(workDir: string): (r: string)
    ensures IsCleanDir(workDir) ==> Dir(r) == workDir && Base(r) == "data.db"
  {
    if IsCleanDir(workDir) then
      JoinChild(workDir, "data.db");
      Join(workDir, "data.db")
    else Join(workDir, "data.db")
  }

  /// WorkDir.CollectionsDir: "collections", directly inside the work
  /// directory.
  function CollectionsDir(workDir: string): (r: string)
    ensures IsCleanDir(workDir) ==> IsCleanDir(r) && Dir(r) == workDir && Base(r) == "collections"
  {
    if IsCleanDir(workDir) then
      JoinChild(workDir, "collections");
      Join(workDir, "collections")
    else Join(workDir, "collections")
  }

  /// WorkDir.CollectionDirById: the directory named by the id directly
  /// inside the collections directory; the empty id names the collections
  /// directory itself.
  function CollectionDirById(workDir: string, id: string): (r: string)
    ensures IsCleanDir(workDir) && IsSimpleName(id) ==>
      IsCleanDir(r) && Dir(r) == CollectionsDir(workDir) && Base(r) == id
    ensures id == "" ==> r == CollectionsDir(workDir)
  {
    var cs := CollectionsDir(workDir);
    if IsCleanDir(workDir) && IsSimpleName(id) then
      JoinChild(cs, id);
      Join(cs, id)
    else Join(cs, id)
  }

  /// CollectionDir.Images: "images", directly inside a collection's
  /// directory.
  function Images(collectionDir: string): (r: string)
    ensures IsCleanDir(collectionDir) ==> IsCleanDir(r) && Dir(r) == collectionDir && Base(r) == "images"
  {
    if IsCleanDir(collectionDir) then
      JoinChild(collectionDir, "images");
      Join(collectionDir, "images")
    else Join(collectionDir, "images")
  }

  /// The database file and the collections directory are two distinct
  /// paths of a clean work directory.
  lemma WorkDirLayout(workDir: string)
    requires IsCleanDir(workDir)
    ensures DatabaseFile(workDir) != CollectionsDir(workDir)
  {
  }

  /// Collections with distinct simple ids get distinct directories and
  /// distinct images directories, and no images directory is a collection
  /// directory.
  lemma CollectionLayout(workDir: string, id: string, id': string)
    requires IsCleanDir(workDir) && IsSimpleName(id) && IsSimpleName(id')
    ensures id != id' ==> CollectionDirById(workDir, id) != CollectionDirById(workDir, id')
    ensures id != id' ==> Images(CollectionDirById(workDir, id)) != Images(CollectionDirById(workDir, id'))
    ensures Images(CollectionDirById(workDir, id)) != CollectionDirById(workDir, id')
  {
    var d, d' := CollectionDirById(workDir, id), CollectionDirById(workDir, id');
    assert Dir(Images(d)) == d && Dir(Images(d')) == d';
    assert Dir(d') == CollectionsDir(workDir);
  }

  /// One os.Mkdir as CollectionDir.Create's loop runs it: after an error
  /// nothing more is attempted, and "already exists" counts as success.
  function MkdirStep(state: (set<string>, Option<Error>), files: map<string, seq<byte>>, p: string,
                     fault: string -> Option<string>): (r: (set<string>, Option<Error>))
    ensures state.0 <= r.0 <= state.0 + {p}
    ensures state.1 == None && r.1 == None ==> p in r.0 || p in files
    ensures state.1.Some? ==> r == state
    ensures state.1 == None && (p in state.0 || p in files) ==> r == (state.0, None)
    ensures state.1 != Some(Exist) ==> r.1 != Some(Exist)
  {
    if state.1.Some? then state
    else
      var e := Os.MkdirError(state.0, files, p, fault(p));
      if e == None then (state.0 + {p}, None)
      else if e == Some(Exist) then (state.0, None)
      else (state.0, e)
  }

  /// The effect of os.Mkdir on each of `paths` in turn, as CollectionDir.Create
  /// runs it: "already exists" is tolerated, and the first other error stops
  /// the walk. The result is the new set of directories and the error.
  function MkdirAll(dirs: set<string>, files: map<string, seq<byte>>, paths: seq<string>,
                    fault: string -> Option<string>): (r: (set<string>, Option<Error>))
    ensures dirs <= r.0
    ensures r.0 <= dirs + set i | 0 <= i < |paths| :: paths[i]
    ensures r.1 != Some(Exist)
  {
    if paths == [] then (dirs, None)
    else MkdirStep(MkdirAll(dirs, files, paths[..|paths| - 1], fault), files, paths[|paths| - 1], fault)
  }

  /// CollectionDir.Create's outcome: the collection directory, then its
  /// images directory.
  function CreateOutcome(dirs: set<string>, files: map<string, seq<byte>>, d: string,
                         fault: string -> Option<string>): (set<string>, Option<Error>)
  {
    MkdirAll(dirs, files, [d, Images(d)], fault)
  }

  lemma CreateSteps(dirs: set<string>, files: map<string, seq<byte>>, d: string, fault: string -> Option<string>)
    ensures CreateOutcome(dirs, files, d, fault)
         == MkdirStep(MkdirStep((dirs, None), files, d, fault), files, Images(d), fault)
  {
    assert [d, Images(d)][..1] == [d];
    assert [d][..0] == [];
    assert MkdirAll(dirs, files, [], fault) == (dirs, None);
    assert MkdirAll(dirs, files, [d], fault) == MkdirStep((dirs, None), files, d, fault);
  }

  /// Once a walk has failed, the remaining paths are not attempted.
  lemma {:induction false} MkdirAllStops(dirs: set<string>, files: map<string, seq<byte>>, paths: seq<string>,
                                         k: nat, fault: string -> Option<string>)
    requires k <= |paths| && MkdirAll(dirs, files, paths[..k], fault).1.Some?
    ensures MkdirAll(dirs, files, paths, fault) == MkdirAll(dirs, files, paths[..k], fault)
    decreases |paths| - k
  {
    if k < |paths| {
      assert paths[..|paths| - 1][..k] == paths[..k];
      MkdirAllStops(dirs, files, paths[..|paths| - 1], k, fault);
    } else {
      assert paths[..k] == paths;
    }
  }

  /// CollectionDir.Create: make the collection directory, then its images
  /// directory, treating "already exists" as success.
  method Create(fs: Os.FileSystem, d: string, fault: string -> Option<string>) returns (err: Option<Error>)
    modifies fs
    ensures (fs.dirs, err) == CreateOutcome(old(fs.dirs), old(fs.files), d, fault)
    ensures fs.files == old(fs.files)
  {
    err := MkdirEach(fs, [d, Images(d)], fault);
  }

  /// The loop of CollectionDir.Create: `os.Mkdir` on each path in turn,
  /// stopping at the first error other than "already exists".
  method MkdirEach(fs: Os.FileSystem, paths: seq<string>, fault: string -> Option<string>)
    returns (err: Option<Error>)
    modifies fs
    ensures (fs.dirs, err) == MkdirAll(old(fs.dirs), old(fs.files), paths, fault)
    ensures fs.files == old(fs.files)
  {
    for i := 0 to |paths|
      invariant fs.files == old(fs.files)
      invariant MkdirAll(old(fs.dirs), old(fs.files), paths[..i], fault) == (fs.dirs, None)
    {
      assert paths[..i + 1][..i] == paths[..i];
      var e := fs.Mkdir(paths[i], fault(paths[i]));
      if e.Some? && e != Some(Exist) {
        MkdirAllStops(old(fs.dirs), old(fs.files), paths, i + 1, fault);
        return e;
      }
    }
    assert paths[..|paths|] == paths;
    return None;
  }

  /// After a successful Create, something is present at both paths and no
  /// directory was lost; where no file was in the way, both are directories.
  lemma CreatePresent(dirs: set<string>, files: map<string, seq<byte>>, d: string, fault: string -> Option<string>)
    requires CreateOutcome(dirs, files, d, fault).1 == None
    ensures var ds := CreateOutcome(dirs, files, d, fault).0;
      && dirs <= ds
      && (d in ds || d in files) && (Images(d) in ds || Images(d) in files)
      && (d !in files ==> d in ds) && (Images(d) !in files ==> Images(d) in ds)
  {
    CreateSteps(dirs, files, d, fault);
  }

  /// Create is idempotent: running it again after a success succeeds and
  /// changes nothing, whatever faults the machine would report.
  lemma CreateIdempotent(dirs: set<string>, files: map<string, seq<byte>>, d: string,
                         fault: string -> Option<string>, fault2: string -> Option<string>)
    requires CreateOutcome(dirs, files, d, fault).1 == None
    ensures var ds := CreateOutcome(dirs, files, d, fault).0;
      CreateOutcome(ds, files, d, fault2) == (ds, None)
  {
    var ds := CreateOutcome(dirs, files, d, fault).0;
    CreatePresent(dirs, files, d, fault);
    CreateSteps(ds, files, d, fault2);
  }

  /// If the collection directory cannot be made for any reason but "already
  /// exists", Create returns that error and the images directory is not
  /// attempted: no directory is added.
  lemma CreateRootFailure(dirs: set<string>, files: map<string, seq<byte>>, d: string, fault: string -> Option<string>)
    requires Os.MkdirError(dirs, files, d, fault(d)) !in {None, Some(Exist)}
    ensures CreateOutcome(dirs, files, d, fault) == (dirs, Os.MkdirError(dirs, files, d, fault(d)))
  {
    CreateSteps(dirs, files, d, fault);
  }

  /// The two admin statuses.
  datatype AdminStatus = NotFixed | Fixed

  function StatusName(a: AdminStatus): string {
    match a
    case NotFixed => "not-fixed"
    case Fixed => "fixed"
  }

  /// IsValidAdminStatus: the string names one of the admin statuses.
  function IsValidAdminStatus(s: string): (r: bool)
    ensures r <==> exists a :: StatusName(a) == s
  {
    assert StatusName(NotFixed) == "not-fixed" && StatusName(Fixed) == "fixed";
    s == "not-fixed" || s == "fixed"
  }

  /// The dynamic value ValidateAdminStatus receives: a string, a possibly
  /// nil pointer to a string, or anything else.
  datatype AnyValue = StringValue(s: string) | StringPointer(p: Option<string>) | OtherValue

  /// A status string the validator lets through: empty, or a valid status.
  predicate Acceptable(s: string) {
    s == "" || IsValidAdminStatus(s)
  }

  /// ValidateAdminStatus: nil for an acceptable string, a nil pointer, or a
  /// pointer to an acceptable string; "invalid admin status" for any other
  /// string; "expected string" for values of any other type.
  function ValidateAdminStatus(v: AnyValue): (r: Option<Error>)
    ensures r == None <==> (|| v == StringPointer(None)
                            || (v.StringValue? && Acceptable(v.s))
                            || (v.StringPointer? && v.p.Some? && Acceptable(v.p.value)))
    ensures v.OtherValue? ==> r == Some(Failure("expected string"))
    ensures !v.OtherValue? && r != None ==> r == Some(Failure("invalid admin status"))
  {
    match v
    case StringValue(s) =>
      if s == "" then None
      else if !IsValidAdminStatus(s) then Some(Failure("invalid admin status"))
      else None
    case StringPointer(p) =>
      if p.None? then None
      else if p.value == "" then None
      else if !IsValidAdminStatus(p.value) then Some(Failure("invalid admin status"))
      else None
    case OtherValue => Some(Failure("expected string"))
  }
}

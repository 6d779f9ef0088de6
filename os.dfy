/// The filesystem as the service sees it through Go's `os` package: a set
/// of directory paths and a map from file paths to contents. Failures that
/// depend on the machine (permissions, full disks, I/O errors) are given to
/// each call as a fault message; `None` means the call meets no such failure.
module Os {
  import opened Common
  import GoPath

  /// What os.Mkdir(p) reports: ErrExist when anything is already at `p`
  /// (a directory or a file), ENOTDIR when the parent path is a file,
  /// ErrNotExist when the parent directory is missing, the machine's failure
  /// if there is one, and nil otherwise.
  function MkdirError(dirs: set<string>, files: map<string, seq<byte>>, p: string, fault: Option<string>): (r: Option<Error>)
    ensures r == None <==> && p !in dirs && p !in files && GoPath.Dir(p) !in files && GoPath.Dir(p) in dirs
                           && fault == None
    ensures r == Some(Exist) <==> p in dirs || p in files
    ensures r == Some(NotDir) <==> !(p in dirs || p in files) && GoPath.Dir(p) in files
    ensures r == Some(NotExist) <==> !(p in dirs || p in files) && GoPath.Dir(p) !in files && GoPath.Dir(p) !in dirs
  {
    if p in dirs || p in files then Some(Exist)
    else if GoPath.Dir(p) in files then Some(NotDir)
    else if GoPath.Dir(p) !in dirs then Some(NotExist)
    else if fault.Some? then Some(Failure(fault.value))
    else None
  }

  /// `q` is `p` itself or lies somewhere below it.
  predicate IsUnder(q: string, p: string) {
    q == p || (p != "" && |q| > |p| && q[..|p|] == p && (p[|p| - 1] == '/' || q[|p|] == '/'))
  }

  class FileSystem {
    var dirs: set<string>
    var files: map<string, seq<byte>>

    constructor(dirs0: set<string>, files0: map<string, seq<byte>>)
      ensures dirs == dirs0 && files == files0
    {
      dirs, files := dirs0, files0;
    }

    /// os.Mkdir(p): creates the directory exactly when no error is reported.
    method Mkdir(p: string, fault: Option<string>) returns (err: Option<Error>)
      modifies this
      ensures err == MkdirError(old(dirs), old(files), p, fault)
      ensures dirs == if err == None then old(dirs) + {p} else old(dirs)
      ensures files == old(files)
    {
      err := MkdirError(dirs, files, p, fault);
      if err == None {
        dirs := dirs + {p};
      }
    }

    /// Writing `data` to `p` creates or replaces that one file.
    method WriteFile(p: string, data: seq<byte>)
      modifies this
      ensures files == old(files)[p := data]
      ensures dirs == old(dirs)
    {
      files := files[p := data];
    }

    /// os.RemoveAll(p): removes `p` and everything below it; a missing `p`
    /// is not an error.
    method RemoveAll(p: string, fault: Option<string>) returns (err: Option<Error>)
      modifies this
      ensures fault.Some? ==> err == Some(Failure(fault.value)) && dirs == old(dirs) && files == old(files)
      ensures fault.None? ==> err == None
      ensures fault.None? ==> dirs == set d | d in old(dirs) && !IsUnder(d, p)
      ensures fault.None? ==> files == map f | f in old(files) && !IsUnder(f, p) :: old(files)[f]
    {
      if fault.Some? {
        return Some(Failure(fault.value));
      }
      dirs := set d | d in dirs && !IsUnder(d, p);
      files := map f | f in files && !IsUnder(f, p) :: files[f];
      err := None;
    }
  }
}

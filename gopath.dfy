/// The parts of Go's slash-separated `path` package that the work-directory
/// layout and the upload pipeline use. `Base` and `Ext` follow the library
/// exactly; `Join` and `Dir` are stated for clean paths (`IsCleanDir`: the
/// root "/", the current directory ".", or names with no empty, `.` or `..`
/// segments and no trailing slash), which is what the service feeds them.
module GoPath {

  /// A clean directory path, as `path.Clean` leaves it: the root "/", the
  /// current directory ".", or simple names separated by single slashes,
  /// with an optional leading slash.
  predicate IsCleanDir(d: string) {
    d == "/" || d == "." || CleanSegments(d)
  }

  /// One or more simple names separated by single slashes, optionally
  /// preceded by a slash; read from the last segment backwards.
  predicate CleanSegments(d: string)
    decreases |d|
  {
    var i := LastIndex(d, '/');
    IsSimpleName(d[i + 1..]) && (i <= 0 || CleanSegments(d[..i]))
  }

  /// A single path element that `Join` appends verbatim.
  predicate IsSimpleName(n: string) {
    n != "" && n != "." && n != ".." && '/' !in n
  }

  /// The index of the last `c` in `s`, or -1 when there is none.
  function LastIndex(s: string, c: char): (r: int)
    ensures -1 <= r < |s|
    ensures r >= 0 ==> s[r] == c
    ensures forall j :: r < j < |s| ==> s[j] != c
  {
    if s == [] then -1
    else if s[|s| - 1] == c then |s| - 1
    else LastIndex(s[..|s| - 1], c)
  }

  /// path.Join(dir, elem): empty elements are dropped, `.` adds nothing, and
  /// otherwise exactly one slash separates the two.
  function Join(dir: string, elem: string): (r: string)
    ensures dir == "" ==> r == elem
    ensures dir == "." && IsSimpleName(elem) ==> r == elem
    ensures IsCleanDir(dir) && dir != "." && IsSimpleName(elem) ==> |r| > |dir| && r[..|dir|] == dir
  {
    if dir == "" then elem
    else if elem == "" || elem == "." then dir
    else if dir == "." then elem
    else if dir[|dir| - 1] == '/' then dir + elem
    else dir + "/" + elem
  }

  /// The path with every trailing slash removed.
  function TrimTrailingSlashes(p: string): (r: string)
    ensures |r| <= |p| && r == p[..|r|]
    ensures r == "" || r[|r| - 1] != '/'
    ensures forall j :: |r| <= j < |p| ==> p[j] == '/'
  {
    if p != "" && p[|p| - 1] == '/' then TrimTrailingSlashes(p[..|p| - 1]) else p
  }

  /// path.Base: the last element after trailing slashes are removed; "."
  /// for the empty path and "/" for a path of slashes only.
  function Base(p: string): (r: string)
    ensures r != ""
    ensures r == "/" || '/' !in r
    ensures p == "" ==> r == "."
  {
    if p == "" then "."
    else
      var t := TrimTrailingSlashes(p);
      var u := t[LastIndex(t, '/') + 1..];
      if u == "" then "/" else u
  }

  /// path.Dir on a clean path: everything before the last slash, "/" when
  /// that slash is the first character, "." when there is no slash.
  function Dir(p: string): (r: string)
    ensures r != ""
    ensures '/' !in p ==> r == "."
  {
    var i := LastIndex(p, '/');
    if i < 0 then "." else if i == 0 then "/" else p[..i]
  }

  /// path.Ext: the suffix starting at the last '.' of the final element, or
  /// "" when the final element has no '.'.
  function Ext(p: string): (r: string)
    ensures |r| <= |p| && r == p[|p| - |r|..]
    ensures r != "" ==> r[0] == '.' && forall j :: 0 < j < |r| ==> r[j] != '.' && r[j] != '/'
  {
    if p == [] || p[|p| - 1] == '/' then ""
    else if p[|p| - 1] == '.' then "."
    else
      var e := Ext(p[..|p| - 1]);
      if e == "" then ""
      else e + [p[|p| - 1]]
  }

  /// Joining a simple name onto a clean directory makes a direct child:
  /// `Dir` gives the directory back and `Base` gives the name back.
  lemma JoinChild(dir: string, name: string)
    requires IsCleanDir(dir) && IsSimpleName(name)
    ensures Dir(Join(dir, name)) == dir
    ensures Base(Join(dir, name)) == name
    ensures IsCleanDir(Join(dir, name))
  {
    var p := Join(dir, name);
    if dir == "." {
      assert LastIndex(p, '/') == -1 && p[0..] == p;
      assert TrimTrailingSlashes(p) == p;
    } else {
      var k := if dir == "/" then 0 else |dir|;
      LastSlashOfChild(p, k, name);
      if dir != "/" {
        assert p[..k] == dir;
      }
      assert Base(p) == name;
      assert CleanSegments(p);
    }
  }

  /// In `p`, a slash at `k` followed by a simple name is the last slash, and
  /// no slash trails.
  lemma LastSlashOfChild(p: string, k: nat, name: string)
    requires IsSimpleName(name) && k < |p| && p[k] == '/' && p[k + 1..] == name
    ensures LastIndex(p, '/') == k
    ensures TrimTrailingSlashes(p) == p
  {
    assert p[|p| - 1] == name[|name| - 1];
    assert forall j :: k < j < |p| ==> p[j] != '/' by {
      forall j | k < j < |p| ensures p[j] != '/' {
        assert p[j] == name[j - k - 1];
      }
    }
  }

  /// The extension is empty exactly when the last '.' comes before the
  /// last '/' (or there is no '.'), and otherwise it starts at the last '.'.
  lemma {:induction false} ExtAtLastDot(p: string)
    ensures Ext(p) == "" <==> LastIndex(p, '.') <= LastIndex(p, '/')
    ensures Ext(p) != "" ==> Ext(p) == p[LastIndex(p, '.')..]
  {
    if p != [] && p[|p| - 1] != '/' && p[|p| - 1] != '.' {
      ExtAtLastDot(p[..|p| - 1]);
      if Ext(p) != "" {
        var q := p[..|p| - 1];
        assert p[LastIndex(p, '.')..] == q[LastIndex(q, '.')..] + [p[|p| - 1]];
      }
    }
  }

  /// A file name with no '.' and no '/' has no extension.
  lemma ExtOfPlainName(h: string)
    requires '.' !in h && '/' !in h
    ensures Ext(h) == ""
  {
    ExtAtLastDot(h);
  }

  /// Appending an extension to a plain name keeps that extension: the stored
  /// file name "<hash><ext>" has the same `Ext` as the entry it came from.
  lemma {:induction false} ExtOfAppended(h: string, e: string)
    requires '.' !in h && '/' !in h
    requires e == "" || (e[0] == '.' && forall j :: 0 < j < |e| ==> e[j] != '.' && e[j] != '/')
    ensures Ext(h + e) == e
  {
    if e == "" {
      assert h + e == h;
      ExtOfPlainName(h);
    } else if |e| == 1 {
      assert (h + e)[|h + e| - 1] == '.';
    } else {
      var e' := e[..|e| - 1];
      assert (h + e)[..|h + e| - 1] == h + e';
      ExtOfAppended(h, e');
      assert e' + [e[|e| - 1]] == e;
    }
  }
}

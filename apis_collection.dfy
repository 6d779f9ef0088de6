/// The collection handlers of the HTTP API (apis/collection.go), apart from
/// the upload handler, which has a module of its own: page-option parsing,
/// the body validators, the change set an edit computes, and the order in
/// which create and delete touch the filesystem and the database.
module CollectionApi {
  import opened Common
  import opened GoStrconv
  import Os
  import Types
  import opened CollectionDb

  /// A parsed query string: each key with its values in order (url.Values).
  type Query = map<string, seq<string>>

  /// url.Values.Get: the first value of the key, or "".
  function QueryGet(q: Query, key: string): string {
    if key in q && q[key] != [] then q[key][0] else ""
  }

  const DefaultPerPage: int := 100

  /// getPageOptions: perPage defaults to 100 and is replaced only by a
  /// parsed value above 0; page defaults to 0 and any non-empty value
  /// replaces it by its parse (0 when it does not parse).
  function GetPageOptions(q: Query): (r: FetchOptions)
    ensures r.perPage > 0 && InInt64Range(r)
    ensures QueryGet(q, "perPage") == "" ==> r.perPage == DefaultPerPage
    ensures QueryGet(q, "perPage") != "" && Atoi(QueryGet(q, "perPage")) > 0 ==> r.perPage == Atoi(QueryGet(q, "perPage"))
    ensures Atoi(QueryGet(q, "perPage")) <= 0 ==> r.perPage == DefaultPerPage
    ensures QueryGet(q, "page") == "" ==> r.page == 0
    ensures QueryGet(q, "page") != "" ==> r.page == Atoi(QueryGet(q, "page"))
    ensures r.perPage == DefaultPerPage || r.perPage == Atoi(QueryGet(q, "perPage"))
  {
    var perPage := if QueryGet(q, "perPage") != "" && Atoi(QueryGet(q, "perPage")) > 0
                   then Atoi(QueryGet(q, "perPage")) else DefaultPerPage;
    var page := if QueryGet(q, "page") != "" then Atoi(QueryGet(q, "page")) else 0;
    FetchOptions(perPage, page)
  }

  /// Numbers written in decimal come back as themselves: a positive perPage
  /// is taken, zero or a negative one keeps the default, and any page
  /// (negative ones included) passes through.
  lemma PageOptionsOfNumbers(q: Query, perPage: int, page: int)
    requires MinInt64 <= perPage <= MaxInt64 && MinInt64 <= page <= MaxInt64
    requires QueryGet(q, "perPage") == Decimal(perPage) && QueryGet(q, "page") == Decimal(page)
    ensures GetPageOptions(q) == FetchOptions(if perPage > 0 then perPage else DefaultPerPage, page)
  {
    AtoiDecimal(perPage);
    AtoiDecimal(page);
  }

  /// A value that is not a number leaves the default for perPage and gives
  /// page 0.
  lemma PageOptionsOfWords(q: Query)
    requires QueryGet(q, "perPage") != "" && !IsDigit(QueryGet(q, "perPage")[0])
    requires QueryGet(q, "perPage")[0] != '+' && QueryGet(q, "perPage")[0] != '-'
    requires QueryGet(q, "page") != "" && !IsDigit(QueryGet(q, "page")[0])
    requires QueryGet(q, "page")[0] != '+' && QueryGet(q, "page")[0] != '-'
    ensures GetPageOptions(q) == FetchOptions(DefaultPerPage, 0)
  {
    AtoiNonNumeric(QueryGet(q, "perPage"));
    AtoiNonNumeric(QueryGet(q, "page"));
  }

  /// Malformed numbers ("12x", "+", "-") leave the default for perPage and
  /// give page 0; numbers beyond int64 are clamped, so a huge perPage is
  /// taken as the largest int64 and a huge negative page as the smallest.
  lemma PageOptionsOfMalformed(q: Query, n: int, t: string, big: nat)
    requires MinInt64 <= n <= MaxInt64 && t != "" && !IsDigit(t[0])
    ensures QueryGet(q, "perPage") == Decimal(n) + t && QueryGet(q, "page") in {"+", "-"} ==>
      GetPageOptions(q) == FetchOptions(DefaultPerPage, 0)
    ensures QueryGet(q, "perPage") == Digits(big) && QueryGet(q, "page") == "-" + Digits(big) && big > -MinInt64 ==>
      GetPageOptions(q) == FetchOptions(MaxInt64, MinInt64)
  {
    AtoiTrailingJunk(n, t);
    AtoiSignOnly();
    AtoiClamp(big);
  }

  /// The validation error for a required title that is empty.
  const BlankTitle: Error := Failure("title")

  /// CreateCollectionBody.Validate: the title is required.
  function ValidateCreateBody(title: string): (r: Option<Error>)
    ensures r == None <==> title != ""
    ensures r != None ==> r == Some(BlankTitle)
  {
    if title == "" then Some(BlankTitle) else None
  }

  /// EditCollectionBody.Validate: a title may be left out, but one that is
  /// sent must not be empty.
  function ValidateEditBody(title: Option<string>): (r: Option<Error>)
    ensures r == None <==> title.None? || title.value != ""
    ensures r != None ==> r == Some(BlankTitle)
  {
    if title.Some? && title.value == "" then Some(BlankTitle) else None
  }

  /// The change set EditCollection builds: the title is written only when
  /// one is sent and it differs from the stored title; an absent title is
  /// the zero Change; `created` is never changed by this handler.
  function EditChanges(title: Option<string>, stored: Collection): (r: CollectionChanges)
    ensures r.title.changed <==> title.Some? && title.value != stored.title
    ensures title.Some? ==> r.title.value == title.value
    ensures title.None? ==> r.title == Change("", false)
    ensures r.created == Change(0, false)
    ensures AnyChanged(r) <==> r.title.changed
  {
    var t := if title.Some? then Change(title.value, title.value != stored.title) else Change("", false);
    CollectionChanges(t, Change(0, false))
  }

  /// Sending the title already stored, or none, writes nothing: the table
  /// and the `updated` stamp stay as they are, whatever the database would
  /// have reported.
  lemma EditWithoutNewTitleIsNoOp(rows: seq<Collection>, stored: Collection, title: Option<string>, now: int, fault: Option<string>)
    requires title.None? || title.value == stored.title
    ensures UpdateOutcome(rows, stored.id, EditChanges(title, stored), now, fault) == (rows, None)
  {
  }

  /// Sending a new title renames exactly the stored collection and stamps
  /// it with the time of the edit.
  lemma EditWithNewTitleRenames(rows: seq<Collection>, stored: Collection, title: string, now: int)
    requires title != stored.title
    ensures var r := UpdateOutcome(rows, stored.id, EditChanges(Some(title), stored), now, None).0;
      && |r| == |rows|
      && forall i :: 0 <= i < |rows| ==>
           r[i] == if rows[i].id == stored.id then rows[i].(title := title, updated := now) else rows[i]
  {
  }

  /// The handlers' translation of a lookup error: a missing row becomes
  /// CollectionNotFound, anything else passes through.
  function MapNotFound(e: Error): (r: Error)
    ensures e == ItemNotFound ==> r == CollectionNotFound
    ensures e != ItemNotFound ==> r == e
  {
    if e == ItemNotFound then CollectionNotFound else e
  }

  /// CreateCollection: make the collection's directory (and its images
  /// directory) first, then insert the row; `id` is the one the handler
  /// generated, and it is what the handler returns.
  method CreateCollectionHandler(fs: Os.FileSystem, table: CollectionTable, workDir: string, title: string,
                                 id: string, generatedId: string, now: int,
                                 mkdirFault: string -> Option<string>, insertFault: Option<string>)
    returns (r: Result<string>)
    modifies fs, table
    ensures var (dirs, e) := Types.CreateOutcome(old(fs.dirs), old(fs.files), Types.CollectionDirById(workDir, id), mkdirFault);
      && fs.dirs == dirs && fs.files == old(fs.files)
      && (e.Some? ==> r == Err(e.value) && table.rows == old(table.rows))
      && (e.None? && insertFault.Some? ==> r == Err(Failure(insertFault.value)) && table.rows == old(table.rows))
      && (e.None? && insertFault.None? ==>
            r == Ok(id) && table.rows == old(table.rows) + [NewCollection(CreateCollectionParams(id, title, 0, 0), now, generatedId)])
  {
    var collectionDir := Types.CollectionDirById(workDir, id);
    var e := Types.Create(fs, collectionDir, mkdirFault);
    if e.Some? {
      return Err(e.value);
    }
    var inserted := table.CreateCollection(CreateCollectionParams(id, title, 0, 0), now, generatedId, insertFault);
    if inserted.Err? {
      return Err(inserted.error);
    }
    r := Ok(id);
  }

  /// EditCollection: look the collection up, then update it with the change
  /// set computed against the stored row.
  method EditCollectionHandler(table: CollectionTable, id: string, title: Option<string>, now: int, fault: Option<string>)
    returns (err: Option<Error>)
    modifies table
    ensures FindById(old(table.rows), id).Err? ==> err == Some(CollectionNotFound) && table.rows == old(table.rows)
    ensures FindById(old(table.rows), id).Ok? ==>
      var stored := FindById(old(table.rows), id).value;
      (table.rows, err) == UpdateOutcome(old(table.rows), stored.id, EditChanges(title, stored), now, fault)
  {
    var found := table.GetCollectionById(id);
    if found.Err? {
      return Some(MapNotFound(found.error));
    }
    var changes := EditChanges(title, found.value);
    err := table.UpdateCollection(found.value.id, changes, now, fault);
  }

  /// DeleteCollection: look the collection up, remove its row, and only
  /// then remove its directory tree.
  method DeleteCollectionHandler(fs: Os.FileSystem, table: CollectionTable, workDir: string, id: string,
                                 removeFault: Option<string>, removeAllFault: Option<string>)
    returns (err: Option<Error>)
    modifies fs, table
    ensures FindById(old(table.rows), id).Err? ==>
      err == Some(CollectionNotFound) && table.rows == old(table.rows)
      && fs.dirs == old(fs.dirs) && fs.files == old(fs.files)
    ensures FindById(old(table.rows), id).Ok? && removeFault.Some? ==>
      err == Some(Failure(removeFault.value)) && table.rows == old(table.rows)
      && fs.dirs == old(fs.dirs) && fs.files == old(fs.files)
    ensures FindById(old(table.rows), id).Ok? && removeFault.None? ==>
      var dir := Types.CollectionDirById(workDir, id);
      && table.rows == WithoutId(old(table.rows), id)
      && (removeAllFault.Some? ==> err == Some(Failure(removeAllFault.value)) && fs.dirs == old(fs.dirs) && fs.files == old(fs.files))
      && (removeAllFault.None? ==>
            && err == None
            && fs.dirs == (set d | d in old(fs.dirs) && !Os.IsUnder(d, dir))
            && fs.files == (map f | f in old(fs.files) && !Os.IsUnder(f, dir) :: old(fs.files)[f]))
  {
    var found := table.GetCollectionById(id);
    if found.Err? {
      return Some(MapNotFound(found.error));
    }
    err := table.RemoveCollection(found.value.id, removeFault);
    if err.Some? {
      return err;
    }
    var dir := Types.CollectionDirById(workDir, found.value.id);
    err := fs.RemoveAll(dir, removeAllFault);
  }
}

/// The collections table and the paging shared by every list query
/// (database/collection.go). The table is the sequence of its rows in
/// insertion order; SQL text, goqu and SQLite are not modelled. Each write
/// takes the value time.Now().UnixMilli() would return as `now`, and the
/// failure the database would report, if any, as `fault`.
module CollectionDb {
  import opened Common
  import GoStrconv

  datatype Collection = Collection(id: string, title: string, created: int, updated: int)

  datatype CreateCollectionParams = CreateCollectionParams(id: string, title: string, created: int, updated: int)

  /// A field of a partial update: the new value, and whether it is written.
  datatype Change<T> = Change(value: T, changed: bool)

  datatype CollectionChanges = CollectionChanges(title: Change<string>, created: Change<int>)

  datatype FetchOptions = FetchOptions(perPage: int, page: int)

  /// types.Page without its TotalPages field (see README).
  datatype Page = Page(page: int, perPage: int, totalItems: nat)

  datatype Paged<T> = Paged(items: seq<T>, page: Page)

  const Uint64Modulus: int := 0x1_0000_0000_0000_0000

  /// Go's `uint(x)` of a product computed in 64-bit `int`: both the signed
  /// wrap-around and the conversion keep the value modulo 2^64.
  function ToUint(x: int): (r: nat)
    ensures r < Uint64Modulus
    ensures 0 <= x < Uint64Modulus ==> r == x
  {
    x % Uint64Modulus
  }

  /// Both fields are values of Go's 64-bit `int`.
  predicate InInt64Range(opts: FetchOptions) {
    GoStrconv.MinInt64 <= opts.perPage <= GoStrconv.MaxInt64 && GoStrconv.MinInt64 <= opts.page <= GoStrconv.MaxInt64
  }

  /// The OFFSET clause: uint(Page * PerPage).
  function Offset(opts: FetchOptions): nat {
    ToUint(opts.page * opts.perPage)
  }

  function Min(a: int, b: int): int {
    if a <= b then a else b
  }

  /// The rows a list query returns: all of them when PerPage <= 0, and
  /// otherwise LIMIT uint(PerPage) OFFSET uint(Page * PerPage).
  function Window<T>(rows: seq<T>, opts: FetchOptions): (r: seq<T>)
    ensures opts.perPage <= 0 ==> r == rows
    ensures opts.perPage > 0 ==>
      && |r| == (if Offset(opts) >= |rows| then 0 else Min(ToUint(opts.perPage), |rows| - Offset(opts)))
      && forall i :: 0 <= i < |r| ==> Offset(opts) + i < |rows| && r[i] == rows[Offset(opts) + i]
  {
    if opts.perPage <= 0 then rows
    else
      var lo := Min(Offset(opts), |rows|);
      var hi := Min(lo + ToUint(opts.perPage), |rows|);
      rows[lo..hi]
  }

  /// With PerPage > 0 a page holds at most PerPage rows.
  lemma WindowBound<T>(rows: seq<T>, opts: FetchOptions)
    requires InInt64Range(opts) && opts.perPage > 0
    ensures |Window(rows, opts)| <= opts.perPage
  {
  }

  /// The offset where page k starts, k * PerPage, as a running sum.
  function PageEnd(perPage: int, k: nat): (r: int)
    ensures perPage >= 0 ==> 0 <= r
  {
    if k == 0 then 0 else PageEnd(perPage, k - 1) + perPage
  }

  lemma {:induction false} PageEndIsProduct(perPage: int, k: nat)
    ensures PageEnd(perPage, k) == k * perPage
  {
    if k > 0 {
      PageEndIsProduct(perPage, k - 1);
      assert k * perPage == (k - 1) * perPage + perPage;
    }
  }

  /// Page k - 1 of a table is the slice between the offsets k - 1 and k.
  lemma PageSlice<T>(rows: seq<T>, perPage: int, k: nat)
    requires 0 < perPage && k > 0 && PageEnd(perPage, k) < Uint64Modulus
    ensures Window(rows, FetchOptions(perPage, k - 1))
         == rows[Min(PageEnd(perPage, k - 1), |rows|)..Min(PageEnd(perPage, k), |rows|)]
  {
    PageEndIsProduct(perPage, k - 1);
    var lo := PageEnd(perPage, k - 1);
    assert Offset(FetchOptions(perPage, k - 1)) == lo;
  }

  /// Reading pages 0, 1, ..., k-1 in turn returns the first k * PerPage rows
  /// (PageEnd(PerPage, k), see PageEndIsProduct) in order, each exactly
  /// once, as long as the offsets do not wrap.
  lemma {:induction false} PagesCover<T>(rows: seq<T>, perPage: int, k: nat)
    requires 0 < perPage <= GoStrconv.MaxInt64 && PageEnd(perPage, k) < Uint64Modulus
    ensures Pages(rows, perPage, k) == rows[..Min(PageEnd(perPage, k), |rows|)]
  {
    if k > 0 {
      PagesCover(rows, perPage, k - 1);
      PageSlice(rows, perPage, k);
      var lo := Min(PageEnd(perPage, k - 1), |rows|);
      var hi := Min(PageEnd(perPage, k), |rows|);
      assert Pages(rows, perPage, k) == rows[..lo] + rows[lo..hi];
      assert rows[..lo] + rows[lo..hi] == rows[..hi];
    }
  }

  /// The concatenation of pages 0 .. k-1.
  function Pages<T>(rows: seq<T>, perPage: int, k: nat): seq<T> {
    if k == 0 then [] else Pages(rows, perPage, k - 1) + Window(rows, FetchOptions(perPage, k - 1))
  }

  /// The row a successful CreateCollection inserts: an empty id is replaced
  /// by `generatedId`; when both timestamps are 0 both become `now`,
  /// otherwise both are stored as given.
  function NewCollection(params: CreateCollectionParams, now: int, generatedId: string): (c: Collection)
    ensures c.title == params.title
    ensures c.id == (if params.id == "" then generatedId else params.id)
    ensures params.created == 0 && params.updated == 0 ==> c.created == now && c.updated == now
    ensures !(params.created == 0 && params.updated == 0) ==> c.created == params.created && c.updated == params.updated
  {
    var stamped := params.created == 0 && params.updated == 0;
    Collection(if params.id == "" then generatedId else params.id,
               params.title,
               if stamped then now else params.created,
               if stamped then now else params.updated)
  }

  /// addToRecord for every field: whether the update writes anything.
  predicate AnyChanged(changes: CollectionChanges) {
    changes.title.changed || changes.created.changed
  }

  /// One row after an update: the changed fields take their new values and
  /// `updated` becomes `now`.
  function Patch(c: Collection, changes: CollectionChanges, now: int): Collection {
    c.(title := if changes.title.changed then changes.title.value else c.title,
       created := if changes.created.changed then changes.created.value else c.created,
       updated := now)
  }

  /// UPDATE collections SET ... WHERE id = `id`.
  function UpdateRows(rows: seq<Collection>, id: string, changes: CollectionChanges, now: int): (r: seq<Collection>)
    ensures |r| == |rows|
    ensures forall i :: 0 <= i < |rows| ==> r[i] == if rows[i].id == id then Patch(rows[i], changes, now) else rows[i]
  {
    seq(|rows|, i requires 0 <= i < |rows| => if rows[i].id == id then Patch(rows[i], changes, now) else rows[i])
  }

  /// UpdateCollection's effect: the new rows and the error it returns. With
  /// no changed field nothing is written and nil is returned.
  function UpdateOutcome(rows: seq<Collection>, id: string, changes: CollectionChanges, now: int,
                         fault: Option<string>): (seq<Collection>, Option<Error>)
  {
    if !AnyChanged(changes) then (rows, None)
    else if fault.Some? then (rows, Some(Failure(fault.value)))
    else (UpdateRows(rows, id, changes, now), None)
  }

  /// An update writes only the rows with the given id, keeps their id, and
  /// stamps them with `now`; every other row is untouched. Without a changed
  /// field (or when the write fails) no row changes at all.
  lemma UpdateOnlyTouchesId(rows: seq<Collection>, id: string, changes: CollectionChanges, now: int, fault: Option<string>)
    ensures var (r, err) := UpdateOutcome(rows, id, changes, now, fault);
      && |r| == |rows|
      && (err == None <==> !AnyChanged(changes) || fault == None)
      && (forall i :: 0 <= i < |rows| && rows[i].id != id ==> r[i] == rows[i])
      && (forall i :: 0 <= i < |rows| && rows[i].id == id && AnyChanged(changes) && fault == None ==>
            r[i].id == id && r[i].updated == now
            && r[i].title == (if changes.title.changed then changes.title.value else rows[i].title)
            && r[i].created == (if changes.created.changed then changes.created.value else rows[i].created))
      && (!AnyChanged(changes) || fault.Some? ==> r == rows)
  {
  }

  /// The first row with the given id, as a single-row query returns it.
  function FindById(rows: seq<Collection>, id: string): (r: Result<Collection>)
    ensures r.Err? ==> r.error == ItemNotFound && forall c :: c in rows ==> c.id != id
    ensures r.Ok? ==> r.value.id == id && r.value in rows
  {
    if rows == [] then Err(ItemNotFound)
    else if rows[0].id == id then Ok(rows[0])
    else FindById(rows[1..], id)
  }

  /// DELETE FROM collections WHERE id = `id`.
  function WithoutId(rows: seq<Collection>, id: string): (r: seq<Collection>)
    ensures forall c :: multiset(r)[c] == if c.id == id then 0 else multiset(rows)[c]
  {
    if rows == [] then []
    else
      assert rows == [rows[0]] + rows[1..];
      (if rows[0].id == id then [] else [rows[0]]) + WithoutId(rows[1..], id)
  }

  /// The delete keeps the remaining rows in table order: deleting from a
  /// concatenation deletes from each part and keeps the parts in order.
  lemma {:induction false} WithoutIdAppend(a: seq<Collection>, b: seq<Collection>, id: string)
    ensures WithoutId(a + b, id) == WithoutId(a, id) + WithoutId(b, id)
  {
    if a == [] {
      assert a + b == b;
    } else {
      var x := a[0];
      assert a == [x] + a[1..] && a + b == [x] + (a[1..] + b);
      WithoutIdAppend(a[1..], b, id);
      WithoutIdCons(x, a[1..], id);
      WithoutIdCons(x, a[1..] + b, id);
      var h: seq := if x.id == id then [] else [x];
      var p, q := WithoutId(a[1..], id), WithoutId(b, id);
      ConcatAssoc(h, p, q);
    }
  }

  /// Deleting from a table whose first row is `x`.
  lemma WithoutIdCons(x: Collection, s: seq<Collection>, id: string)
    ensures WithoutId([x] + s, id) == (if x.id == id then [] else [x]) + WithoutId(s, id)
  {
    assert ([x] + s)[0] == x && ([x] + s)[1..] == s;
  }

  /// A table with no row of the id is left exactly as it was, order included.
  lemma {:induction false} WithoutAbsentId(rows: seq<Collection>, id: string)
    requires forall x :: x in rows ==> x.id != id
    ensures WithoutId(rows, id) == rows
  {
    if rows != [] {
      WithoutAbsentId(rows[1..], id);
    }
  }

  /// A row inserted under a fresh id is what GetCollectionById then finds.
  lemma {:induction false} FindAfterInsert(rows: seq<Collection>, c: Collection)
    requires forall x :: x in rows ==> x.id != c.id
    ensures FindById(rows + [c], c.id) == Ok(c)
  {
    if rows != [] {
      assert (rows + [c])[1..] == rows[1..] + [c];
      FindAfterInsert(rows[1..], c);
    }
  }

  /// After RemoveCollection(id), GetCollectionById(id) finds nothing, and
  /// every other id is found exactly as before.
  lemma {:induction false} FindAfterRemove(rows: seq<Collection>, id: string, other: string)
    ensures FindById(WithoutId(rows, id), id) == Err(ItemNotFound)
    ensures other != id ==> FindById(WithoutId(rows, id), other) == FindById(rows, other)
  {
    if rows != [] {
      var rest := WithoutId(rows[1..], id);
      FindAfterRemove(rows[1..], id, other);
      if rows[0].id == id {
        assert WithoutId(rows, id) == rest;
      } else {
        assert WithoutId(rows, id) == [rows[0]] + rest;
        assert ([rows[0]] + rest)[1..] == rest;
      }
    }
  }

  class CollectionTable {
    var rows: seq<Collection>

    constructor(rows0: seq<Collection>)
      ensures rows == rows0
    {
      rows := rows0;
    }

    /// GetCollectionById: the row with that id, or ItemNotFound.
    function GetCollectionById(id: string): (r: Result<Collection>)
      reads this
      ensures r.Ok? ==> r.value in rows && r.value.id == id
      ensures r.Err? ==> r.error == ItemNotFound && forall c :: c in rows ==> c.id != id
    {
      FindById(rows, id)
    }

    /// GetPagedCollection: one page of rows; the count behind TotalItems is
    /// taken before the limit, so it is the whole table's size.
    function GetPagedCollection(opts: FetchOptions): (r: Paged<Collection>)
      reads this
      ensures r.page == Page(opts.page, opts.perPage, |rows|)
      ensures opts.perPage <= 0 ==> r.items == rows
      ensures forall i :: 0 <= i < |r.items| ==> r.items[i] in rows
      ensures r.items == Window(rows, opts)
    {
      Paged(Window(rows, opts), Page(opts.page, opts.perPage, |rows|))
    }

    /// CreateCollection: insert one row and return the id stored.
    method CreateCollection(params: CreateCollectionParams, now: int, generatedId: string, fault: Option<string>)
      returns (r: Result<string>)
      modifies this
      ensures fault.Some? ==> r == Err(Failure(fault.value)) && rows == old(rows)
      ensures fault.None? ==> var c := NewCollection(params, now, generatedId);
        r == Ok(c.id) && rows == old(rows) + [c]
    {
      if fault.Some? {
        return Err(Failure(fault.value));
      }
      var c := NewCollection(params, now, generatedId);
      rows := rows + [c];
      r := Ok(c.id);
    }

    /// UpdateCollection: write only the changed fields and a fresh
    /// `updated`, to the rows with that id; nothing when no field changed.
    method UpdateCollection(id: string, changes: CollectionChanges, now: int, fault: Option<string>)
      returns (err: Option<Error>)
      modifies this
      ensures (rows, err) == UpdateOutcome(old(rows), id, changes, now, fault)
    {
      if !AnyChanged(changes) {
        return None;
      }
      if fault.Some? {
        return Some(Failure(fault.value));
      }
      rows := UpdateRows(rows, id, changes, now);
      err := None;
    }

    /// RemoveCollection: delete the rows with that id.
    method RemoveCollection(id: string, fault: Option<string>) returns (err: Option<Error>)
      modifies this
      ensures fault.Some? ==> err == Some(Failure(fault.value)) && rows == old(rows)
      ensures fault.None? ==> err == None && rows == WithoutId(old(rows), id)
    {
      if fault.Some? {
        return Some(Failure(fault.value));
      }
      rows := WithoutId(rows, id);
      err := None;
    }
  }
}

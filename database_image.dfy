/// The images table (database/image.go): one row per stored image file,
/// in insertion order. The `id` column is never written by CreateImage, so
/// its value is the one the database supplies at insert time and is given
/// to CreateImage as a parameter.
module ImageDb {
  import opened Common
  import opened StableSort
  import opened CollectionDb

  datatype Image = Image(id: string, collectionId: string, hash: string, filename: string, created: int, updated: int)

  datatype CreateImageParams = CreateImageParams(collectionId: string, hash: string, filename: string, created: int, updated: int)

  /// The row a successful CreateImage inserts: when both timestamps are 0
  /// both become `now`, otherwise both are stored as given.
  function NewImage(params: CreateImageParams, now: int, id: string): (r: Image)
    ensures r.id == id && r.collectionId == params.collectionId
    ensures r.hash == params.hash && r.filename == params.filename
    ensures params.created == 0 && params.updated == 0 ==> r.created == now && r.updated == now
    ensures !(params.created == 0 && params.updated == 0) ==> r.created == params.created && r.updated == params.updated
  {
    var stamped := params.created == 0 && params.updated == 0;
    Image(id, params.collectionId, params.hash, params.filename,
          if stamped then now else params.created,
          if stamped then now else params.updated)
  }

  /// WHERE images.collection_id = `c`, keeping table order.
  function OfCollection(rows: seq<Image>, c: string): (r: seq<Image>)
    ensures forall x :: x in r <==> x in rows && x.collectionId == c
    ensures |r| <= |rows|
  {
    if rows == [] then []
    else
      (if rows[0].collectionId == c then [rows[0]] else []) + OfCollection(rows[1..], c)
  }

  /// The filter keeps every row of the collection as often as the table
  /// holds it, and no other row.
  lemma {:induction false} OfCollectionCount(rows: seq<Image>, c: string, x: Image)
    ensures multiset(OfCollection(rows, c))[x] == if x.collectionId == c then multiset(rows)[x] else 0
  {
    if rows != [] {
      OfCollectionCount(rows[1..], c, x);
      assert rows == [rows[0]] + rows[1..];
    }
  }

  /// A row appended to the table is appended to its own collection's
  /// listing and to no other.
  lemma {:induction false} OfCollectionSnoc(rows: seq<Image>, x: Image, c: string)
    ensures OfCollection(rows + [x], c) == OfCollection(rows, c) + (if x.collectionId == c then [x] else [])
  {
    var X := if x.collectionId == c then [x] else [];
    if rows == [] {
      assert [x][1..] == [];
      assert OfCollection([x], c) == X + OfCollection([], c);
    } else {
      var h := if rows[0].collectionId == c then [rows[0]] else [];
      assert (rows + [x])[1..] == rows[1..] + [x];
      OfCollectionSnoc(rows[1..], x, c);
      assert OfCollection(rows + [x], c) == h + OfCollection(rows[1..] + [x], c);
      assert OfCollection(rows, c) == h + OfCollection(rows[1..], c);
      ConcatAssoc(h, OfCollection(rows[1..], c), X);
    }
  }

  /// ORDER BY images.created ASC.
  function ByCreated(a: Image, b: Image): bool {
    a.created < b.created
  }

  lemma ByCreatedIsStrictWeakOrder()
    ensures StrictWeakOrder(ByCreated)
  {
  }

  /// Ordered by `created`, never decreasing.
  ghost predicate CreatedAscending(s: seq<Image>) {
    forall i, j :: 0 <= i < j < |s| ==> s[i].created <= s[j].created
  }

  /// The row matching both the collection id and the image id, or
  /// ItemNotFound.
  function FindImage(rows: seq<Image>, c: string, id: string): (r: Result<Image>)
    ensures r.Ok? ==> r.value in rows && r.value.collectionId == c && r.value.id == id
    ensures r.Err? ==> r.error == ItemNotFound && forall x :: x in rows ==> !(x.collectionId == c && x.id == id)
  {
    if rows == [] then Err(ItemNotFound)
    else if rows[0].collectionId == c && rows[0].id == id then Ok(rows[0])
    else FindImage(rows[1..], c, id)
  }

  /// DELETE FROM images WHERE collection_id = `c` AND id = `id`.
  function WithoutImage(rows: seq<Image>, c: string, id: string): (r: seq<Image>)
    ensures forall x :: multiset(r)[x] == if x.collectionId == c && x.id == id then 0 else multiset(rows)[x]
  {
    if rows == [] then []
    else
      assert rows == [rows[0]] + rows[1..];
      (if rows[0].collectionId == c && rows[0].id == id then [] else [rows[0]]) + WithoutImage(rows[1..], c, id)
  }

  /// The delete keeps the remaining rows in table order: deleting from a
  /// concatenation deletes from each part and keeps the parts in order.
  lemma {:induction false} WithoutImageAppend(a: seq<Image>, b: seq<Image>, c: string, id: string)
    ensures WithoutImage(a + b, c, id) == WithoutImage(a, c, id) + WithoutImage(b, c, id)
  {
    if a == [] {
      assert a + b == b;
    } else {
      var x := a[0];
      assert a == [x] + a[1..] && a + b == [x] + (a[1..] + b);
      WithoutImageAppend(a[1..], b, c, id);
      WithoutImageCons(x, a[1..], c, id);
      WithoutImageCons(x, a[1..] + b, c, id);
      var h: seq := if x.collectionId == c && x.id == id then [] else [x];
      var p, q := WithoutImage(a[1..], c, id), WithoutImage(b, c, id);
      ConcatAssoc(h, p, q);
    }
  }

  /// Deleting from a table whose first row is `x`.
  lemma WithoutImageCons(x: Image, s: seq<Image>, c: string, id: string)
    ensures WithoutImage([x] + s, c, id) == (if x.collectionId == c && x.id == id then [] else [x]) + WithoutImage(s, c, id)
  {
    assert ([x] + s)[0] == x && ([x] + s)[1..] == s;
  }

  /// A table with no row matching both ids is left exactly as it was.
  lemma {:induction false} WithoutAbsentImage(rows: seq<Image>, c: string, id: string)
    requires forall x :: x in rows ==> !(x.collectionId == c && x.id == id)
    ensures WithoutImage(rows, c, id) == rows
  {
    if rows != [] {
      WithoutAbsentImage(rows[1..], c, id);
    }
  }

  /// After RemoveImage(c, id) that image is gone, and every other lookup
  /// (another collection, or another id) answers as before.
  lemma {:induction false} FindAfterRemoveImage(rows: seq<Image>, c: string, id: string, c': string, id': string)
    ensures FindImage(WithoutImage(rows, c, id), c, id) == Err(ItemNotFound)
    ensures (c', id') != (c, id) ==> FindImage(WithoutImage(rows, c, id), c', id') == FindImage(rows, c', id')
  {
    if rows != [] {
      var rest := WithoutImage(rows[1..], c, id);
      FindAfterRemoveImage(rows[1..], c, id, c', id');
      if rows[0].collectionId == c && rows[0].id == id {
        assert WithoutImage(rows, c, id) == rest;
      } else {
        assert WithoutImage(rows, c, id) == [rows[0]] + rest;
        assert ([rows[0]] + rest)[1..] == rest;
      }
    }
  }

  class ImageTable {
    var rows: seq<Image>

    constructor(rows0: seq<Image>)
      ensures rows == rows0
    {
      rows := rows0;
    }

    /// GetAllImagesByCollectionId: exactly the rows of collection `c`,
    /// ordered by `created`; rows with the same `created` keep table order.
    function GetAllImagesByCollectionId(c: string): (r: seq<Image>)
      reads this
      ensures multiset(r) == multiset(OfCollection(rows, c))
      ensures forall x :: x in r <==> x in rows && x.collectionId == c
      ensures CreatedAscending(r)
    {
      var all := OfCollection(rows, c);
      ByCreatedIsStrictWeakOrder();
      SortSorted(all, ByCreated);
      var sorted := Sort(all, ByCreated);
      assert forall x :: x in sorted <==> x in multiset(sorted);
      assert forall x :: x in all <==> x in multiset(all);
      sorted
    }

    /// GetPagedImages: a window of the whole table, counted before the limit.
    function GetPagedImages(opts: FetchOptions): (r: Paged<Image>)
      reads this
      ensures r.page == Page(opts.page, opts.perPage, |rows|)
      ensures opts.perPage <= 0 ==> r.items == rows
      ensures forall i :: 0 <= i < |r.items| ==> r.items[i] in rows
      ensures r.items == Window(rows, opts)
    {
      Paged(Window(rows, opts), Page(opts.page, opts.perPage, |rows|))
    }

    /// GetPagedImagesByCollectionId: a window of the collection's own rows;
    /// the count covers only that collection.
    function GetPagedImagesByCollectionId(c: string, opts: FetchOptions): (r: Paged<Image>)
      reads this
      ensures r.page == Page(opts.page, opts.perPage, |OfCollection(rows, c)|)
      ensures opts.perPage <= 0 ==> r.items == OfCollection(rows, c)
      ensures forall i :: 0 <= i < |r.items| ==> r.items[i] in rows && r.items[i].collectionId == c
      ensures r.items == Window(OfCollection(rows, c), opts)
    {
      var all := OfCollection(rows, c);
      Paged(Window(all, opts), Page(opts.page, opts.perPage, |all|))
    }

    /// GetImageById: matches on both the collection id and the image id.
    function GetImageById(c: string, id: string): (r: Result<Image>)
      reads this
      ensures r.Ok? ==> r.value in rows && r.value.collectionId == c && r.value.id == id
      ensures r.Err? ==> forall x :: x in rows ==> !(x.collectionId == c && x.id == id)
    {
      FindImage(rows, c, id)
    }

    /// CreateImage: append exactly one row; no existing row changes.
    method CreateImage(params: CreateImageParams, now: int, id: string, fault: Option<string>)
      returns (err: Option<Error>)
      modifies this
      ensures fault.Some? ==> err == Some(Failure(fault.value)) && rows == old(rows)
      ensures fault.None? ==> err == None && rows == old(rows) + [NewImage(params, now, id)]
    {
      if fault.Some? {
        return Some(Failure(fault.value));
      }
      rows := rows + [NewImage(params, now, id)];
      err := None;
    }

    /// RemoveImage: delete the rows matching both ids.
    method RemoveImage(c: string, id: string, fault: Option<string>) returns (err: Option<Error>)
      modifies this
      ensures fault.Some? ==> err == Some(Failure(fault.value)) && rows == old(rows)
      ensures fault.None? ==> err == None && rows == WithoutImage(old(rows), c, id)
    {
      if fault.Some? {
        return Some(Failure(fault.value));
      }
      rows := WithoutImage(rows, c, id);
      err := None;
    }
  }

  /// When a collection's rows already appear in `created` order in the
  /// table (for instance because they were inserted one after another with
  /// a clock that never goes back), the listing is exactly table order.
  lemma ListingInInsertionOrder(rows: seq<Image>, c: string)
    requires CreatedAscending(OfCollection(rows, c))
    ensures Sort(OfCollection(rows, c), ByCreated) == OfCollection(rows, c)
  {
    SortOfSorted(OfCollection(rows, c), ByCreated);
  }

  /// Images created at the same instant are listed in the order they were
  /// inserted.
  lemma ListingTiesKeepInsertionOrder(rows: seq<Image>, c: string, z: Image)
    ensures ClassOf(Sort(OfCollection(rows, c), ByCreated), z, ByCreated) == ClassOf(OfCollection(rows, c), z, ByCreated)
  {
    ByCreatedIsStrictWeakOrder();
    SortStable(OfCollection(rows, c), z, ByCreated);
  }
}

# storebook — a verified model of the collection and image bookkeeping

storebook is a small Go service that stores image collections. A
collection is a row in a SQLite `collections` table plus a directory
`<workDir>/collections/<id>/images` on disk. Images arrive as ZIP archives
uploaded to a collection. Each archive entry is written to the images
directory under a content-hash name, and one row is inserted into the
`images` table for it.

This Dafny project models that core and proves properties of it:

- the work-directory layout and the two-level directory creation
  (`types/common.go`);
- the collections and images tables, with paging, timestamp and id
  defaulting, partial updates and scoped deletes (`database/*.go`);
- the HTTP handlers' decision logic: page options, body validation, the
  edit change set, the order of effects in create and delete
  (`apis/collection.go`);
- the upload pipeline: media-type filter, stable natural-order sort of the
  archive entries, write-then-insert per entry, stop at the first failure,
  no rollback (`apis/collection.go`);
- the URL builder and the authentication gate (`apis/helper.go`).

The tables are classes whose `rows` field is a sequence in insertion order.
The filesystem is a class with a set of directories and a map from file
paths to contents. Every method is proved against a pure function of the
old state (`CreateOutcome`, `UpdateOutcome`, `ImportAll`, `UploadOutcome`,
…), and the properties are proved as lemmas about those functions.

Collaborators whose code is not part of this model are parameters. These
are the clock, the id the database supplies, database and filesystem
failures, `mime.ParseMediaType`, `natural.Less`, `utils.WriteHashedFile`,
`utils.ParseAuthHeader` and the JWT library.

Files: `common.dfy` (Option, Result, the error kinds), `gopath.dfy`
(`path.Join/Base/Dir/Ext`), `strconv.dfy` (`strconv.Atoi`),
`stable_sort.dfy` (`sort.SliceStable` stated by its result), `os.dfy`
(the filesystem), `types_common.dfy`, `database_collection.dfy`,
`database_image.dfy`, `apis_helper.dfy`, `apis_collection.dfy`,
`apis_upload.dfy`.

Two behaviours of the code are worth stating up front:
- A failure while importing one uploaded file ends the whole request, so
  later uploaded files are not read at all.
- Deleting a collection removes its row and its directory, but no image
  rows. The database schema is not modelled, so no cascade is claimed.

## Model

| member | source | states |
|---|---|---|
| GoPath.Join | types/common.go:15-35 | `path.Join` of a directory and one element: an empty directory or `.` gives a plain element back as is; any other clean directory is a prefix of the result |
| GoPath.Base | apis/collection.go:416 | `path.Base`: never empty, no `/` unless it is `/`, `.` for the empty path |
| GoPath.Dir | types/common.go:44 | `path.Dir` on clean paths, used for the parent test of `os.Mkdir`: never empty, `.` for a bare name |
| GoPath.Ext | apis/collection.go:405 | `path.Ext`: a suffix of the name that is empty or starts with a `.` followed by no other `.` and no `/` |
| GoPath.ExtAtLastDot | apis/collection.go:405 | the extension is empty exactly when the name has no `.` after its last `/`, and otherwise runs from the last `.` to the end |
| GoPath.JoinChild | types/common.go:23-35 | joining a clean directory and a plain name gives a clean path whose `Dir` is the directory and whose `Base` is the name |
| GoPath.ExtOfPlainName | apis/collection.go:405 | a name without `.` or `/` has no extension |
| GoPath.ExtOfAppended | apis/collection.go:405-406 | a plain name followed by an extension has exactly that extension |
| GoStrconv.Atoi | apis/collection.go:48 | `strconv.Atoi` with its error dropped: always in the int64 range and 0 for "" |
| GoStrconv.ScanAppend | apis/collection.go:48 | scanning a concatenation continues from where the scan of the first part stopped, and a stop in the first part is final |
| GoStrconv.ParseDigitsOverflow | apis/collection.go:48 | a decimal number above 2^64-1 overflows whatever follows it |
| GoStrconv.AtoiClamp | apis/collection.go:48-55 | an out-of-range decimal clamps to the int64 maximum, or to the minimum when negative |
| GoStrconv.AtoiOverflowBeforeSyntaxError | apis/collection.go:48-55 | digits that overflow 2^64-1 clamp even when junk follows them |
| GoStrconv.AtoiTrailingJunk | apis/collection.go:48-55 | an in-range number followed by a non-digit is a syntax error, so 0 |
| GoStrconv.AtoiSignOnly | apis/collection.go:48-55 | a lone `+` or `-` is a syntax error, so 0 |
| GoStrconv.ScanFrom | apis/collection.go:48 | the digit scan of `strconv.ParseUint` never yields a value above 2^64-1 |
| GoStrconv.ScanSnoc | apis/collection.go:48 | the digit scan is a left fold: one more character continues where the shorter scan stopped |
| GoStrconv.ParseDigits | apis/collection.go:48 | every number up to 2^64-1 written in decimal scans back to itself |
| GoStrconv.AtoiDecimal | apis/collection.go:48-55 | `Atoi` reads back every int64 written in decimal, negative ones included |
| GoStrconv.AtoiNonNumeric | apis/collection.go:48-55 | a string starting with neither a sign nor a digit parses to 0 |
| StableSort.Insert | apis/collection.go:388-390 | inserting into a sorted sequence adds exactly that element (multiset) |
| StableSort.Sort | apis/collection.go:388-390 | the arrangement `sort.SliceStable` produces is a permutation of its input |
| StableSort.SortSorted | apis/collection.go:388-390 | under a strict weak order, no element of the result is less than one before it |
| StableSort.SortStable | apis/collection.go:388-390 | elements the comparator does not tell apart keep their input order |
| StableSort.SortOfSorted | apis/collection.go:388-390 | an input that is already ordered comes back unchanged |
| Os.MkdirError | types/common.go:44-45 | `os.Mkdir` succeeds if and only if nothing is at the path, the parent is a directory and the machine reports no failure; it reports "exists" if and only if something is at the path, ENOTDIR if and only if otherwise the direct parent is a file, and "does not exist" if and only if otherwise there is no parent |
| Os.FileSystem.Mkdir | types/common.go:44 | creates the directory exactly when no error is reported; files unchanged |
| Os.FileSystem.WriteFile | apis/collection.go:406 | creates or replaces the one file; directories unchanged |
| Os.FileSystem.RemoveAll | apis/collection.go:324 | removes the path and everything below it; on a reported failure nothing changes |
| Types.DatabaseFile | types/common.go:15-17 | for a clean work directory, the database file is its direct child `data.db` |
| Types.CollectionsDir | types/common.go:19-21 | for a clean work directory, a clean direct child named `collections` |
| Types.CollectionDirById | types/common.go:23-25 | a plain id gives the clean child `id` of the collections directory; an empty id gives the collections directory itself |
| Types.Images | types/common.go:33-35 | for a clean collection directory, its clean child `images` |
| Types.WorkDirLayout | types/common.go:15-21 | the database file and the collections directory are different paths |
| Types.CollectionLayout | types/common.go:23-35 | distinct plain ids give distinct collection directories and distinct images directories, and no images directory is another collection's directory |
| Types.MkdirStep | types/common.go:43-48 | one loop step: after an error the state is unchanged; "exists" counts as success, and a path already present leaves the state as it was; on success something is at the path; the loop never reports "exists" |
| Types.MkdirAll | types/common.go:38-50 | the loop only adds directories from the list, and never returns "exists" |
| Types.MkdirAllStops | types/common.go:45-46 | once a mkdir has failed, the remaining paths are not attempted |
| Types.Create | types/common.go:37-51 | `CollectionDir.Create` makes the collection directory, then its images directory, as `CreateOutcome` states; files unchanged |
| Types.MkdirEach | types/common.go:43-50 | the loop over the paths leaves the directories and the error that `MkdirAll` gives; files unchanged |
| Types.CreatePresent | types/common.go:43-50 | after a successful Create both paths are occupied and no directory is lost |
| Types.CreateIdempotent | types/common.go:44-47 | a second Create after a success succeeds and changes nothing, whatever failures the machine would report |
| Types.CreateRootFailure | types/common.go:43-46 | if the collection directory fails other than by "exists", that error is returned and the images directory is not attempted |
| Types.IsValidAdminStatus | types/common.go:60-68 | true exactly for the names of the two admin statuses, "not-fixed" and "fixed" |
| Types.ValidateAdminStatus | types/common.go:70-99 | nil exactly for an acceptable string, a nil pointer or a pointer to an acceptable string; "expected string" for other types, otherwise "invalid admin status" |
| CollectionDb.ToUint | database/collection.go:55-56 | Go's `uint(...)` on a 64-bit value: in range, and the identity on non-negative values below 2^64 |
| CollectionDb.Window | database/collection.go:53-57 | PerPage <= 0 returns every row; otherwise at most PerPage consecutive rows starting at offset uint(Page*PerPage) |
| CollectionDb.WindowBound | database/collection.go:53-57 | with PerPage > 0 a page never holds more than PerPage rows |
| CollectionDb.PagesCover | database/collection.go:53-57 | pages 0..k-1 read in turn are the first PageEnd(PerPage, k) rows, in order, each once |
| CollectionDb.PageEndIsProduct | database/collection.go:53-57 | PageEnd(PerPage, k), where page k starts, is k*PerPage |
| CollectionDb.NewCollection | database/collection.go:102-114 | both timestamps become `now` when both are 0 and are kept otherwise; an empty id is replaced by the generated one |
| CollectionDb.UpdateRows | database/collection.go:146-150 | only rows with the id are patched; every other row is unchanged |
| CollectionDb.UpdateOnlyTouchesId | database/collection.go:136-157 | no changed field, or a failed write, leaves the table as it was; otherwise only the id's rows change: the changed fields and a fresh `updated` |
| CollectionDb.FindById | database/collection.go:85-90 | the row found has the id and is in the table; ItemNotFound exactly when no row has it |
| CollectionDb.WithoutId | database/collection.go:160-163 | the delete removes every row with the id and keeps every other row as often as before |
| CollectionDb.WithoutIdAppend | database/collection.go:160-163 | the remaining rows keep their table order: deleting from two consecutive runs of rows deletes from each and keeps them in order |
| CollectionDb.WithoutAbsentId | database/collection.go:160-163 | a delete of an id no row has leaves the table exactly as it was, order included |
| CollectionDb.FindAfterInsert | database/collection.go:101-127 | a row inserted under a fresh id is what the lookup then finds |
| CollectionDb.FindAfterRemove | database/collection.go:160-170 | after the delete the id is not found, and every other id is found as before |
| CollectionDb.CollectionTable.GetCollectionById | database/collection.go:85-90 | the row with the id, or ItemNotFound when there is none |
| CollectionDb.CollectionTable.GetPagedCollection | database/collection.go:47-78 | TotalItems is the size of the whole table; Page and PerPage are echoed; the items are the `Window` of the table for the options, so every row when PerPage <= 0 |
| CollectionDb.CollectionTable.CreateCollection | database/collection.go:101-127 | appends exactly the defaulted row and returns its id; a failed insert changes nothing |
| CollectionDb.CollectionTable.UpdateCollection | database/collection.go:135-158 | the table and the error are `UpdateOutcome`: nothing is written when no field changed |
| CollectionDb.CollectionTable.RemoveCollection | database/collection.go:160-170 | the table becomes `WithoutId`; a failed delete changes nothing |
| ImageDb.NewImage | database/image.go:150-167 | carries the collection id, hash and filename given; both timestamps `now` when both are 0, kept otherwise |
| ImageDb.OfCollection | database/image.go:77-80 | keeps exactly the rows of the collection |
| ImageDb.OfCollectionCount | database/image.go:118-121 | each row of the collection is kept as often as the table holds it, and no other row |
| ImageDb.OfCollectionSnoc | database/image.go:159-169 | an inserted row is appended to its own collection's listing and to no other |
| ImageDb.ByCreatedIsStrictWeakOrder | database/image.go:122-124 | ordering by `created` is a strict weak order |
| ImageDb.FindImage | database/image.go:129-137 | a row found matches both the collection id and the image id; ItemNotFound exactly when none does |
| ImageDb.WithoutImage | database/image.go:208-213 | the delete removes the rows matching both ids and keeps every other row as often as before |
| ImageDb.WithoutImageAppend | database/image.go:208-213 | the remaining rows keep their table order: deleting from two consecutive runs of rows deletes from each and keeps them in order |
| ImageDb.WithoutAbsentImage | database/image.go:208-213 | a delete matching no row leaves the table exactly as it was, order included |
| ImageDb.FindAfterRemoveImage | database/image.go:208-221 | after the delete that image is not found, and every other lookup answers as before |
| ImageDb.ImageTable.GetAllImagesByCollectionId | database/image.go:117-127 | exactly the collection's rows, with multiplicities, in non-decreasing `created` order |
| ImageDb.ImageTable.GetPagedImages | database/image.go:43-74 | the items are the `Window` of the table for the options, so every row when PerPage <= 0; TotalItems is the size of the whole table |
| ImageDb.ImageTable.GetPagedImagesByCollectionId | database/image.go:76-110 | the items are the `Window` of the collection's rows, in table order, and TotalItems counts only them |
| ImageDb.ImageTable.GetImageById | database/image.go:129-137 | a row matching both ids, or none exists |
| ImageDb.ImageTable.CreateImage | database/image.go:149-175 | appends exactly one row and changes no existing row; a failed insert changes nothing |
| ImageDb.ImageTable.RemoveImage | database/image.go:208-221 | the table becomes `WithoutImage`; a failed delete changes nothing |
| ImageDb.ListingInInsertionOrder | database/image.go:117-127 | when a collection's rows are already in `created` order in the table, the listing is table order |
| ImageDb.ListingTiesKeepInsertionOrder | database/image.go:122-124 | rows with equal `created` are listed in insertion order |
| ApiHelper.Scheme | apis/helper.go:58-63 | X-Forwarded-Proto when it is non-empty, otherwise "http" |
| ApiHelper.ConvertURL | apis/helper.go:55-66 | the scheme, then "://", the host and the path: its length, its prefix and its suffix |
| ApiHelper.FirstColon | apis/helper.go:65 | the position of the first `:`, or the length when there is none |
| ApiHelper.ConvertURLRoundTrip | apis/helper.go:55-66 | splitting the URL at the first "://" gives back the scheme and host+path when the scheme has no `:` |
| ApiHelper.KeyFunc | apis/helper.go:30-36 | the key is the configured secret, and it is given exactly for HMAC tokens |
| ApiHelper.ParseToken | apis/helper.go:30-40 | parsing succeeds exactly when the token decodes, is HMAC-signed and verifies under the configured secret |
| ApiHelper.LoggedIn | apis/helper.go:16-53 | admits exactly a matching non-empty X-Password or an accepted MapClaims token; otherwise "invalid authorization header" when no token is present, else "invalid authorization token" |
| ApiHelper.PasswordIgnoresAuthorization | apis/helper.go:17-22 | a matching X-Password admits the request whatever the Authorization header and the JWT library say |
| ApiHelper.EmptyPasswordHeaderIgnoresPassword | apis/helper.go:17-22 | with an empty X-Password the outcome does not depend on the configured password, even an empty one |
| ApiHelper.NonHmacTokenRefused | apis/helper.go:30-40 | a token with any other signing method is refused with "invalid authorization token" |
| CollectionApi.GetPageOptions | apis/collection.go:43-63 | perPage is always positive: a non-empty value that parses to a positive number replaces 100, and any value parsing to 0 or less keeps 100; page is 0 when absent, else the parse |
| CollectionApi.PageOptionsOfMalformed | apis/collection.go:43-60 | a number with trailing junk and a sign-only page give perPage 100 and page 0; an overflowing perPage and a negative overflowing page clamp to the int64 maximum and minimum |
| CollectionApi.PageOptionsOfNumbers | apis/collection.go:43-63 | decimal numbers come back as themselves: a positive perPage is taken, a zero or negative one keeps 100, any page passes through |
| CollectionApi.PageOptionsOfWords | apis/collection.go:43-63 | non-numeric values give perPage 100 and page 0 |
| CollectionApi.ValidateCreateBody | apis/collection.go:84-88 | valid if and only if the title is not empty |
| CollectionApi.ValidateEditBody | apis/collection.go:98-102 | valid if and only if the title is absent or not empty |
| CollectionApi.EditChanges | apis/collection.go:281-288 | the title is marked changed exactly when one is sent and differs from the stored one; an absent title is the zero Change; `created` is never changed |
| CollectionApi.EditWithoutNewTitleIsNoOp | apis/collection.go:281-292 | sending no title or the stored title writes nothing and succeeds, whatever the database would report |
| CollectionApi.EditWithNewTitleRenames | apis/collection.go:281-292 | a new title renames only the stored collection's rows and stamps them with the edit time |
| CollectionApi.MapNotFound | apis/collection.go:309-316 | ItemNotFound becomes CollectionNotFound; any other error passes through |
| CollectionApi.CreateCollectionHandler | apis/collection.go:226-253 | the directories are made first; if that fails no row is inserted; on success exactly one row is added and the handler's id is returned |
| CollectionApi.EditCollectionHandler | apis/collection.go:262-296 | a missing collection gives CollectionNotFound and no change; otherwise the update with the computed change set |
| CollectionApi.DeleteCollectionHandler | apis/collection.go:304-330 | lookup first (CollectionNotFound); the row is removed before the directory; a failed row removal leaves the directory alone |
| UploadApi.ByName | apis/collection.go:388-390 | entries compare by the comparator on their names |
| UploadApi.ImportEntry | apis/collection.go:392-423 | on success exactly one row is added, with the collection id, the writer's hash and the base name of the written path, and the files are the old files plus the data at the written path; on failure no row is added; either the files are unchanged or exactly the writer's one file was written |
| UploadApi.OnlyWriterPathsTrans | apis/collection.go:425-430 | "no file removed, and only files at writer paths new or changed" composes over consecutive steps |
| UploadApi.ImportEntryWrites | apis/collection.go:405-406 | one entry's import removes no file and changes only the file at the path the writer returned |
| UploadApi.ImportAllWrites | apis/collection.go:425-430 | an archive's import removes no file and changes only files at paths the writer returned for the images directory |
| UploadApi.UploadOnlyWritesImages | apis/collection.go:369-442 | a whole upload, failed or not, removes no file and changes only files at paths the writer returned for the images directory |
| UploadApi.ImportAll | apis/collection.go:425-430 | the loop only appends rows, one per entry when it succeeds and never more than one per entry; files are never removed |
| UploadApi.UploadFile | apis/collection.go:371-441 | an unparsable Content-Type is returned as the error with nothing changed; a media type other than exactly application/zip changes nothing |
| UploadApi.ImportAllStops | apis/collection.go:425-430 | once an entry has failed, the remaining entries are not imported |
| UploadApi.UploadAllStops | apis/collection.go:369-442 | once an uploaded file has failed, the remaining files are not read |
| UploadApi.ImportAllFirstFailure | apis/collection.go:392-430 | when entry k is the first to fail, the whole import is entry k's failure on top of the k earlier imports: exactly k rows were added and nothing is undone |
| UploadApi.ImportEntryRow | apis/collection.go:392-423 | the row a successful import adds is the row for its entry |
| UploadApi.RowsFromImportEntry | apis/collection.go:392-423 | importing the next entry keeps every earlier row matched to its entry and matches the new row to the new entry |
| UploadApi.ImportAllRows | apis/collection.go:405-430 | every row the loop adds is the row for the entry at the same position in processing order |
| UploadApi.ImportedRow | apis/collection.go:405-430 | the i-th added row comes from the i-th entry in processing order: written with the extension of its name into the images directory, carrying the hash and the base name of the written path |
| UploadApi.ProcessingOrderIsStableSort | apis/collection.go:388-390 | entries are processed as a permutation of the archive, ordered by name, with entries of equal rank in archive order |
| UploadApi.HashedNameIsSimple | apis/collection.go:405-417 | a hash without `.` or `/` followed by an extension is a plain file name |
| UploadApi.ImportedFileBacksRow | apis/collection.go:405-417 | with a content-addressed writer, a row's filename is its hash plus the entry's extension, and that file is in the images directory |
| UploadApi.ImportFile | apis/collection.go:392-423 | the files, the rows and the error are `ImportEntry`'s |
| UploadApi.ReadZip | apis/collection.go:377-433 | an open or archive error is returned unchanged; otherwise the sorted entries are imported as `ImportAll` states |
| UploadApi.UploadToCollection | apis/collection.go:344-445 | the directories, files, rows and error are `UploadOutcome`'s: lookup, directory creation, then each uploaded file in turn |
| UploadApi.UploadFileAppends | apis/collection.go:371-441 | one uploaded file only appends rows of the collection and never removes a file |
| UploadApi.UploadOnlyAppends | apis/collection.go:369-442 | an upload, failed or not, only appends rows of the collection and never removes a file: nothing is rolled back |
| UploadApi.NonZipFilesAreSkipped | apis/collection.go:435-441 | uploaded files that are not application/zip change nothing |
| UploadApi.UploadEarlyFailures | apis/collection.go:349-362 | a missing collection gives CollectionNotFound with no effect; a failed directory creation writes no file and adds no row |

## Left out

- ZIP decoding and decompression: an uploaded file is given as an `Archive` (it fails to open, is not an archive, or has entries whose bodies open, read or fail).
- `natural.Less` is a comparator parameter; its natural-order semantics are not modelled. The ordering lemmas assume only that it is a strict weak order.
- `utils.WriteHashedFile` is a parameter returning the written path and hash. Its hashing is not modelled. A successful write is modelled as writing the data at the returned path, and a failure as writing nothing. The filename property assumes a content-addressed writer (`ContentAddressed`).
- `mime.ParseMediaType` is a parameter; only the exact media type it returns is compared.
- `sort.SliceStable` rearranges `r.File` in place. The model takes the arrangement it produces, a stable insertion sort on a sequence, not the library's in-place steps.
- `utils.TotalPages` is not modelled, so `Page` has no TotalPages field.
- SQL, goqu and SQLite are not modelled. Read queries never fail. Queries without ORDER BY return table order, and ties under ORDER BY created keep table order.
- The `images.id` column is never written by `CreateImage`. Its value is the one the database supplies, given per insert, and it is taken to be non-NULL. Both image totals count `images.id` and so rely on that: a NULL id would not be counted by SQL. `rowid` is not modelled.
- `time.Now` and `utils.CreateCollectionId` are parameters.
- CollectionDb.Window: an offset or limit of 2^63 or more is passed to the database as is; how SQLite treats such values is not modelled.
- GoPath.Join, GoPath.Dir: modelled for clean paths (`IsCleanDir`) and single elements only; the cleaning `path.Join` does of `.` and `..` segments and repeated slashes inside other paths is not.
- Os.FileSystem.RemoveAll: a failure is modelled as removing nothing, not as a partial removal.
- Os.MkdirError: permission, disk and other machine failures are a fault parameter; the modes passed to `os.Mkdir` are not modelled. Only the direct parent is looked at: with a file further up and the parent missing it reports "does not exist" where the system reports ENOTDIR. `CollectionDir.Create` tests only for "exists", so no branch depends on the difference.
- CollectionApi.ValidateCreateBody, CollectionApi.ValidateEditBody: model the required-field rule on the already transformed title. The `anvil` trimming is not modelled, and the validation library's message is reduced to the field name `title`.
- CollectionDb.AnyChanged, CollectionDb.Patch: addToRecord's body is not part of this model; it is taken to add a field exactly when its Changed flag is set.
- Request-body decoding and the call to `Validate` are done by the pyrin framework. They are not part of this model, so the handlers take the decoded title.
- `pyrin.FormFiles` errors are not modelled; the handler takes the uploaded files.
- The GET handlers (`GetCollections`, `GetCollectionById`, `GetCollectionImages`) and `ConvertDBCollection`/`ConvertDBCollectionImage` only pass values through. Their lookups and queries are modelled above.
- JWT decoding, signature checking and claim validation (golang-jwt) are parameters of `ApiHelper.Jwt`, and `utils.ParseAuthHeader` is a parameter.
- Header name canonicalisation of `http.Header.Get` is not modelled; headers are looked up by exact name.
- Logging (`fmt.Printf`), concurrency and request contexts are left out.

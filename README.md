# File sharing service: a verified model of its upload, listing, lookup and delete logic

This project models the server side of a small file-sharing web service.
Signed-in users upload files. The bytes go to an external asset store, and a
metadata record (name, size, MIME type, the asset's public id and URL, its
resource kind, the owner and a creation time) goes to a document database.
Anyone holding a share link `<base>/file/<id>` can look a file up. Owners can
list their files, filtered by kind, and can delete them.

The model covers:

- the helpers of `lib/utils.ts`: MIME classification, the upload allow-list,
  the storage sum, the 3 GiB quota test and share-link construction;
- the metadata record of `models/File.ts` and the metadata collection, a
  class holding a map from id to record;
- the four API routes (`POST /api/upload`, `DELETE /api/delete`,
  `GET /api/files`, `GET /api/file`), each against that store.

Everything outside the process is a parameter: the session (an optional
caller id), the multipart file, the `NEXTAUTH_URL` setting, the asset store's
answer, whether a database write goes through, the clock and the signed-URL
builder. The upload and delete routes return the asset-store request they
issued, so a proof can say when no such call is made.

Modules, one per file:

- `Wrappers`: the `Option` and `Result` types.
- `Strings`: substring search (`includes`) with an index-based reference
  meaning, ASCII lower-casing, and the decimal spelling used for record ids.
- `Http`: the session type and the `!param` test for query parameters.
- `FileModel`: the record, the `find` query language and the `FileStore`
  class (`save`, `find`, `findById`, `findByIdAndDelete`).
- `Utils`: `lib/utils.ts`.
- `UploadRoute`, `DeleteRoute`, `FilesRoute`, `FileRoute`: the four routes.
- `Lifecycle`: the routes composed over one store.

Points where the code was followed closely:

- The classification is case-sensitive: `includes` and `startsWith`.
- The listing's 'document' filter is a case-insensitive regular expression
  over six words. Two of them, "excel" and "sheet", are not in the
  classification's word list.
- The listing filter 'archive' is not handled by the route, so it lists
  everything the caller owns. 'archive' is a member of the client's
  file-type union, but its filter menu never sends it.
- `NEXTAUTH_URL || default` treats an empty value as unset.
- The delete route swallows the asset store's error and removes the record
  anyway.
- On upload, the stored resource kind is the one the asset store reports, not
  the one that was requested.

## Model

| member | source | states |
|---|---|---|
| Utils.ClassificationSpec | lib/utils.ts:23-30 | Each media prefix decides on its own, and the three exclude one another. A type without one is 'document' exactly when a document word occurs in it, 'archive' exactly when no document word but an archive word occurs, and 'file' otherwise. Word occurrence is stated by index, independent of the search code. |
| Utils.PrefixBeatsWords | lib/utils.ts:24-27 | 'video/x-text' contains "text" yet is classified as video. |
| Utils.AllowedTypeCategories | lib/utils.ts:47-64 | Every allow-listed image, audio, video and archive type gets its own group's category, and every listed document type is a 'document' except 'application/vnd.ms-excel', which is a 'file'. |
| Utils.AllowListIsNotClassification | lib/utils.ts:47-64 | The allow-list has 26 entries. 'image/bmp' is an image but is refused. 'application/vnd.ms-excel' is accepted but classified as 'file'. |
| Utils.TotalStorageConcat | lib/utils.ts:87-89 | The total of no files is 0, and the total of a concatenation is the sum of the totals. |
| Utils.TotalStorageIsUsage | lib/utils.ts:87-89 | Whatever order a listing comes in, its total is the total size of the set of records it lists. |
| Utils.StorageLimitIsMonotone | lib/utils.ts:96-99 | Once exceeded, the limit stays exceeded for larger totals. |
| Utils.StorageLimitBoundary | lib/utils.ts:96-99 | The ceiling is 3221225472 bytes. A total equal to the ceiling already counts as exceeded, and one byte less does not. |
| Utils.ShareUrlNamesId | lib/utils.ts:37-40 | A share link is the base URL, then "/file/", then the id. With the setting unset or empty the link starts with 'http://localhost:3000/file/'. Different ids give different links. |
| FileModel.SelectedMembers | app/api/files/route.ts:48 | A record is selected by a query exactly when it is stored and matches the query. |
| FileModel.FileStore.Save | app/api/upload/route.ts:141-151 | The save succeeds exactly when the document meets the schema's required fields and the write goes through. It then stores the document under a non-empty id never handed out before, not even to a record since deleted, and changes nothing else. A failed save changes nothing. |
| FileModel.FileStore.FindByIdAndDelete | app/api/delete/route.ts:66 | Removes the record under the id and nothing else. The id stays among those already handed out. |
| FileModel.FileStore.Find | app/api/upload/route.ts:69 | Returns every stored record that matches the query, each exactly once, and nothing else. |
| UploadRoute.Post | app/api/upload/route.ts:21-172 | The checks run in order and answer 401, 400 (no file), 400 (schema), 400 (type) and 400 (quota). Each of these leaves the store unchanged and makes no asset-store call. An admitted upload is sent to the 'fileshare/uploads' folder with the requested kind and without the file's name. It succeeds exactly when the asset store returns a secure URL and the save goes through. Then it inserts one record under an id never handed out before, owned by the caller, carrying the upload's name, size and type and the store's id, URL and kind. It answers with that record's id, `BuildPublicFileUrl` of the id and the file name. Any later failure answers 500 and leaves the store unchanged. |
| UploadRoute.RequestedKind | app/api/upload/route.ts:80-82 | 'image' exactly for types classified as image, 'video' exactly for types classified as video, and 'raw' for all others, audio included. It is never 'auto'. |
| UploadRoute.OtherUsersDoNotCount | app/api/upload/route.ts:69-72 | Adding another user's record leaves the caller's quota usage unchanged. |
| UploadRoute.QuotaIsMonotone | app/api/upload/route.ts:72-77 | A file refused at some size is refused at every larger size. |
| UploadRoute.CallerAtCeilingIsRefused | app/api/upload/route.ts:69-77 | A caller whose stored bytes already reach 3 GiB is refused every upload, whatever its size. Such an upload is never admitted, so no asset-store call is made. |
| UploadRoute.UploadSchemaBounds | app/api/upload/route.ts:11-15 | A size of exactly 100 MiB is accepted. 100 MiB plus one byte is refused, as are size 0, an empty name and an empty type. |
| UploadRoute.EmptyStoreAdmits | app/api/upload/route.ts:69-77 | With nothing stored, an upload that passes the schema and the allow-list also passes the quota. |
| DeleteRoute.Delete | app/api/delete/route.ts:13-80 | The checks run in order and answer 401, 400 (missing or empty id), 404 and 403. Each of these leaves the store unchanged and makes no asset-store call. The request succeeds exactly when the caller's id equals the record's owner. It then asks the asset store to destroy the record's asset, whatever the outcome of that call. It removes exactly that record and answers with its file name. |
| FilesRoute.Insert | app/api/files/route.ts:48 | Inserting into a newest-first list keeps it newest first and adds exactly one copy of the record. |
| FilesRoute.SortNewestFirst | app/api/files/route.ts:48 | The result is ordered by `createdAt`, newest first, and is a permutation of the input. |
| FilesRoute.GetFiles | app/api/files/route.ts:13-63 | Answers 401 exactly when there is no session. Otherwise the listing is a permutation of the records the query selects, newest first, and `count` is its length. |
| FilesRoute.FilterSelects | app/api/files/route.ts:26-45 | Only the caller's records are listed. 'image', 'video' and 'audio' keep exactly the types with that prefix. 'document' keeps exactly the types in which one of the six words occurs, ignoring letter case. A missing or empty parameter, 'all' and any other value keep all the caller's records. |
| FilesRoute.ArchiveFilterListsAll | app/api/files/route.ts:32-45 | 'archive' selects the same records as no filter. |
| FilesRoute.DocumentTypesPassDocumentFilter | app/api/files/route.ts:39-44 | Every type classified as 'document' passes the 'document' filter. |
| FilesRoute.ExcelListedAsDocument | app/api/files/route.ts:39-44 | 'application/vnd.ms-excel' passes the 'document' filter, yet it is classified as 'file'. |
| FileRoute.GetFile | app/api/file/route.ts:10-60 | A missing or empty id answers 400. Otherwise the request succeeds exactly when the id is stored, and answers 404 when it is not. The answer carries the stored record's id, name, size, type, URL, kind and creation time, plus the signed link for its asset. There is no caller and no ownership check. |
| FileRoute.GetAfterDelete | app/api/file/route.ts:26-33 | Once a record is removed, looking up its id answers 404. |
| FileRoute.GetAfterSave | app/api/file/route.ts:26-51 | A record just saved is served back with the fields it was saved with. |
| FileRoute.GetIsLocal | app/api/file/route.ts:26-51 | Removing or saving one record does not change the answer for any other id. |
| Lifecycle.UploadShareDelete | app/api/upload/route.ts:158-163 | Take an empty store and an accepted upload. Uploading answers 201 and looking it up answers 200. A stranger's delete answers 403. The owner's delete answers 200, whether or not the asset store's delete worked. Looking it up afterwards answers 404. |
| Lifecycle.DeletedLinkStaysDead | app/api/file/route.ts:26-33 | After one record is saved and deleted and another is saved, the two ids differ. The first share link answers 404 and the second answers 200. |

## Left out

- The `catch` paths that turn database errors into 500 are left out: connection failures, and `findById` on an id that is not a valid ObjectId. Every non-empty id is a plain lookup key here, so a malformed id answers 404 instead of 500.
- Concurrency is left out: each request is one atomic step, so the race between two uploads that both pass the quota check is not modelled.
- The asset store (lib/cloudinary.ts) is not part of this model. Its answers are a parameter. A stored kind outside the schema's enumeration cannot arise here. The signed download link is an opaque function of the public id and the kind.
- The asset left behind when the metadata save fails after a successful upload is visible only as an issued storage request with a failed answer. Stored assets are not tracked as a set.
- Authentication (lib/authOptions.ts) is not part of this model. The session is an optional caller id.
- lib/db.ts is not part of this model. The database is the `FileStore` map.
- Multipart parsing, buffer conversion and logging are left out, and so are the fixed `message` and `error` strings of the JSON bodies. Each answer is a status and its data.
- `formatFileSize` and `formatDate` are left out, because they are floating-point and locale formatting.
- UploadRoute.ValidUploadData: name and type lengths count characters of the model's strings, not UTF-16 code units as JavaScript does. Sizes are unbounded naturals, with no floating-point sizes.
- Utils.CalculateTotalStorage: exact integer sums. JavaScript adds doubles, and those differ only above 2^53 bytes.
- FilesRoute.BuildQuery: the regular expression's `i` option is modelled as ASCII lower-casing. MongoDB's Unicode case folding is not modelled.
- FileModel.FileStore.Find: the order in which the database returns records is not modelled. The listing's order comes only from the sort, and records with equal `createdAt` may come in any order.
- FileModel.IdFor: ids are decimal counters, not ObjectIds. Only their freshness matters to the routes.

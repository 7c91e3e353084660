/**
 * `POST /api/upload` (app/api/upload/route.ts): a chain of guarded early
 * returns (session, file present, metadata schema, allow-list, quota), then
 * one call to the storage provider and one insert into the metadata store.
 *
 * The session, the multipart file, the `NEXTAUTH_URL` setting, the storage
 * provider's answer, whether the database write goes through and the clock
 * are parameters; the method returns the storage request it issued, if any.
 */
module UploadRoute {
  import opened Wrappers
  import opened Http
  import opened FileModel
  import Utils

  /** The multipart `file` field: its name, size in bytes and MIME type. */
  datatype Upload = Upload(name: string, size: nat, mimeType: string)

  /** The upload size ceiling of the metadata schema: 100 MiB. */
  const MaxUploadSize: nat := 100 * 1024 * 1024

  /** The storage folder every upload goes to. */
  const UploadFolder: string := "fileshare/uploads"

  /** The options passed to the storage provider's `upload_stream`. */
  datatype StorageRequest = StorageRequest(folder: string, kind: ResourceKind, useFilename: bool)

  /** What the storage provider answered: an error, or the stored asset's public id, secure URL and kind. */
  datatype StorageResult = StorageFailed | Stored(publicId: string, secureUrl: string, kind: ResourceKind)

  datatype UploadError = Unauthorized | NoFile | InvalidFileData | TypeNotAllowed | StorageLimitExceeded | UploadFailed
  {
    /** The HTTP status the route answers with. */
    function Status(): int {
      match this
      case Unauthorized => 401
      case NoFile | InvalidFileData | TypeNotAllowed | StorageLimitExceeded => 400
      case UploadFailed => 500
    }
  }

  /** The 201 response body: the new record's id, its share link and the original file name. */
  datatype Uploaded = Uploaded(id: Id, shareUrl: string, fileName: string)

  const CreatedStatus: int := 201

  /** The HTTP status of the route's answer. */
  function StatusOf(r: Result<Uploaded, UploadError>): int {
    match r
    case Success(_) => CreatedStatus
    case Failure(e) => e.Status()
  }

  /** `uploadSchema`: a name of 1 to 255 characters, a positive size of at most 100 MiB, a non-empty type. */
  predicate ValidUploadData(u: Upload) {
    1 <= |u.name| <= 255 && 0 < u.size <= MaxUploadSize && 1 <= |u.mimeType|
  }

  /**
   * The resource kind requested from the provider: 'image' for 'image/...',
   * 'video' for 'video/...', 'raw' for everything else, audio included.
   * It follows the classification exactly on the first two categories.
   */
  function RequestedKind(mimeType: string): (k: ResourceKind)
    ensures k == Image <==> Utils.GetFileTypeFromMime(mimeType) == Utils.Image
    ensures k == Video <==> Utils.GetFileTypeFromMime(mimeType) == Utils.Video
    ensures k == Raw <==> Utils.GetFileTypeFromMime(mimeType) !in {Utils.Image, Utils.Video}
    ensures k != Auto
  {
    Utils.ClassificationSpec(mimeType);
    if "image/" <= mimeType then Image
    else if "video/" <= mimeType then Video
    else Raw
  }

  /** The caller's stored bytes: the sizes of every record they own. */
  ghost function UsageOf(records: map<Id, FileRecord>, userId: string): nat {
    Utils.Usage(Selected(records, Query(userId, None)))
  }

  /** The quota rule: the caller's stored bytes plus the new file reach 3 GiB. */
  ghost predicate OverQuota(records: map<Id, FileRecord>, userId: string, size: nat) {
    Utils.IsStorageLimitExceeded(UsageOf(records, userId) + size)
  }

  /** Every guard before the storage call passes. */
  ghost predicate Admitted(records: map<Id, FileRecord>, session: Session, file: Option<Upload>) {
    && session.Some?
    && file.Some?
    && ValidUploadData(file.value)
    && Utils.IsAllowedFileType(file.value.mimeType)
    && !OverQuota(records, session.value, file.value.size)
  }

  /** The metadata document the route saves for an admitted upload stored as `stored`. */
  function NewRecord(userId: string, u: Upload, stored: StorageResult, now: nat): FileRecord
    requires stored.Stored?
  {
    FileRecord("", u.name, u.size, u.mimeType, stored.publicId, stored.secureUrl, stored.kind, userId, now)
  }

  /**
   * `POST`. The guards run in the source's order and each rejection leaves
   * the store as it was and makes no storage call; an admitted upload is
   * sent to the provider with the requested kind; the record is inserted
   * only when the provider returned a secure URL and the save succeeded,
   * and then it is the only change to the store.
   */
  method Post(store: FileStore, session: Session, file: Option<Upload>, nextAuthUrl: Option<string>,
              storage: StorageResult, writeOk: bool, now: nat)
    returns (r: Result<Uploaded, UploadError>, call: Option<StorageRequest>)
    requires store.Valid()
    modifies store
    ensures store.Valid()
    ensures session.None? ==> r == Failure(Unauthorized)
    ensures session.Some? && file.None? ==> r == Failure(NoFile)
    ensures session.Some? && file.Some? && !ValidUploadData(file.value) ==> r == Failure(InvalidFileData)
    ensures session.Some? && file.Some? && ValidUploadData(file.value) && !Utils.IsAllowedFileType(file.value.mimeType)
      ==> r == Failure(TypeNotAllowed)
    ensures session.Some? && file.Some? && ValidUploadData(file.value) && Utils.IsAllowedFileType(file.value.mimeType)
      && OverQuota(old(store.records), session.value, file.value.size)
      ==> r == Failure(StorageLimitExceeded)
    ensures call.Some? <==> Admitted(old(store.records), session, file)
    ensures call.Some? ==> call.value == StorageRequest(UploadFolder, RequestedKind(file.value.mimeType), false)
    ensures call.Some? && r.Failure? ==> r.error == UploadFailed
    ensures r.Success? <==>
      && Admitted(old(store.records), session, file)
      && storage.Stored? && storage.secureUrl != ""
      && Conforms(NewRecord(session.value, file.value, storage, now)) && writeOk
    ensures r.Failure? ==> store.records == old(store.records) && store.issued == old(store.issued)
    ensures r.Success? ==>
      && r.value.id !in old(store.issued) && r.value.id != ""
      && store.issued == old(store.issued) + {r.value.id}
      && store.records == old(store.records)[r.value.id := NewRecord(session.value, file.value, storage, now).(id := r.value.id)]
      && r.value.shareUrl == Utils.BuildPublicFileUrl(nextAuthUrl, r.value.id)
      && r.value.fileName == file.value.name
  {
    call := None;
    if session.None? {
      return Failure(Unauthorized), call;
    }
    var userId := session.value;
    if file.None? {
      return Failure(NoFile), call;
    }
    var u := file.value;
    if !ValidUploadData(u) {
      return Failure(InvalidFileData), call;
    }
    if !Utils.IsAllowedFileType(u.mimeType) {
      return Failure(TypeNotAllowed), call;
    }

    var userFiles := store.Find(Query(userId, None));
    var totalStorage := Utils.CalculateTotalStorage(userFiles);
    Utils.TotalStorageIsUsage(userFiles, Selected(store.records, Query(userId, None)));
    if Utils.IsStorageLimitExceeded(totalStorage + u.size) {
      return Failure(StorageLimitExceeded), call;
    }

    var kind := Raw;
    if "image/" <= u.mimeType {
      kind := Image;
    } else if "video/" <= u.mimeType {
      kind := Video;
    }
    call := Some(StorageRequest(UploadFolder, kind, false));

    if storage.StorageFailed? || storage.secureUrl == "" {
      return Failure(UploadFailed), call;
    }
    var id := store.Save(NewRecord(userId, u, storage, now), writeOk);
    if id.None? {
      return Failure(UploadFailed), call;
    }
    var shareUrl := Utils.BuildPublicFileUrl(nextAuthUrl, id.value);
    r := Success(Uploaded(id.value, shareUrl, u.name));
  }

  /** On an empty store the quota cannot refuse a file the schema accepts: only the earlier guards apply. */
  lemma EmptyStoreAdmits(userId: string, u: Upload)
    requires ValidUploadData(u) && Utils.IsAllowedFileType(u.mimeType)
    ensures Admitted(map[], Some(userId), Some(u))
  {
    assert Selected(map[], Query(userId, None)) == {};
  }

  /**
   * Only the caller's own records count towards the quota: storing a record
   * of another user under a new id leaves the caller's usage unchanged.
   */
  lemma OtherUsersDoNotCount(records: map<Id, FileRecord>, id: Id, rec: FileRecord, userId: string)
    requires id !in records && rec.userId != userId
    ensures UsageOf(records[id := rec], userId) == UsageOf(records, userId)
  {
    var q := Query(userId, None);
    forall x | x in Selected(records[id := rec], q) ensures x in Selected(records, q) {
      SelectedMembers(records[id := rec], q, x);
      SelectedMembers(records, q, x);
      var k :| k in records[id := rec] && records[id := rec][k] == x;
      assert k != id;
    }
    forall x | x in Selected(records, q) ensures x in Selected(records[id := rec], q) {
      SelectedMembers(records[id := rec], q, x);
      SelectedMembers(records, q, x);
      var k :| k in records && records[k] == x;
      assert records[id := rec][k] == x;
    }
    assert Selected(records[id := rec], q) == Selected(records, q);
  }

  /** The quota decision is monotone: a file refused at some size is refused at any larger size too. */
  lemma QuotaIsMonotone(records: map<Id, FileRecord>, userId: string, size: nat, larger: nat)
    requires OverQuota(records, userId, size) && size <= larger
    ensures OverQuota(records, userId, larger)
  {
    Utils.StorageLimitIsMonotone(UsageOf(records, userId) + size, UsageOf(records, userId) + larger);
  }

  /**
   * A caller whose stored bytes already reach the ceiling is refused every
   * upload: whatever its size, an upload is over quota and not admitted.
   */
  lemma CallerAtCeilingIsRefused(records: map<Id, FileRecord>, userId: string, u: Upload)
    ensures UsageOf(records, userId) >= Utils.MaxStorage ==>
      OverQuota(records, userId, u.size) && !Admitted(records, Some(userId), Some(u))
  {
  }

  /** The schema's bounds are inclusive at the top and exclusive at zero. */
  lemma UploadSchemaBounds(name: string, mimeType: string)
    requires 1 <= |name| <= 255 && mimeType != ""
    ensures ValidUploadData(Upload(name, 104857600, mimeType))
    ensures !ValidUploadData(Upload(name, 104857601, mimeType))
    ensures !ValidUploadData(Upload(name, 0, mimeType))
    ensures !ValidUploadData(Upload("", 1, mimeType)) && !ValidUploadData(Upload(name, 1, ""))
  {
  }
}

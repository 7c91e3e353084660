/**
 * `GET /api/file?id=...` (app/api/file/route.ts): the public lookup behind a
 * share link. There is no session and no ownership check; the answer is the
 * stored record's fields plus a signed download link for its asset.
 */
module FileRoute {
  import opened Wrappers
  import opened Http
  import opened FileModel

  datatype GetError = MissingId | NotFound
  {
    /** The HTTP status the route answers with. */
    function Status(): int {
      match this
      case MissingId => 400
      case NotFound => 404
    }
  }

  /** The 200 response body: the record's public fields and a download link. */
  datatype FileView = FileView(
    id: Id,
    fileName: string,
    fileSize: nat,
    mimeType: string,
    storageUrl: string,
    resourceKind: ResourceKind,
    createdAt: nat,
    downloadUrl: string)

  /** The HTTP status of the route's answer. */
  function StatusOf(r: Result<FileView, GetError>): int {
    match r
    case Success(_) => 200
    case Failure(e) => e.Status()
  }

  /**
   * `GET`, over the stored records. `sign` stands for the provider's signed
   * URL builder, applied to the record's public id and resource kind.
   */
  function GetFile(records: map<Id, FileRecord>, idParam: Option<string>, sign: (string, ResourceKind) -> string)
    : (r: Result<FileView, GetError>)
    ensures MissingParam(idParam) ==> r == Failure(MissingId)
    ensures !MissingParam(idParam) ==> (r.Success? <==> idParam.value in records)
    ensures !MissingParam(idParam) && idParam.value !in records ==> r == Failure(NotFound)
    ensures r.Success? ==>
      var f := records[idParam.value];
      && r.value.id == f.id && r.value.fileName == f.fileName && r.value.fileSize == f.fileSize
      && r.value.mimeType == f.mimeType && r.value.storageUrl == f.storageUrl
      && r.value.resourceKind == f.resourceKind && r.value.createdAt == f.createdAt
      && r.value.downloadUrl == sign(f.storageId, f.resourceKind)
  {
    if MissingParam(idParam) then Failure(MissingId)
    else
      match FindIn(records, idParam.value)
      case None => Failure(NotFound)
      case Some(f) =>
        Success(FileView(f.id, f.fileName, f.fileSize, f.mimeType, f.storageUrl, f.resourceKind, f.createdAt,
                         sign(f.storageId, f.resourceKind)))
  }

  /** Once a record is removed, its share link answers 404. */
  lemma GetAfterDelete(records: map<Id, FileRecord>, id: Id, sign: (string, ResourceKind) -> string)
    requires id != ""
    ensures GetFile(records - {id}, Some(id), sign) == Failure(NotFound)
  {
  }

  /** A record just saved under `id` is served back with the fields it was saved with. */
  lemma GetAfterSave(records: map<Id, FileRecord>, id: Id, doc: FileRecord, sign: (string, ResourceKind) -> string)
    requires id != ""
    ensures var r := GetFile(records[id := doc.(id := id)], Some(id), sign);
      && r.Success?
      && r.value.id == id && r.value.fileName == doc.fileName && r.value.fileSize == doc.fileSize
      && r.value.mimeType == doc.mimeType && r.value.storageUrl == doc.storageUrl
      && r.value.resourceKind == doc.resourceKind && r.value.createdAt == doc.createdAt
      && r.value.downloadUrl == sign(doc.storageId, doc.resourceKind)
  {
  }

  /** Removing or saving one record leaves the answer for every other id as it was. */
  lemma GetIsLocal(records: map<Id, FileRecord>, id: Id, other: Id, doc: FileRecord,
                   sign: (string, ResourceKind) -> string)
    requires other != id
    ensures GetFile(records - {id}, Some(other), sign) == GetFile(records, Some(other), sign)
    ensures GetFile(records[id := doc], Some(other), sign) == GetFile(records, Some(other), sign)
  {
  }
}

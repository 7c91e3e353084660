/**
 * `DELETE /api/delete?id=...` (app/api/delete/route.ts): session, id,
 * existence and ownership guards, a best-effort delete of the stored asset,
 * then removal of the metadata record.
 *
 * Whether the provider's delete succeeds is a parameter; the method returns
 * the delete request it issued, if any.
 */
module DeleteRoute {
  import opened Wrappers
  import opened Http
  import opened FileModel

  datatype DeleteError = Unauthorized | MissingId | NotFound | Forbidden
  {
    /** The HTTP status the route answers with. */
    function Status(): int {
      match this
      case Unauthorized => 401
      case MissingId => 400
      case NotFound => 404
      case Forbidden => 403
    }
  }

  /** The provider call `destroy(publicId, { resource_type })`. */
  datatype DestroyRequest = DestroyRequest(publicId: string, kind: ResourceKind)

  /** The HTTP status of the route's answer. */
  function StatusOf(r: Result<string, DeleteError>): int {
    match r
    case Success(_) => 200
    case Failure(e) => e.Status()
  }

  /** The caller owns the record stored under `id`: strict equality of user ids, and nothing else grants it. */
  predicate MayDelete(records: map<Id, FileRecord>, session: Session, idParam: Option<string>) {
    && session.Some?
    && !MissingParam(idParam)
    && idParam.value in records
    && records[idParam.value].userId == session.value
  }

  /**
   * `DELETE`. The guards run in the source's order and each rejection leaves
   * the store as it was and makes no provider call. An authorised delete asks
   * the provider to destroy the asset, ignores whether that worked, removes
   * exactly the record under the id and answers with its file name.
   */
  method Delete(store: FileStore, session: Session, idParam: Option<string>, destroyOk: bool)
    returns (r: Result<string, DeleteError>, destroy: Option<DestroyRequest>)
    requires store.Valid()
    modifies store
    ensures store.Valid()
    ensures session.None? ==> r == Failure(Unauthorized)
    ensures session.Some? && MissingParam(idParam) ==> r == Failure(MissingId)
    ensures session.Some? && !MissingParam(idParam) && idParam.value !in old(store.records) ==> r == Failure(NotFound)
    ensures session.Some? && !MissingParam(idParam) && idParam.value in old(store.records) ==>
      (old(store.records)[idParam.value].userId != session.value ==> r == Failure(Forbidden))
    ensures r.Success? <==> MayDelete(old(store.records), session, idParam)
    ensures r.Failure? ==> store.records == old(store.records) && destroy.None?
    ensures store.issued == old(store.issued)
    ensures r.Success? ==>
      var deleted := old(store.records)[idParam.value];
      && store.records == old(store.records) - {idParam.value}
      && r.value == deleted.fileName
      && destroy == Some(DestroyRequest(deleted.storageId, deleted.resourceKind))
  {
    destroy := None;
    if session.None? {
      return Failure(Unauthorized), destroy;
    }
    if MissingParam(idParam) {
      return Failure(MissingId), destroy;
    }
    var id := idParam.value;
    var file := store.FindById(id);
    if file.None? {
      return Failure(NotFound), destroy;
    }
    if file.value.userId != session.value {
      return Failure(Forbidden), destroy;
    }
    destroy := Some(DestroyRequest(file.value.storageId, file.value.resourceKind));
    // Whether the provider's delete worked (`destroyOk`) is only logged: the record goes either way.
    store.FindByIdAndDelete(id);
    r := Success(file.value.fileName);
  }
}

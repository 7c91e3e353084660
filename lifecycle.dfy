/**
 * The routes composed over one store: a file is uploaded, served through its
 * share link, refused to a stranger's delete, deleted by its owner, and then
 * its link answers 404.
 */
module Lifecycle {
  import opened Wrappers
  import opened FileModel
  import UploadRoute
  import DeleteRoute
  import FileRoute
  import Utils

  /**
   * Any file the upload schema and the allow-list accept, uploaded by a
   * signed-in owner to an empty store and stored by the provider, goes
   * through the whole life cycle with these statuses, whether or not the
   * provider's delete succeeds.
   */
  method UploadShareDelete(owner: string, stranger: string, upload: UploadRoute.Upload,
                           stored: UploadRoute.StorageResult, destroyOk: bool, now: nat,
                           sign: (string, ResourceKind) -> string)
    returns (uploaded: int, served: int, strangerDelete: int, ownerDelete: int, afterDelete: int)
    requires owner != "" && stranger != owner
    requires UploadRoute.ValidUploadData(upload) && Utils.IsAllowedFileType(upload.mimeType)
    requires stored.Stored? && stored.publicId != "" && stored.secureUrl != ""
    ensures uploaded == 201 && served == 200
    ensures strangerDelete == 403 && ownerDelete == 200 && afterDelete == 404
  {
    var store := new FileStore();
    UploadRoute.EmptyStoreAdmits(owner, upload);
    var r, _ := UploadRoute.Post(store, Some(owner), Some(upload), None, stored, true, now);
    assert r.Success?;
    uploaded := UploadRoute.StatusOf(r);
    var id := r.value.id;

    var view := FileRoute.GetFile(store.records, Some(id), sign);
    served := FileRoute.StatusOf(view);

    var d1, _ := DeleteRoute.Delete(store, Some(stranger), Some(id), destroyOk);
    strangerDelete := DeleteRoute.StatusOf(d1);

    var d2, _ := DeleteRoute.Delete(store, Some(owner), Some(id), destroyOk);
    ownerDelete := DeleteRoute.StatusOf(d2);

    var after := FileRoute.GetFile(store.records, Some(id), sign);
    afterDelete := FileRoute.StatusOf(after);
  }

  /**
   * A share link never comes to serve another record: after a record is
   * saved and deleted, the next record saved gets a different id, and the
   * first link keeps answering 404.
   */
  method DeletedLinkStaysDead(store: FileStore, first: FileRecord, second: FileRecord,
                              sign: (string, ResourceKind) -> string)
    returns (firstId: Id, secondId: Id)
    requires store.Valid() && Conforms(first) && Conforms(second)
    modifies store
    ensures store.Valid()
    ensures firstId != secondId
    ensures FileRoute.StatusOf(FileRoute.GetFile(store.records, Some(firstId), sign)) == 404
    ensures FileRoute.StatusOf(FileRoute.GetFile(store.records, Some(secondId), sign)) == 200
  {
    var a := store.Save(first, true);
    firstId := a.value;
    store.FindByIdAndDelete(firstId);
    var b := store.Save(second, true);
    secondId := b.value;
  }
}

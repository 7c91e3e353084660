/**
 * The file metadata record (the `File` schema of models/File.ts) and the
 * metadata collection that stores one record per id, with the four store
 * operations the routes use: `save`, `find`, `findById` and
 * `findByIdAndDelete`.
 */
module FileModel {
  import opened Wrappers
  import opened Strings

  type Id = string

  /** The schema's `resourceType` enumeration. */
  datatype ResourceKind = Image | Video | Raw | Auto

  /**
   * One stored file. `storageId` and `storageUrl` are the storage provider's
   * public id and secure URL; `createdAt` is a timestamp in milliseconds.
   */
  datatype FileRecord = FileRecord(
    id: Id,
    fileName: string,
    fileSize: nat,
    mimeType: string,
    storageId: string,
    storageUrl: string,
    resourceKind: ResourceKind,
    userId: string,
    createdAt: nat)

  /**
   * The schema's `required` validators: a required string must be present
   * and non-empty; the numeric size and the enumerated kind are always present
   * here by their types.
   */
  predicate Conforms(doc: FileRecord) {
    doc.fileName != "" && doc.mimeType != "" && doc.storageId != "" && doc.storageUrl != "" && doc.userId != ""
  }

  /** The id the store gives to the `n`-th record it creates. */
  function IdFor(n: nat): Id {
    NatToString(n)
  }

  /** The MIME constraint of a listing query: an anchored prefix or a case-insensitive alternation of words. */
  datatype MimePattern = StartsWith(prefix: string) | AnyWordIgnoreCase(words: seq<string>)

  /** A `find` query: the owner, and optionally a constraint on `mimeType`. */
  datatype Query = Query(userId: string, mime: Option<MimePattern>)

  predicate PatternMatches(pattern: MimePattern, mimeType: string) {
    match pattern
    case StartsWith(prefix) => prefix <= mimeType
    case AnyWordIgnoreCase(words) => exists w | w in words :: Contains(Lower(mimeType), Lower(w))
  }

  predicate Matches(q: Query, r: FileRecord) {
    r.userId == q.userId && (q.mime.None? || PatternMatches(q.mime.value, r.mimeType))
  }

  /** The records stored under `ids` that satisfy `q`. */
  ghost function SelectedAmong(records: map<Id, FileRecord>, q: Query, ids: set<Id>): set<FileRecord> {
    set id | id in ids && id in records && Matches(q, records[id]) :: records[id]
  }

  /** Everything `find(q)` must return. */
  ghost function Selected(records: map<Id, FileRecord>, q: Query): set<FileRecord> {
    SelectedAmong(records, q, records.Keys)
  }

  lemma SelectedMembers(records: map<Id, FileRecord>, q: Query, r: FileRecord)
    ensures r in Selected(records, q) <==> r in records.Values && Matches(q, r)
  {
    if r in records.Values {
      var id :| id in records && records[id] == r;
    }
  }

  /** `findById`: the record stored under `id`, if any. */
  function FindIn(records: map<Id, FileRecord>, id: Id): Option<FileRecord> {
    if id in records then Some(records[id]) else None
  }

  class FileStore {
    /** The metadata collection, keyed by record id. */
    var records: map<Id, FileRecord>
    /** How many ids the store has handed out. */
    var nextSeq: nat
    /** Every id ever handed out, including those of records since deleted. */
    ghost var issued: set<Id>

    /**
     * Each record is stored under its own id, every stored id was handed out,
     * and no id the store will hand out later has been handed out before.
     */
    ghost predicate Valid()
      reads this
    {
      && (forall id | id in records :: records[id].id == id)
      && records.Keys <= issued
      && (forall n: nat :: nextSeq <= n ==> IdFor(n) !in issued)
    }

    constructor ()
      ensures Valid() && records == map[] && issued == {}
    {
      records := map[];
      nextSeq := 0;
      issued := {};
    }

    /** `findById` on this store. */
    function FindById(id: Id): Option<FileRecord>
      reads this
    {
      FindIn(records, id)
    }

    /**
     * `new File(doc).save()`: validates `doc` against the schema and, when it
     * conforms and the write goes through (`writeOk`), stores it under an id
     * never handed out before (not even to a record since deleted), which it
     * returns; every record already stored stays as it was. A rejected or
     * failed save changes nothing.
     */
    method Save(doc: FileRecord, writeOk: bool) returns (id: Option<Id>)
      requires Valid()
      modifies this
      ensures Valid()
      ensures id.Some? <==> Conforms(doc) && writeOk
      ensures id.Some? ==> id.value !in old(issued) && id.value != ""
      ensures id.Some? ==> records == old(records)[id.value := doc.(id := id.value)]
      ensures id.Some? ==> issued == old(issued) + {id.value}
      ensures id.None? ==> records == old(records) && issued == old(issued)
    {
      if !Conforms(doc) || !writeOk {
        return None;
      }
      var newId := IdFor(nextSeq);
      NatToStringLength(nextSeq);
      forall n: nat | nextSeq + 1 <= n ensures IdFor(n) != newId {
        if IdFor(n) == newId {
          NatToStringInjective(n, nextSeq);
        }
      }
      records := records[newId := doc.(id := newId)];
      issued := issued + {newId};
      nextSeq := nextSeq + 1;
      id := Some(newId);
    }

    /** `findByIdAndDelete`: removes the record stored under `id`, if any, and nothing else. */
    method FindByIdAndDelete(id: Id)
      requires Valid()
      modifies this
      ensures Valid()
      ensures records == old(records) - {id} && issued == old(issued)
    {
      records := records - {id};
    }

    /** `find(q)`: every stored record that satisfies `q`, each exactly once, in no particular order. */
    method Find(q: Query) returns (found: seq<FileRecord>)
      requires Valid()
      ensures multiset(found) == multiset(Selected(records, q))
    {
      found := [];
      var pending := records.Keys;
      while pending != {}
        invariant pending <= records.Keys
        invariant multiset(found) == multiset(SelectedAmong(records, q, records.Keys - pending))
        decreases pending
      {
        var id :| id in pending;
        var r := records[id];
        ghost var before := SelectedAmong(records, q, records.Keys - pending);
        assert r !in before;
        if Matches(q, r) {
          assert SelectedAmong(records, q, records.Keys - (pending - {id})) == before + {r};
          found := found + [r];
        } else {
          assert SelectedAmong(records, q, records.Keys - (pending - {id})) == before;
        }
        pending := pending - {id};
      }
    }
  }
}

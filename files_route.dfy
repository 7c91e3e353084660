/**
 * `GET /api/files?type=...` (app/api/files/route.ts): the caller's own
 * records, optionally narrowed by a MIME-type filter, newest first.
 */
module FilesRoute {
  import opened Wrappers
  import opened Strings
  import opened Http
  import opened FileModel
  import Utils

  datatype ListError = Unauthorized
  {
    function Status(): int { 401 }
  }

  /** The 200 response body: the records and how many there are. */
  datatype Listing = Listing(files: seq<FileRecord>, count: nat)

  /** The HTTP status of the route's answer. */
  function StatusOf(r: Result<Listing, ListError>): int {
    match r
    case Success(_) => 200
    case Failure(e) => e.Status()
  }

  /** The words of the 'document' filter, `pdf|document|word|text|excel|sheet`. */
  const DocumentFilterWords: seq<string> := ["pdf", "document", "word", "text", "excel", "sheet"]

  /** `searchParams.get('type') || 'all'`: a missing or empty parameter means 'all'. */
  function TypeFilter(param: Option<string>): string {
    if MissingParam(param) then "all" else param.value
  }

  /**
   * The `find` query the route builds: always the caller's id; 'image',
   * 'video' and 'audio' add an anchored prefix on the MIME type, 'document'
   * a case-insensitive alternation of words; 'all' and every other value add
   * nothing.
   */
  function BuildQuery(userId: string, typeFilter: string): Query {
    if typeFilter == "all" then Query(userId, None)
    else if typeFilter == "image" then Query(userId, Some(StartsWith("image/")))
    else if typeFilter == "video" then Query(userId, Some(StartsWith("video/")))
    else if typeFilter == "audio" then Query(userId, Some(StartsWith("audio/")))
    else if typeFilter == "document" then Query(userId, Some(AnyWordIgnoreCase(DocumentFilterWords)))
    else Query(userId, None)
  }

  /** Newest first: `createdAt` never increases along the list. */
  ghost predicate NewestFirst(s: seq<FileRecord>) {
    forall i, j | 0 <= i < j < |s| :: s[i].createdAt >= s[j].createdAt
  }

  /** A record no older than the head of a newest-first list can go in front of it. */
  lemma ConsNewestFirst(y: FileRecord, t: seq<FileRecord>)
    requires NewestFirst(t) && (|t| > 0 ==> t[0].createdAt <= y.createdAt)
    ensures NewestFirst([y] + t)
  {
    forall i, j | 0 <= i < j < |[y] + t| ensures ([y] + t)[i].createdAt >= ([y] + t)[j].createdAt {
      if i == 0 && j > 1 {
        assert t[0].createdAt >= t[j - 1].createdAt;
      }
    }
  }

  /** Dropping the head of a newest-first list leaves it newest first. */
  lemma TailNewestFirst(s: seq<FileRecord>)
    requires NewestFirst(s) && s != []
    ensures NewestFirst(s[1..])
  {
    var tail := s[1..];
    forall i, j | 0 <= i < j < |tail| ensures tail[i].createdAt >= tail[j].createdAt {
      assert tail[i] == s[i + 1] && tail[j] == s[j + 1];
    }
  }

  /** A record older than the head goes behind it: the head stays in front of the insertion into the tail. */
  lemma KeepHead(x: FileRecord, s: seq<FileRecord>, rest: seq<FileRecord>)
    requires NewestFirst(s) && s != [] && x.createdAt < s[0].createdAt
    requires NewestFirst(rest) && multiset(rest) == multiset(s[1..]) + multiset{x}
    requires rest != [] && (rest[0] == x || (|s| > 1 && rest[0] == s[1]))
    ensures NewestFirst([s[0]] + rest)
    ensures multiset([s[0]] + rest) == multiset(s) + multiset{x}
  {
    assert |s| > 1 ==> s[0].createdAt >= s[1].createdAt;
    ConsNewestFirst(s[0], rest);
    assert s == [s[0]] + s[1..];
  }

  /** Places `x` in the newest-first list `s`. */
  function Insert(x: FileRecord, s: seq<FileRecord>): (r: seq<FileRecord>)
    requires NewestFirst(s)
    ensures NewestFirst(r)
    ensures multiset(r) == multiset(s) + multiset{x}
    ensures |r| == |s| + 1
    ensures r[0] == x || (|s| > 0 && r[0] == s[0])
  {
    if s == [] || x.createdAt >= s[0].createdAt then
      ConsNewestFirst(x, s);
      [x] + s
    else
      TailNewestFirst(s);
      var rest := Insert(x, s[1..]);
      KeepHead(x, s, rest);
      [s[0]] + rest
  }

  /** `.sort({ createdAt: -1 })`: the same records, newest first. */
  function SortNewestFirst(s: seq<FileRecord>): (r: seq<FileRecord>)
    ensures NewestFirst(r)
    ensures multiset(r) == multiset(s)
  {
    if s == [] then []
    else
      assert s == [s[0]] + s[1..];
      Insert(s[0], SortNewestFirst(s[1..]))
  }

  /**
   * `GET`. Without a session the answer is 401; otherwise the listing holds
   * exactly the stored records the query selects, each once, newest first,
   * with `count` equal to its length. Nothing in the store changes.
   */
  method GetFiles(store: FileStore, session: Session, typeParam: Option<string>)
    returns (r: Result<Listing, ListError>)
    requires store.Valid()
    ensures session.None? <==> r == Failure(Unauthorized)
    ensures session.Some? <==> r.Success?
    ensures r.Success? ==>
      && multiset(r.value.files) == multiset(Selected(store.records, BuildQuery(session.value, TypeFilter(typeParam))))
      && NewestFirst(r.value.files)
      && r.value.count == |r.value.files|
  {
    if session.None? {
      return Failure(Unauthorized);
    }
    var query := BuildQuery(session.value, TypeFilter(typeParam));
    var found := store.Find(query);
    var files := SortNewestFirst(found);
    r := Success(Listing(files, |files|));
  }

  /**
   * What each filter selects: only the caller's records, and among them those
   * whose type starts with 'image/', 'video/' or 'audio/' for the media
   * filters, those mentioning a document word in any letter case for
   * 'document', and all of them for a missing parameter, 'all', 'archive' or
   * any other value.
   */
  lemma FilterSelects(userId: string, typeParam: Option<string>, r: FileRecord)
    ensures Matches(BuildQuery(userId, TypeFilter(typeParam)), r) ==> r.userId == userId
    ensures typeParam == Some("image") ==>
      (Matches(BuildQuery(userId, TypeFilter(typeParam)), r) <==> r.userId == userId && "image/" <= r.mimeType)
    ensures typeParam == Some("video") ==>
      (Matches(BuildQuery(userId, TypeFilter(typeParam)), r) <==> r.userId == userId && "video/" <= r.mimeType)
    ensures typeParam == Some("audio") ==>
      (Matches(BuildQuery(userId, TypeFilter(typeParam)), r) <==> r.userId == userId && "audio/" <= r.mimeType)
    ensures typeParam == Some("document") ==>
      (Matches(BuildQuery(userId, TypeFilter(typeParam)), r) <==>
       r.userId == userId && exists w | w in DocumentFilterWords :: Occurs(Lower(r.mimeType), w))
    ensures MissingParam(typeParam) || typeParam.value !in {"image", "video", "audio", "document"} ==>
      (Matches(BuildQuery(userId, TypeFilter(typeParam)), r) <==> r.userId == userId)
  {
    DocumentWordsAreLowerCase();
    forall w | w in DocumentFilterWords ensures Contains(Lower(r.mimeType), Lower(w)) <==> Occurs(Lower(r.mimeType), w) {
      ContainsIff(Lower(r.mimeType), w);
    }
  }

  /**
   * 'archive', a member of the client's file-type union that its filter menu
   * never sends, gets no filter of its own: it lists the same records as 'all'.
   */
  lemma ArchiveFilterListsAll(records: map<Id, FileRecord>, userId: string)
    ensures Selected(records, BuildQuery(userId, TypeFilter(Some("archive"))))
         == Selected(records, BuildQuery(userId, TypeFilter(None)))
  {
  }

  lemma DocumentWordsAreLowerCase()
    ensures forall w | w in DocumentFilterWords :: Lower(w) == w
  {
    LowerOfLowerCase("pdf");
    LowerOfLowerCase("document");
    LowerOfLowerCase("word");
    LowerOfLowerCase("text");
    LowerOfLowerCase("excel");
    LowerOfLowerCase("sheet");
  }

  /** Every type the classification calls a document passes the 'document' filter. */
  lemma DocumentTypesPassDocumentFilter(mimeType: string)
    requires Utils.GetFileTypeFromMime(mimeType) == Utils.Document
    ensures PatternMatches(AnyWordIgnoreCase(DocumentFilterWords), mimeType)
  {
    DocumentWordsAreLowerCase();
    var w :| w in ["pdf", "document", "word", "text"] && Contains(mimeType, w);
    assert w in DocumentFilterWords;
    ContainsLower(mimeType, w);
  }

  /** A type that contains one of the filter's words passes the 'document' filter. */
  lemma DocumentFilterByWord(m: string, a: string, w: string, b: string)
    requires m == a + w + b && w in DocumentFilterWords
    ensures PatternMatches(AnyWordIgnoreCase(DocumentFilterWords), m)
  {
    DocumentWordsAreLowerCase();
    ContainsMiddle(a, w, b);
    ContainsLower(m, w);
  }

  lemma ExcelWordSplit()
    ensures "application/vnd.ms-excel" == "application/vnd.ms-" + "excel" + ""
  {
  }

  /**
   * The filter and the classification disagree: 'application/vnd.ms-excel'
   * passes the 'document' filter (it mentions "excel") yet is classified as
   * a plain 'file'.
   */
  lemma ExcelListedAsDocument()
    ensures PatternMatches(AnyWordIgnoreCase(DocumentFilterWords), "application/vnd.ms-excel")
    ensures Utils.GetFileTypeFromMime("application/vnd.ms-excel") == Utils.File
  {
    Utils.ExcelIsFile();
    ExcelWordSplit();
    DocumentFilterByWord("application/vnd.ms-excel", "application/vnd.ms-", "excel", "");
  }
}

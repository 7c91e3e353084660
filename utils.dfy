/**
 * The pure helpers of lib/utils.ts: MIME-type classification, the upload
 * allow-list, the storage sum, the per-user quota and share links.
 */
module Utils {
  import opened Wrappers
  import opened Strings
  import FileModel

  /** The six categories `getFileTypeFromMime` returns ('image' ... 'file'). */
  datatype FileType = Image | Video | Audio | Document | Archive | File

  /** `getFileTypeFromMime`: media prefixes first, then document words, then archive words. */
  function GetFileTypeFromMime(mimeType: string): FileType {
    if "image/" <= mimeType then Image
    else if "video/" <= mimeType then Video
    else if "audio/" <= mimeType then Audio
    else if Contains(mimeType, "pdf") || Contains(mimeType, "document") || Contains(mimeType, "word") || Contains(mimeType, "text") then Document
    else if Contains(mimeType, "zip") || Contains(mimeType, "rar") || Contains(mimeType, "archive") then Archive
    else File
  }

  const DocumentWords: seq<string> := ["pdf", "document", "word", "text"]
  const ArchiveWords: seq<string> := ["zip", "rar", "archive"]

  ghost predicate MediaPrefixed(mimeType: string) {
    "image/" <= mimeType || "video/" <= mimeType || "audio/" <= mimeType
  }

  /** Some word of `words` occurs, case-sensitively, in `s`. */
  ghost predicate MentionsAny(s: string, words: seq<string>) {
    exists w, i :: w in words && OccursAt(s, w, i)
  }

  /**
   * The classification as a rule table: each media prefix decides alone
   * (the three prefixes exclude one another), and the word rules apply only
   * to types without a media prefix, document words before archive words.
   */
  lemma ClassificationSpec(mimeType: string)
    ensures GetFileTypeFromMime(mimeType) == Image <==> "image/" <= mimeType
    ensures GetFileTypeFromMime(mimeType) == Video <==> "video/" <= mimeType
    ensures GetFileTypeFromMime(mimeType) == Audio <==> "audio/" <= mimeType
    ensures GetFileTypeFromMime(mimeType) == Document <==>
      !MediaPrefixed(mimeType) && MentionsAny(mimeType, DocumentWords)
    ensures GetFileTypeFromMime(mimeType) == Archive <==>
      !MediaPrefixed(mimeType) && !MentionsAny(mimeType, DocumentWords) && MentionsAny(mimeType, ArchiveWords)
    ensures GetFileTypeFromMime(mimeType) == File <==>
      !MediaPrefixed(mimeType) && !MentionsAny(mimeType, DocumentWords) && !MentionsAny(mimeType, ArchiveWords)
  {
    PrefixesExclusive(mimeType);
    forall w | w in DocumentWords + ArchiveWords ensures Contains(mimeType, w) <==> Occurs(mimeType, w) {
      ContainsIff(mimeType, w);
    }
  }

  /** The three media prefixes differ in their first two characters, so at most one applies. */
  lemma PrefixesExclusive(m: string)
    ensures "image/" <= m ==> !("video/" <= m) && !("audio/" <= m)
    ensures "video/" <= m ==> !("audio/" <= m)
  {
    if "image/" <= m {
      assert m[0] == "image/"[0];
      NotPrefix(m, "video/", 0);
      NotPrefix(m, "audio/", 0);
    }
    if "video/" <= m {
      assert m[0] == "video/"[0];
      NotPrefix(m, "audio/", 0);
    }
  }

  /** A media prefix wins over every word: 'video/x-text' mentions "text" yet is a video. */
  lemma PrefixBeatsWords()
    ensures Contains("video/x-text", "text") && GetFileTypeFromMime("video/x-text") == Video
  {
    assert "video/x-text" == "video/x-" + "text" + "";
    ContainsMiddle("video/x-", "text", "");
    NotPrefix("video/x-text", "image/", 0);
  }

  const AllowedImages: seq<string> :=
    ["image/jpeg", "image/jpg", "image/png", "image/gif", "image/webp", "image/svg+xml"]
  const AllowedDocuments: seq<string> :=
    ["application/pdf", "application/msword",
     "application/vnd.openxmlformats-officedocument.wordprocessingml.document",
     "application/vnd.ms-excel", "application/vnd.openxmlformats-officedocument.spreadsheetml.sheet",
     "text/plain", "text/csv"]
  const AllowedAudio: seq<string> := ["audio/mpeg", "audio/mp3", "audio/wav", "audio/ogg", "audio/webm"]
  const AllowedVideo: seq<string> := ["video/mp4", "video/mpeg", "video/quicktime", "video/x-msvideo", "video/webm"]
  const AllowedArchives: seq<string> := ["application/zip", "application/x-zip-compressed", "application/x-rar-compressed"]

  /** The fixed allow-list, in the order the source lists it. */
  const AllowedTypes: seq<string> := AllowedImages + AllowedDocuments + AllowedAudio + AllowedVideo + AllowedArchives

  /** `isAllowedFileType`: exact membership in the allow-list. */
  predicate IsAllowedFileType(mimeType: string) {
    mimeType in AllowedTypes
  }

  /** 'application/...' and 'text/...' types have no media prefix. */
  lemma NoMediaPrefix(head: string, rest: string)
    requires head == "application/" || head == "text/"
    ensures !MediaPrefixed(head + rest)
  {
    var m := head + rest;
    assert m[0] == head[0] && m[1] == head[1];
    NotPrefix(m, "image/", 0);
    NotPrefix(m, "video/", 0);
    NotPrefix(m, "audio/", 1);
  }

  /** A type `a + w + b` whose head `a` starts with 'application/' has no media prefix. */
  lemma NoMediaPrefixAround(a: string, rest: string, w: string, b: string)
    requires a == "application/" + rest
    ensures !MediaPrefixed(a + w + b)
  {
    assert a + w + b == "application/" + (rest + w + b);
    NoMediaPrefix("application/", rest + w + b);
  }

  /** Every 'image/...' type is an image. */
  lemma ImageByPrefix(m: string, rest: string)
    requires m == "image/" + rest
    ensures GetFileTypeFromMime(m) == Image
  {
  }

  /** Every 'video/...' type is a video. */
  lemma VideoByPrefix(m: string, rest: string)
    requires m == "video/" + rest
    ensures GetFileTypeFromMime(m) == Video
  {
    PrefixesExclusive(m);
    assert m[0] == 'v';
  }

  /** Every 'audio/...' type is audio. */
  lemma AudioByPrefix(m: string, rest: string)
    requires m == "audio/" + rest
    ensures GetFileTypeFromMime(m) == Audio
  {
    assert m[0] == 'a';
    NotPrefix(m, "image/", 0);
    NotPrefix(m, "video/", 0);
  }

  /** A type with no media prefix that contains one document word is a document. */
  lemma DocumentByWord(m: string, a: string, w: string, b: string)
    requires m == a + w + b && !MediaPrefixed(m)
    requires w == "pdf" || w == "document" || w == "word" || w == "text"
    ensures GetFileTypeFromMime(m) == Document
  {
    ContainsMiddle(a, w, b);
  }

  /** A type with no media prefix and no document word that contains an archive word is an archive. */
  lemma ArchiveByWord(m: string, a: string, w: string, b: string)
    requires m == a + w + b && !MediaPrefixed(m)
    requires w == "zip" || w == "rar" || w == "archive"
    requires !Contains(m, "pdf") && !Contains(m, "document") && !Contains(m, "word") && !Contains(m, "text")
    ensures GetFileTypeFromMime(m) == Archive
  {
    ContainsMiddle(a, w, b);
  }

  /** A type with no media prefix and none of the seven words is a plain 'file'. */
  lemma FileByDefault(m: string)
    requires !MediaPrefixed(m)
    requires !Contains(m, "pdf") && !Contains(m, "document") && !Contains(m, "word") && !Contains(m, "text")
    requires !Contains(m, "zip") && !Contains(m, "rar") && !Contains(m, "archive")
    ensures GetFileTypeFromMime(m) == File
  {
  }

  /** Without 'f', 'u' and 'w' a type can mention none of "pdf", "document" and "word". */
  predicate LacksDocumentLetters(s: string) {
    'f' !in s && 'u' !in s && 'w' !in s
  }

  /** Without 'z' and 'r' a type can mention none of "zip", "rar" and "archive". */
  predicate LacksArchiveLetters(s: string) {
    'z' !in s && 'r' !in s
  }

  /** A type without the letters of the document words, and without 'x', mentions none of them. */
  lemma NoDocumentWordWithoutX(s: string)
    requires LacksDocumentLetters(s) && 'x' !in s
    ensures !Contains(s, "pdf") && !Contains(s, "document") && !Contains(s, "word") && !Contains(s, "text")
  {
    AbsentChar(s, "pdf", 'f');
    AbsentChar(s, "document", 'u');
    AbsentChar(s, "word", 'w');
    AbsentChar(s, "text", 'x');
  }

  /**
   * A type `h + m + "x" + b` whose only 'x' is not followed by a 't' and not
   * preceded by "te" mentions no document word.
   */
  lemma NoDocumentWordAroundX(h: string, m: string, b: string)
    requires LacksDocumentLetters(h) && LacksDocumentLetters(m) && LacksDocumentLetters(b)
    requires 'x' !in h && 'x' !in m && 'x' !in b && |b| > 0 && b[0] != 't' && |h| >= 2
    ensures !Contains(h + m + "x" + b, "pdf") && !Contains(h + m + "x" + b, "document")
    ensures !Contains(h + m + "x" + b, "word") && !Contains(h + m + "x" + b, "text")
  {
    var s := h + m + "x" + b;
    assert LacksDocumentLetters(s);
    AbsentChar(s, "pdf", 'f');
    AbsentChar(s, "document", 'u');
    AbsentChar(s, "word", 'w');
    assert 'x' !in h + m;
    UniqueCharMismatch(h + m, 'x', b, "text", 2, 3);
  }

  /** A type without 'z' and 'r' mentions no archive word. */
  lemma NoArchiveWord(s: string)
    requires LacksArchiveLetters(s)
    ensures !Contains(s, "zip") && !Contains(s, "rar") && !Contains(s, "archive")
  {
    AbsentChar(s, "zip", 'z');
    AbsentChar(s, "rar", 'r');
    AbsentChar(s, "archive", 'r');
  }

  lemma ApplicationLacksDocumentLetters()
    ensures LacksDocumentLetters("application/")
  {
  }

  lemma ApplicationLacksOtherLetters()
    ensures 'x' !in "application/" && LacksArchiveLetters("application/")
  {
  }

  /**
   * The category of every allow-listed type, group by group as the source
   * lists them: each group gets its own category, except that
   * 'application/vnd.ms-excel', allowed under documents, mentions no
   * document word and falls through to 'file'.
   */
  lemma AllowedTypeCategories()
    ensures forall m | m in AllowedImages :: GetFileTypeFromMime(m) == Image
    ensures forall m | m in AllowedDocuments && m != "application/vnd.ms-excel" :: GetFileTypeFromMime(m) == Document
    ensures GetFileTypeFromMime("application/vnd.ms-excel") == File
    ensures forall m | m in AllowedAudio :: GetFileTypeFromMime(m) == Audio
    ensures forall m | m in AllowedVideo :: GetFileTypeFromMime(m) == Video
    ensures forall m | m in AllowedArchives :: GetFileTypeFromMime(m) == Archive
  {
    AllowedImagesAreImages();
    AllowedDocumentsAreDocuments();
    ExcelIsFile();
    AllowedAudioIsAudio();
    AllowedVideosAreVideos();
    AllowedArchivesAreArchives();
  }

  // Each literal split below sits in a lemma of its own, so that every
  // proof about the allow-list meets at most one long literal equality.

  lemma ImageSplits()
    ensures "image/jpeg" == "image/" + "jpeg" && "image/jpg" == "image/" + "jpg"
    ensures "image/png" == "image/" + "png" && "image/gif" == "image/" + "gif"
    ensures "image/webp" == "image/" + "webp" && "image/svg+xml" == "image/" + "svg+xml"
  {
  }

  lemma AllowedImagesAreImages()
    ensures forall m | m in AllowedImages :: GetFileTypeFromMime(m) == Image
  {
    ImageSplits();
    ImageByPrefix("image/jpeg", "jpeg");
    ImageByPrefix("image/jpg", "jpg");
    ImageByPrefix("image/png", "png");
    ImageByPrefix("image/gif", "gif");
    ImageByPrefix("image/webp", "webp");
    ImageByPrefix("image/svg+xml", "svg+xml");
  }

  lemma AudioSplits()
    ensures "audio/mpeg" == "audio/" + "mpeg" && "audio/mp3" == "audio/" + "mp3"
    ensures "audio/wav" == "audio/" + "wav" && "audio/ogg" == "audio/" + "ogg"
    ensures "audio/webm" == "audio/" + "webm"
  {
  }

  lemma AllowedAudioIsAudio()
    ensures forall m | m in AllowedAudio :: GetFileTypeFromMime(m) == Audio
  {
    AudioSplits();
    AudioByPrefix("audio/mpeg", "mpeg");
    AudioByPrefix("audio/mp3", "mp3");
    AudioByPrefix("audio/wav", "wav");
    AudioByPrefix("audio/ogg", "ogg");
    AudioByPrefix("audio/webm", "webm");
  }

  lemma VideoSplits()
    ensures "video/mp4" == "video/" + "mp4" && "video/mpeg" == "video/" + "mpeg"
    ensures "video/quicktime" == "video/" + "quicktime" && "video/x-msvideo" == "video/" + "x-msvideo"
    ensures "video/webm" == "video/" + "webm"
  {
  }

  lemma AllowedVideosAreVideos()
    ensures forall m | m in AllowedVideo :: GetFileTypeFromMime(m) == Video
  {
    VideoSplits();
    VideoByPrefix("video/mp4", "mp4");
    VideoByPrefix("video/mpeg", "mpeg");
    VideoByPrefix("video/quicktime", "quicktime");
    VideoByPrefix("video/x-msvideo", "x-msvideo");
    VideoByPrefix("video/webm", "webm");
  }

  lemma AllowedDocumentsAreDocuments()
    ensures forall m | m in AllowedDocuments && m != "application/vnd.ms-excel" :: GetFileTypeFromMime(m) == Document
  {
    PdfIsDocument();
    MswordIsDocument();
    DocxIsDocument();
    XlsxIsDocument();
    TextTypesAreDocuments();
  }

  lemma PdfSplit()
    ensures "application/pdf" == "application/" + "pdf" + ""
  {
  }

  lemma PdfIsDocument()
    ensures GetFileTypeFromMime("application/pdf") == Document
  {
    PdfSplit();
    NoMediaPrefixAround("application/", "", "pdf", "");
    DocumentByWord("application/pdf", "application/", "pdf", "");
  }

  lemma MswordSplit()
    ensures "application/msword" == "application/ms" + "word" + ""
    ensures "application/ms" == "application/" + "ms"
  {
  }

  lemma MswordIsDocument()
    ensures GetFileTypeFromMime("application/msword") == Document
  {
    MswordSplit();
    NoMediaPrefixAround("application/ms", "ms", "word", "");
    DocumentByWord("application/msword", "application/ms", "word", "");
  }

  lemma DocxSplit()
    ensures "application/vnd.openxmlformats-officedocument.wordprocessingml.document"
         == "application/vnd.openxmlformats-office" + "document" + ".wordprocessingml.document"
  {
  }

  /** The common head of the two Office Open XML types. */
  lemma OfficeHeadSplit()
    ensures "application/vnd.openxmlformats-office" == "application/" + "vnd.openxmlformats-office"
  {
  }

  lemma DocxIsDocument()
    ensures GetFileTypeFromMime("application/vnd.openxmlformats-officedocument.wordprocessingml.document") == Document
  {
    DocxSplit();
    OfficeHeadSplit();
    NoMediaPrefixAround("application/vnd.openxmlformats-office", "vnd.openxmlformats-office",
      "document", ".wordprocessingml.document");
    DocumentByWord("application/vnd.openxmlformats-officedocument.wordprocessingml.document",
      "application/vnd.openxmlformats-office", "document", ".wordprocessingml.document");
  }

  lemma XlsxSplit()
    ensures "application/vnd.openxmlformats-officedocument.spreadsheetml.sheet"
         == "application/vnd.openxmlformats-office" + "document" + ".spreadsheetml.sheet"
  {
  }

  lemma XlsxIsDocument()
    ensures GetFileTypeFromMime("application/vnd.openxmlformats-officedocument.spreadsheetml.sheet") == Document
  {
    XlsxSplit();
    OfficeHeadSplit();
    NoMediaPrefixAround("application/vnd.openxmlformats-office", "vnd.openxmlformats-office",
      "document", ".spreadsheetml.sheet");
    DocumentByWord("application/vnd.openxmlformats-officedocument.spreadsheetml.sheet",
      "application/vnd.openxmlformats-office", "document", ".spreadsheetml.sheet");
  }

  lemma TextSplits()
    ensures "text/plain" == "text/" + "plain" && "text/csv" == "text/" + "csv"
  {
  }

  lemma TextTypesAreDocuments()
    ensures GetFileTypeFromMime("text/plain") == Document && GetFileTypeFromMime("text/csv") == Document
  {
    TextSplits();
    TextIsDocument("plain");
    TextIsDocument("csv");
  }

  /** 'text/plain' and 'text/csv' are documents: they contain "text". */
  lemma TextIsDocument(sub: string)
    requires sub == "plain" || sub == "csv"
    ensures GetFileTypeFromMime("text/" + sub) == Document
  {
    NoMediaPrefix("text/", sub);
    assert "text/" + sub == "" + "text" + ("/" + sub);
    DocumentByWord("text/" + sub, "", "text", "/" + sub);
  }

  lemma ExcelIsFile()
    ensures GetFileTypeFromMime("application/vnd.ms-excel") == File
  {
    ExcelHasNoMediaPrefix();
    ExcelHasNoDocumentWord();
    ExcelHasNoArchiveWord();
    FileByDefault("application/vnd.ms-excel");
  }

  lemma ExcelHasNoMediaPrefix()
    ensures !MediaPrefixed("application/vnd.ms-excel")
  {
    assert "application/vnd.ms-excel" == "application/" + "vnd.ms-excel";
    NoMediaPrefix("application/", "vnd.ms-excel");
  }

  lemma ExcelSplit()
    ensures "application/vnd.ms-excel" == "application/vnd.ms-e" + "x" + "cel"
    ensures "application/vnd.ms-e" == "application/" + "vnd.ms-e"
  {
  }

  lemma ExcelPiecesLackLetters()
    ensures LacksDocumentLetters("vnd.ms-e") && 'x' !in "vnd.ms-e" && LacksArchiveLetters("vnd.ms-e")
    ensures LacksDocumentLetters("cel") && 'x' !in "cel" && LacksArchiveLetters("cel")
  {
  }

  lemma ExcelHasNoDocumentWord()
    ensures !Contains("application/vnd.ms-excel", "pdf") && !Contains("application/vnd.ms-excel", "document")
    ensures !Contains("application/vnd.ms-excel", "word") && !Contains("application/vnd.ms-excel", "text")
  {
    ExcelSplit();
    ApplicationLacksDocumentLetters();
    ApplicationLacksOtherLetters();
    ExcelPiecesLackLetters();
    NoDocumentWordAroundX("application/", "vnd.ms-e", "cel");
  }

  lemma ExcelHasNoArchiveWord()
    ensures !Contains("application/vnd.ms-excel", "zip") && !Contains("application/vnd.ms-excel", "rar")
    ensures !Contains("application/vnd.ms-excel", "archive")
  {
    ExcelSplit();
    ApplicationLacksOtherLetters();
    ExcelPiecesLackLetters();
    assert LacksArchiveLetters("application/" + "vnd.ms-e" + "x" + "cel");
    NoArchiveWord("application/vnd.ms-excel");
  }

  lemma AllowedArchivesAreArchives()
    ensures forall m | m in AllowedArchives :: GetFileTypeFromMime(m) == Archive
  {
    ZipIsArchive();
    CompressedLiterals();
    CompressedIsArchive("zip");
    CompressedIsArchive("rar");
  }

  lemma ZipHasNoDocumentWord()
    ensures !Contains("application/zip", "pdf") && !Contains("application/zip", "document")
    ensures !Contains("application/zip", "word") && !Contains("application/zip", "text")
  {
    ZipSplit();
    ApplicationLacksDocumentLetters();
    ApplicationLacksOtherLetters();
    assert LacksDocumentLetters("zip") && 'x' !in "zip";
    assert LacksDocumentLetters("application/" + "zip" + "") && 'x' !in "application/" + "zip" + "";
    NoDocumentWordWithoutX("application/zip");
  }

  lemma ZipSplit()
    ensures "application/zip" == "application/" + "zip" + ""
  {
  }

  lemma ZipIsArchive()
    ensures GetFileTypeFromMime("application/zip") == Archive
  {
    ZipSplit();
    NoMediaPrefixAround("application/", "", "zip", "");
    ZipHasNoDocumentWord();
    ArchiveByWord("application/zip", "application/", "zip", "");
  }

  lemma CompressedSplits(w: string)
    requires w == "zip" || w == "rar"
    ensures "application/x-" == "application/" + "x-"
    ensures "application/x-" + w + "-compressed" == "application/" + "x" + ("-" + w + "-compressed")
  {
  }

  lemma CompressedPiecesLackLetters()
    ensures LacksDocumentLetters("-compressed") && 'x' !in "-compressed"
    ensures LacksDocumentLetters("zip") && 'x' !in "zip" && LacksDocumentLetters("rar") && 'x' !in "rar"
  {
  }

  lemma CompressedHasNoDocumentWord(w: string)
    requires w == "zip" || w == "rar"
    ensures !Contains("application/x-" + w + "-compressed", "pdf")
    ensures !Contains("application/x-" + w + "-compressed", "document")
    ensures !Contains("application/x-" + w + "-compressed", "word")
    ensures !Contains("application/x-" + w + "-compressed", "text")
  {
    CompressedSplits(w);
    ApplicationLacksDocumentLetters();
    ApplicationLacksOtherLetters();
    CompressedPiecesLackLetters();
    var b := "-" + w + "-compressed";
    assert LacksDocumentLetters(b) && 'x' !in b && b[0] == '-';
    assert "application/" + "x" + b == "application/" + "" + "x" + b;
    NoDocumentWordAroundX("application/", "", b);
  }

  /** 'application/x-zip-compressed' and 'application/x-rar-compressed' are archives. */
  lemma CompressedIsArchive(w: string)
    requires w == "zip" || w == "rar"
    ensures GetFileTypeFromMime("application/x-" + w + "-compressed") == Archive
  {
    CompressedSplits(w);
    NoMediaPrefixAround("application/x-", "x-", w, "-compressed");
    CompressedHasNoDocumentWord(w);
    ArchiveByWord("application/x-" + w + "-compressed", "application/x-", w, "-compressed");
  }

  lemma CompressedLiterals()
    ensures "application/x-zip-compressed" == "application/x-" + "zip" + "-compressed"
    ensures "application/x-rar-compressed" == "application/x-" + "rar" + "-compressed"
  {
  }

  /**
   * The allow-list and the classification disagree both ways: 'image/bmp' is
   * an image but is refused, 'application/vnd.ms-excel' is accepted but is
   * only a 'file'.
   */
  lemma AllowListIsNotClassification()
    ensures |AllowedTypes| == 26
    ensures GetFileTypeFromMime("image/bmp") == Image && !IsAllowedFileType("image/bmp")
    ensures IsAllowedFileType("application/vnd.ms-excel") && GetFileTypeFromMime("application/vnd.ms-excel") == File
  {
    BmpIsImage();
    BmpIsNotListed();
    ExcelIsFile();
    assert "application/vnd.ms-excel" == AllowedDocuments[3];
  }

  lemma BmpIsImage()
    ensures GetFileTypeFromMime("image/bmp") == Image
  {
    assert "image/bmp" == "image/" + "bmp";
    ImageByPrefix("image/bmp", "bmp");
  }

  lemma BmpIsNotListed()
    ensures "image/bmp" !in AllowedImages && "image/bmp" !in AllowedDocuments && "image/bmp" !in AllowedAudio
    ensures "image/bmp" !in AllowedVideo && "image/bmp" !in AllowedArchives
  {
  }

  /** `calculateTotalStorage`: `reduce` of `fileSize` from the left, starting at 0. */
  function CalculateTotalStorage(files: seq<FileModel.FileRecord>): nat {
    if files == [] then 0 else CalculateTotalStorage(files[..|files| - 1]) + files[|files| - 1].fileSize
  }

  /** The total of a list of files is the sum of the totals of its parts. */
  lemma {:induction false} TotalStorageConcat(xs: seq<FileModel.FileRecord>, ys: seq<FileModel.FileRecord>)
    ensures CalculateTotalStorage([]) == 0
    ensures CalculateTotalStorage(xs + ys) == CalculateTotalStorage(xs) + CalculateTotalStorage(ys)
    decreases |ys|
  {
    if ys == [] {
      assert xs + ys == xs;
    } else {
      var init := ys[..|ys| - 1];
      assert (xs + ys)[..|xs + ys| - 1] == xs + init;
      TotalStorageConcat(xs, init);
    }
  }

  /** The total size of a set of records, independent of any order. */
  ghost function Usage(files: set<FileModel.FileRecord>): nat
    decreases files
  {
    if files == {} then 0 else var f :| f in files; f.fileSize + Usage(files - {f})
  }

  /** Any record can be taken out of the total first. */
  lemma {:induction false} UsageRemove(files: set<FileModel.FileRecord>, f: FileModel.FileRecord)
    requires f in files
    ensures Usage(files) == f.fileSize + Usage(files - {f})
    decreases files
  {
    var g :| g in files && Usage(files) == g.fileSize + Usage(files - {g});
    if g != f {
      UsageRemove(files - {g}, f);
      UsageRemove(files - {f}, g);
      assert files - {g} - {f} == files - {f} - {g};
    }
  }

  /**
   * Whatever order a query lists a set of records in, `calculateTotalStorage`
   * of the listing is the set's total.
   */
  lemma {:induction false} TotalStorageIsUsage(xs: seq<FileModel.FileRecord>, files: set<FileModel.FileRecord>)
    requires multiset(xs) == multiset(files)
    ensures CalculateTotalStorage(xs) == Usage(files)
    decreases |xs|
  {
    if xs == [] {
      assert multiset(files) == multiset{};
      assert files == {};
    } else {
      var last := xs[|xs| - 1];
      var init := xs[..|xs| - 1];
      assert xs == init + [last];
      assert last in multiset(xs);
      assert last in files;
      assert multiset(files - {last}) == multiset(files) - multiset{last};
      assert multiset(init) == multiset(xs) - multiset{last};
      TotalStorageIsUsage(init, files - {last});
      UsageRemove(files, last);
    }
  }

  /** 3 GiB, the per-user storage ceiling. */
  const MaxStorage: int := 3 * 1024 * 1024 * 1024

  /** `isStorageLimitExceeded`: reaching the ceiling already counts as exceeding it. */
  predicate IsStorageLimitExceeded(totalBytes: int) {
    totalBytes >= MaxStorage
  }

  /** Once exceeded, the limit stays exceeded for every larger total. */
  lemma StorageLimitIsMonotone(a: int, b: int)
    requires a <= b && IsStorageLimitExceeded(a)
    ensures IsStorageLimitExceeded(b)
  {
  }

  /** The ceiling itself already counts as exceeded; one byte below it does not. */
  lemma StorageLimitBoundary()
    ensures IsStorageLimitExceeded(MaxStorage) && !IsStorageLimitExceeded(MaxStorage - 1)
    ensures MaxStorage == 3221225472
  {
  }

  /** The base of share links: `NEXTAUTH_URL || 'http://localhost:3000'` (an empty value falls back too). */
  function BaseUrl(nextAuthUrl: Option<string>): string {
    if nextAuthUrl.None? || nextAuthUrl.value == "" then "http://localhost:3000" else nextAuthUrl.value
  }

  /** `buildPublicFileUrl`: `${baseUrl}/file/${fileId}`. */
  function BuildPublicFileUrl(nextAuthUrl: Option<string>, fileId: string): string {
    BaseUrl(nextAuthUrl) + "/file/" + fileId
  }

  /**
   * A share link starts with the base URL and "/file/", ends with the id, and
   * so names the id alone: different ids give different links.
   */
  lemma ShareUrlNamesId(nextAuthUrl: Option<string>, fileId: string, otherId: string)
    ensures var url := BuildPublicFileUrl(nextAuthUrl, fileId);
      && BaseUrl(nextAuthUrl) + "/file/" <= url
      && url[|url| - |fileId|..] == fileId
      && (nextAuthUrl.None? || nextAuthUrl == Some("") ==> "http://localhost:3000/file/" <= url)
    ensures BuildPublicFileUrl(nextAuthUrl, fileId) == BuildPublicFileUrl(nextAuthUrl, otherId) ==> fileId == otherId
  {
    var prefix := BaseUrl(nextAuthUrl) + "/file/";
    assert BuildPublicFileUrl(nextAuthUrl, fileId) == prefix + fileId;
    assert BuildPublicFileUrl(nextAuthUrl, otherId) == prefix + otherId;
    assert (prefix + fileId)[|prefix|..] == fileId;
    assert (prefix + otherId)[|prefix|..] == otherId;
  }
}

/**
 * The upload middleware: the extension allow-list with its lenient MIME check,
 * the stored-name construction and the size and count limits. Everything here is
 * decided before the controller runs.
 */
module UploadGate {
  import opened Strings

  /**
   * Node's `path.extname` on a base name (the multipart parser strips directory
   * parts from the client's file name): the text from the last '.', or "" when
   * there is no dot, when the only dot-led part starts the name, or for "..".
   */
  function ExtName(name: string): (ext: string)
    ensures ext == "" <==> LastIndexOf(name, '.') <= 0 || name == ".."
    ensures ext != "" ==> ext[0] == '.' && forall j :: 1 <= j < |ext| ==> ext[j] != '.'
    ensures ext != "" ==> |ext| < |name| && ext == name[|name| - |ext|..]
  {
    var k := LastIndexOf(name, '.');
    if k <= 0 || name == ".." then "" else name[k..]
  }

  lemma LastDotOfLower(name: string)
    ensures LastIndexOf(ToLower(name), '.') == LastIndexOf(name, '.')
  {
    var k := LastIndexOf(name, '.');
    var l := ToLower(name);
    forall j | 0 <= j < |name|
      ensures (l[j] == '.') == (name[j] == '.')
    {
      LowerCharKeepsDot(name[j]);
    }
    if k >= 0 {
      LastIndexOfUnique(l, '.', k);
    }
  }

  /** Lower-casing a name and then taking its extension is the same as the other way round. */
  lemma ExtNameCommutesWithLower(name: string)
    ensures ToLower(ExtName(name)) == ExtName(ToLower(name))
  {
    LastDotOfLower(name);
    var k := LastIndexOf(name, '.');
    var l := ToLower(name);
    assert name == ".." <==> l == "..";
    if k > 0 && name != ".." {
      assert ToLower(name[k..]) == l[k..];
    }
  }

  const AllowedExtensions: seq<string> := [".pdf", ".doc", ".docx", ".jpg", ".jpeg", ".png", ".txt"]

  const DocxMimeTypes: seq<string> := [
    "application/vnd.openxmlformats-officedocument.wordprocessingml.document",
    "application/octet-stream",
    "application/zip",
    "application/msword",
    "application/vnd.ms-word"
  ]

  /** The per-extension MIME test of the second branch, on the lower-cased MIME type. */
  predicate LooseMimeMatch(ext: string, fileType: string)
  {
    || (ext == ".pdf" && Contains(fileType, "pdf"))
    || (ext == ".doc" && (Contains(fileType, "msword") || Contains(fileType, "word")))
    || (ext == ".jpg" && Contains(fileType, "jpeg"))
    || (ext == ".jpeg" && Contains(fileType, "jpeg"))
    || (ext == ".png" && Contains(fileType, "png"))
    || (ext == ".txt" && Contains(fileType, "text"))
  }

  /** Which branch of the filter accepted a file. */
  datatype Acceptance = DocxMime | MimeMatches | MimeIgnored

  datatype Verdict = Accept(how: Acceptance) | Reject(message: string)

  function RejectMessage(ext: string): string
  {
    "File type " + ext + " not allowed. Allowed: " + Join(AllowedExtensions, ", ")
  }

  /**
   * `fileFilter`: the lower-cased extension must be on the allow-list; the MIME
   * type only decides which branch accepts.
   */
  function FileFilter(originalName: string, mimetype: string): (v: Verdict)
    ensures v.Accept? <==> ToLower(ExtName(originalName)) in AllowedExtensions
  {
    var ext := ToLower(ExtName(originalName));
    if ext in AllowedExtensions then
      if ext == ".docx" && (mimetype in DocxMimeTypes || Contains(mimetype, "word") || Contains(mimetype, "document")) then
        Accept(DocxMime)
      else if LooseMimeMatch(ext, ToLower(mimetype)) then
        Accept(MimeMatches)
      else
        Accept(MimeIgnored)
    else
      Reject(RejectMessage(ext))
  }

  /** The MIME type never turns an acceptance into a rejection or back. */
  lemma MimeNeverRejects(originalName: string, mime1: string, mime2: string)
    ensures FileFilter(originalName, mime1).Accept? == FileFilter(originalName, mime2).Accept?
  {
  }

  /** Every name with an allowed extension is let through by the last branch when the MIME type is empty. */
  lemma EmptyMimeAccepted(name: string)
    requires ToLower(ExtName(name)) in AllowedExtensions
    ensures FileFilter(name, "") == Accept(MimeIgnored)
  {
    var ext := ToLower(ExtName(name));
    assert ToLower("") == "";
    assert "" !in DocxMimeTypes;
    NothingInEmpty("word");
    NothingInEmpty("document");
    NothingInEmpty("pdf");
    NothingInEmpty("msword");
    NothingInEmpty("jpeg");
    NothingInEmpty("png");
    NothingInEmpty("text");
    assert !LooseMimeMatch(ext, "");
  }

  /** The extension test ignores letter case. */
  lemma FilterIgnoresCase(name1: string, name2: string, mime: string)
    requires ToLower(name1) == ToLower(name2)
    ensures FileFilter(name1, mime).Accept? == FileFilter(name2, mime).Accept?
  {
    ExtNameCommutesWithLower(name1);
    ExtNameCommutesWithLower(name2);
  }

  /** The rejection text names the given extension and every allowed one. */
  lemma RejectMessageNames(ext: string)
    ensures Contains(RejectMessage(ext), ext)
    ensures forall a :: a in AllowedExtensions ==> Contains(RejectMessage(ext), a)
  {
    var head := "File type " + ext;
    var middle := head + " not allowed. Allowed: ";
    var joined := Join(AllowedExtensions, ", ");
    assert RejectMessage(ext) == middle + joined;
    assert SubAt(head, ext, 10);
    ContainsAt(head, ext, 10);
    ContainsLeft(head, " not allowed. Allowed: ", ext);
    ContainsLeft(middle, joined, ext);
    forall a | a in AllowedExtensions
      ensures Contains(RejectMessage(ext), a)
    {
      var k :| 0 <= k < |AllowedExtensions| && AllowedExtensions[k] == a;
      JoinContainsEach(AllowedExtensions, ", ", k);
      ContainsRight(middle, joined, a);
    }
  }

  /** A rejection names the offending (lower-cased) extension and every allowed one. */
  lemma RejectionNamesExtension(originalName: string, mimetype: string)
    requires FileFilter(originalName, mimetype).Reject?
    ensures Contains(FileFilter(originalName, mimetype).message, ToLower(ExtName(originalName)))
    ensures forall a :: a in AllowedExtensions ==> Contains(FileFilter(originalName, mimetype).message, a)
  {
    var ext := ToLower(ExtName(originalName));
    assert FileFilter(originalName, mimetype).message == RejectMessage(ext);
    RejectMessageNames(ext);
  }

  /** The stored blob name: a fresh identifier followed by the original extension, case kept. */
  function StoredName(uuid: string, originalName: string): (name: string)
    ensures uuid <= name
  {
    uuid + ExtName(originalName)
  }

  /** The stored name has the same extension as the uploaded one (identifiers contain no '.'). */
  lemma StoredNameKeepsExtension(uuid: string, originalName: string)
    requires uuid != [] && '.' !in uuid
    ensures ExtName(StoredName(uuid, originalName)) == ExtName(originalName)
  {
    var ext := ExtName(originalName);
    var s := StoredName(uuid, originalName);
    if ext == "" {
      assert s == uuid;
    } else {
      assert s[|uuid|] == '.';
      forall j | |uuid| < j < |s|
        ensures s[j] != '.'
      {
        assert s[j] == ext[j - |uuid|];
      }
      LastIndexOfUnique(s, '.', |uuid|);
      assert s[0] != '.';
      assert s[|uuid|..] == ext;
    }
  }

  /** Identifiers of one fixed length that differ give stored names that differ. */
  lemma DistinctIdsDistinctNames(uuid1: string, uuid2: string, name1: string, name2: string)
    requires |uuid1| == |uuid2| && uuid1 != uuid2
    ensures StoredName(uuid1, name1) != StoredName(uuid2, name2)
  {
    assert StoredName(uuid1, name1)[..|uuid1|] == uuid1;
    assert StoredName(uuid2, name2)[..|uuid2|] == uuid2;
  }

  /** An identifier that no existing blob name starts with yields a name not yet in use. */
  lemma FreshIdFreshName(uuid: string, originalName: string, blobs: set<string>)
    requires forall b | b in blobs :: !(uuid <= b)
    ensures StoredName(uuid, originalName) !in blobs
  {
  }

  /** `limits`: at most 50 MiB per file and a single file per request. */
  const MaxFileSize: int := 50 * 1024 * 1024
  const MaxFiles: int := 1

  /** One file part of a multipart request, as the client declared it. */
  datatype Part = Part(originalName: string, mimetype: string, size: int)

  datatype GateError = FilterError(message: string) | FileTooLarge | TooManyFiles

  datatype GateResult = NoFile | Admitted(part: Part) | Refused(error: GateError)

  /**
   * The middleware on the parts of the `file` field, in arrival order: the first
   * part is filtered, then limited in size; a further part exceeds the file count.
   */
  function Admit(parts: seq<Part>): (g: GateResult)
    ensures g.NoFile? <==> parts == []
    ensures g.Admitted? <==>
      |parts| == 1 && FileFilter(parts[0].originalName, parts[0].mimetype).Accept? && parts[0].size <= 52428800
    ensures g.Admitted? ==> g.part == parts[0]
  {
    if parts == [] then NoFile
    else match FileFilter(parts[0].originalName, parts[0].mimetype)
      case Reject(message) => Refused(FilterError(message))
      case Accept(_) =>
        if parts[0].size > MaxFileSize then Refused(FileTooLarge)
        else if |parts| > MaxFiles then Refused(TooManyFiles)
        else Admitted(parts[0])
  }

  /** A file of exactly 50 MiB passes the size limit; one byte more does not. */
  lemma SizeLimitBoundary(part: Part)
    requires FileFilter(part.originalName, part.mimetype).Accept?
    ensures part.size == 52428800 ==> Admit([part]).Admitted?
    ensures part.size == 52428801 ==> Admit([part]) == Refused(FileTooLarge)
  {
  }
}

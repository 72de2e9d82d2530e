/**
 * The `File` schema of the record store: field types, enumerations, bounds and
 * the defaults Mongoose fills in when a new document is built.
 */
module FileModel {
  import opened Options

  /** Record identifiers (`_id`), opaque to the model. */
  type Id = string

  /**
   * The `status` field. The schema enumerates four values, but a status update
   * runs no validators, so any other string can be stored: `Other` carries it.
   */
  datatype Status = Pending | Printing | Printed | Cancelled | Other(name: string)

  const StatusNames: seq<string> := ["pending", "printing", "printed", "cancelled"]

  function StatusName(st: Status): string
  {
    match st
    case Pending => "pending"
    case Printing => "printing"
    case Printed => "printed"
    case Cancelled => "cancelled"
    case Other(name) => name
  }

  /** Reading a stored status string back into the datatype. */
  function ParseStatus(s: string): (st: Status)
    ensures StatusName(st) == s
    ensures st.Other? <==> s !in StatusNames
  {
    if s == "pending" then Pending
    else if s == "printing" then Printing
    else if s == "printed" then Printed
    else if s == "cancelled" then Cancelled
    else Other(s)
  }

  /** The schema's enumeration for `status`. */
  predicate InEnum(st: Status)
  {
    !st.Other?
  }

  /** A status whose `Other` payload is not one of the enumerated names. */
  predicate CanonicalStatus(st: Status)
  {
    st.Other? ==> st.name !in StatusNames
  }

  lemma {:induction false} StatusRoundTrip(st: Status)
    requires CanonicalStatus(st)
    ensures ParseStatus(StatusName(st)) == st
  {
    match st
    case Other(name) =>
      assert name != "pending" && name != "printing" && name != "printed" && name != "cancelled" by {
        assert StatusNames[0] == "pending" && StatusNames[1] == "printing";
        assert StatusNames[2] == "printed" && StatusNames[3] == "cancelled";
      }
    case _ =>
  }

  /** The `fileType` enumeration: seven values, `jpeg` included. */
  datatype FileType = Pdf | Doc | Docx | Jpg | Jpeg | Png | Txt

  datatype PrintSettings = PrintSettings(color: bool, doubleSided: bool, pages: string)

  /** One stored document of the `File` collection. Times are milliseconds. */
  datatype FileRecord = FileRecord(
    id: Id,
    filename: string,
    originalName: string,
    fileType: FileType,
    fileSize: int,
    uploadTime: int,
    expiresAt: int,
    studentName: string,
    status: Status,
    printCopies: int,
    printSettings: PrintSettings)

  /** The fields a caller passes to `new File({...})`; absent ones take the schema default. */
  datatype NewFile = NewFile(
    filename: string,
    originalName: string,
    fileType: FileType,
    fileSize: int,
    studentName: Option<string>,
    printCopies: Option<int>,
    color: Option<bool>,
    doubleSided: Option<bool>,
    pages: Option<string>)

  /** Time to live of a record: 20 minutes in milliseconds. */
  const TtlMs: int := 20 * 60 * 1000
  const MinCopies: int := 1
  const MaxCopies: int := 10

  /**
   * `new File(doc)`. Mongoose reads the clock once for the `uploadTime` default
   * and again for the `expiresAt` default, so the two readings are separate inputs.
   */
  function Create(id: Id, doc: NewFile, uploadClock: int, expiryClock: int): (r: FileRecord)
    ensures r.id == id && r.filename == doc.filename && r.originalName == doc.originalName
    ensures r.fileType == doc.fileType && r.fileSize == doc.fileSize
    ensures r.status == Pending
    ensures r.uploadTime == uploadClock && r.expiresAt == expiryClock + TtlMs
    ensures r.studentName == (if doc.studentName.Some? then doc.studentName.value else "Anonymous")
    ensures r.printCopies == (if doc.printCopies.Some? then doc.printCopies.value else 1)
    ensures r.printSettings.color == (doc.color == Some(true))
    ensures r.printSettings.doubleSided == (doc.doubleSided == Some(true))
    ensures r.printSettings.pages == (if doc.pages.Some? then doc.pages.value else "all")
  {
    FileRecord(
      id, doc.filename, doc.originalName, doc.fileType, doc.fileSize,
      uploadClock, expiryClock + TtlMs,
      doc.studentName.GetOr("Anonymous"),
      Pending,
      doc.printCopies.GetOr(1),
      PrintSettings(doc.color.GetOr(false), doc.doubleSided.GetOr(false), doc.pages.GetOr("all")))
  }

  /**
   * What validation on `save` checks: required strings are non-empty, `printCopies`
   * lies in 1..10, `status` is in its enumeration (`fileType` is by construction).
   */
  predicate SchemaValid(r: FileRecord)
  {
    && r.filename != ""
    && r.originalName != ""
    && MinCopies <= r.printCopies <= MaxCopies
    && InEnum(r.status)
  }

  /** When both clock readings fall in the same millisecond, a record lives exactly the TTL. */
  lemma CreateLivesTtl(id: Id, doc: NewFile, now: int)
    ensures Create(id, doc, now, now).expiresAt - Create(id, doc, now, now).uploadTime == 20 * 60 * 1000
  {
  }

  /** A freshly built document passes validation exactly when its required strings are present and its copy count is in range. */
  lemma CreateValidIff(id: Id, doc: NewFile, uploadClock: int, expiryClock: int)
    ensures SchemaValid(Create(id, doc, uploadClock, expiryClock)) <==>
      doc.filename != "" && doc.originalName != "" &&
      (doc.printCopies.Some? ==> 1 <= doc.printCopies.value <= 10)
  {
  }
}

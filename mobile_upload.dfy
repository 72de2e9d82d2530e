/**
 * The student's upload form: the client-side type and size checks on the
 * chosen file, and the submission with its fixed form fields.
 */
module MobileUpload {
  import opened Options
  import opened Strings
  import opened FileModel
  import opened UploadGate
  import opened FileController

  /** The file the browser hands over: its name, its declared MIME type and its size. */
  datatype SelectedFile = SelectedFile(name: string, mimeType: string, size: int)

  const ValidTypes: seq<string> := [
    "application/pdf",
    "application/msword",
    "application/vnd.openxmlformats-officedocument.wordprocessingml.document",
    "image/jpeg",
    "image/png",
    "image/jpg",
    "text/plain"
  ]

  const MaxSelectionSize: int := 50 * 1024 * 1024

  const TypeError: string := "Please select a PDF, Word, Image, or Text file"
  const SizeError: string := "File size should be less than 50MB"
  const NoFileError: string := "Please select a file first"
  const UploadFailed: string := "Upload failed. Please try again."

  /** The message the type and size checks give a file, type first; `None` when it may be selected. */
  function SelectionError(f: SelectedFile): (e: Option<string>)
    ensures e.None? <==> f.mimeType in ValidTypes && f.size <= 52428800
    ensures f.mimeType !in ValidTypes ==> e == Some(TypeError)
    ensures f.mimeType in ValidTypes && f.size > 52428800 ==> e == Some(SizeError)
  {
    if f.mimeType !in ValidTypes then Some(TypeError)
    else if f.size > MaxSelectionSize then Some(SizeError)
    else None
  }

  /** A file of exactly 50 MiB may be selected; one byte more may not. */
  lemma SelectionSizeBoundary(name: string, mimeType: string)
    requires mimeType in ValidTypes
    ensures SelectionError(SelectedFile(name, mimeType, 52428800)).None?
    ensures SelectionError(SelectedFile(name, mimeType, 52428801)) == Some(SizeError)
  {
  }

  /** A file failing both checks is told about its type. */
  lemma TypeCheckedFirst(f: SelectedFile)
    requires f.mimeType !in ValidTypes && f.size > MaxSelectionSize
    ensures SelectionError(f) == Some(TypeError)
  {
  }

  /**
   * The client checks the MIME type and the server the extension, so a file the
   * form accepts can still be refused by the server. Browsers give a `.jfif`
   * photo the type "image/jpeg", which the form accepts, while `.jfif` is not an
   * allowed extension.
   */
  lemma ClientAcceptsServerRefuses()
    ensures SelectionError(SelectedFile("photo.jfif", "image/jpeg", 1000)).None?
    ensures FileFilter("photo.jfif", "image/jpeg").Reject?
  {
    assert ValidTypes[3] == "image/jpeg";
    JfifExtension();
    JfifNotAllowed();
  }

  lemma JfifExtension()
    ensures ToLower(ExtName("photo.jfif")) == ".jfif"
  {
    var name := "photo.jfif";
    assert name[5] == '.' && name[6] != '.' && name[7] != '.' && name[8] != '.' && name[9] != '.';
    LastIndexOfUnique(name, '.', 5);
    assert name[5..] == ".jfif";
    assert ToLower(".jfif") == ".jfif";
  }

  lemma JfifNotAllowed()
    ensures ".jfif" !in AllowedExtensions
  {
    assert forall a | a in AllowedExtensions :: a[2] != 'f';
  }

  /** The fixed form fields sent with every file. */
  const FixedFields: UploadBody := UploadBody(Some("Student"), Some(1), Some("false"), Some("false"), None)

  /** What the form sends: the selected file and the fixed fields. */
  datatype Submission = Submission(file: SelectedFile, body: UploadBody)

  /** The server's answer: stored, or refused with the `error` field of its reply, if any. */
  datatype UploadReply = Stored | Refused(serverError: Option<string>)

  /** The message shown for a refused upload: the server's, unless it is missing or empty. */
  function ReplyError(serverError: Option<string>): (msg: string)
    ensures msg != ""
    ensures serverError.Some? && serverError.value != "" ==> msg == serverError.value
    ensures serverError.None? ==> msg == UploadFailed
  {
    if serverError.Some? && serverError.value != "" then serverError.value else UploadFailed
  }

  /** Every record created from a form submission has the fixed fields' values. */
  lemma SubmittedRecordFields(id: Id, stored: StoredFile, uploadClock: int, expiryClock: int)
    ensures var r := Create(id, NewFileFrom(stored, FixedFields), uploadClock, expiryClock);
      && r.studentName == "Student"
      && r.printCopies == 1
      && !r.printSettings.color
      && !r.printSettings.doubleSided
      && r.printSettings.pages == "all"
      && r.status == Pending
      && SchemaValid(r) == (stored.filename != "" && stored.originalName != "")
  {
    UploadedRecordDefaults(id, stored, FixedFields, uploadClock, expiryClock);
  }

  /** The component's state. */
  class UploadForm {
    var file: Option<SelectedFile>
    var uploading: bool
    var uploadSuccess: bool
    var error: string

    constructor ()
      ensures file.None? && !uploading && !uploadSuccess && error == ""
    {
      file := None;
      uploading := false;
      uploadSuccess := false;
      error := "";
    }

    /**
     * `handleFileChange`: check the chosen file's type, then its size; a failed
     * check only sets the error, a passed one selects the file.
     */
    method HandleFileChange(selected: Option<SelectedFile>)
      modifies this
      ensures uploading == old(uploading)
      ensures selected.None? ==> file == old(file) && error == old(error) && uploadSuccess == old(uploadSuccess)
      ensures selected.Some? && SelectionError(selected.value).Some? ==>
        && error == SelectionError(selected.value).value
        && file == old(file) && uploadSuccess == old(uploadSuccess)
      ensures selected.Some? && SelectionError(selected.value).None? ==>
        file == selected && error == "" && !uploadSuccess
    {
      if selected.Some? {
        var f := selected.value;
        if f.mimeType !in ValidTypes {
          error := TypeError;
          return;
        }
        if f.size > 50 * 1024 * 1024 {
          error := SizeError;
          return;
        }
        file := selected;
        error := "";
        uploadSuccess := false;
      }
    }

    /**
     * `handleUpload`: with no file, only set the error; otherwise send the file
     * with the fixed fields and, by `reply`, clear the form or show the error.
     */
    method HandleUpload(reply: UploadReply) returns (sent: Option<Submission>)
      modifies this
      ensures old(file).None? ==>
        && sent.None? && error == NoFileError
        && file == old(file) && uploading == old(uploading) && uploadSuccess == old(uploadSuccess)
      ensures old(file).Some? ==> sent == Some(Submission(old(file).value, FixedFields)) && !uploading
      ensures old(file).Some? && reply == Stored ==> uploadSuccess && file.None? && error == ""
      ensures old(file).Some? && reply.Refused? ==>
        && error == ReplyError(reply.serverError)
        && file == old(file) && uploadSuccess == old(uploadSuccess)
    {
      if file.None? {
        error := NoFileError;
        return None;
      }
      uploading := true;
      error := "";
      sent := Some(Submission(file.value, FixedFields));
      if reply == Stored {
        uploadSuccess := true;
        file := None;
      } else {
        error := ReplyError(reply.serverError);
      }
      uploading := false;
    }
  }
}

# dropYourFile print queue: the file-record lifecycle in Dafny

dropYourFile lets students upload a document from a phone. A print-shop operator
then prints it from a dashboard. Every upload is two things:
- a **blob** in the `uploads/` directory, named by a fresh identifier plus the
  original extension;
- a **record** in the `File` collection. It holds a status, print settings and an
  absolute `expiresAt`, 20 minutes after upload.

This project models how those two live and die. It covers:

- **Record schema.** Defaults, enumerations and bounds (`FileModel`, file_model.dfy).
- **Upload middleware** (`UploadGate`, upload_gate.dfy):
  - the extension allow-list with its lenient MIME check;
  - the stored name (identifier + `path.extname`);
  - the 50 MiB and one-file limits.
- **The two stores** (`Stores`, stores.dfy). `Snapshot` is a pure value with one
  function per lifecycle step: insert, status overwrite, destroy, sweep.
  `FileStore` is the mutable pair that the handlers and the cleanup job update in place.
- **Controller handlers** (`FileController`, file_controller.dfy): upload (with the
  `getFileType` mapping), list newest first, get, status update and delete. Each is
  a method on the store, proved against the `Snapshot` functions.
- **Hourly cleanup pass** (`CleanupJob`, cleanup_job.dfy). It runs the loop over
  the expired records as found; a throw at any step ends the pass.
- **Operator dashboard** (`GlobalDashboard`, global_dashboard.dfy):
  - the status buttons each card offers, and the status machine they are the only
    enforcement of, which holds for clicks on a card that shows the record's
    current status;
  - the countdown label, the status class, the header counts and the name truncation;
  - the handlers, including the counting loop of "Delete All".
- **Student upload form** (`MobileUpload`, mobile_upload.dfy): the client-side type
  and size checks and the fixed fields sent with every file.

Times are integers in milliseconds. Failures that the code catches are parameters
saying where the failure happens. These are:
- the `save` outcome;
- the delete and sweep fault positions;
- whether the print window opened;
- the server's reply to the form.

The model follows the code where a reader might expect otherwise:
- **No transition check on the server.** A status update stores whatever string it
  is given, without checking the current status or the enumeration
  (backend/src/controllers/fileController.js:82-86). The state machine exists only
  in the buttons the dashboard renders, so it is proved there, for clicks on a card
  that shows the record's current status. Cards come from the last listing, so a
  stale card can store a status over `cancelled` (`GlobalDashboard.StaleClickOverwritesCancelled`).
- **No expiry filter.** Listing and lookup return records past `expiresAt` that the
  cleanup job has not removed yet.
- **Strict comparison.** The cleanup job selects `expiresAt < now`, not `<=`.
- **A throw ends the pass.** One thrown exception in the cleanup loop ends that pass
  rather than skipping one record (backend/src/utils/cleanupJob.js:8-29).
- **No compensating cleanup.** A failed `save` leaves the already-written blob in
  place. Files the middleware refuses leave no file behind.
- **Type fallback.** An unrecognised extension maps to `doc`. The middleware
  admits only the seven allowed extensions, so the fallback is unreachable behind it.

## Model

| member | source | states |
|---|---|---|
| `FileModel.ParseStatus` | backend/src/models/File.js:34-38 | reading a stored status string back gives a status whose name is that string; it is one of the four enumerated statuses exactly when the string is one of the four names |
| `FileModel.StatusRoundTrip` | backend/src/models/File.js:34-38 | naming a status and reading the name back gives the same status |
| `FileModel.Create` | backend/src/models/File.js:21-58 | a new document is pending; `uploadTime` is the first clock reading and `expiresAt` is the second plus 20 minutes; absent fields take the schema defaults (Anonymous, 1 copy, black and white, single-sided, pages "all") |
| `FileModel.CreateLivesTtl` | backend/src/models/File.js:21-29 | when both clock readings fall in the same millisecond, a record lives exactly 20 minutes |
| `FileModel.SchemaValid` | backend/src/models/File.js:4-44 | what validation on `save` checks: non-empty filename and original name, a copy count in 1..10, and a status from the enumeration |
| `FileModel.CreateValidIff` | backend/src/models/File.js:4-44 | a new document passes validation exactly when filename and original name are non-empty and any given copy count is in 1..10 |
| `UploadGate.ExtName` | backend/src/middleware/upload.js:22 | the extension is empty exactly when the name has no dot after its first character or is ".."; otherwise it is the dot-led suffix of the name with no other dot, so it starts at the last dot |
| `UploadGate.ExtNameCommutesWithLower` | backend/src/middleware/upload.js:22 | lower-casing then taking the extension equals taking the extension then lower-casing |
| `UploadGate.LooseMimeMatch` | backend/src/middleware/upload.js:45-54 | the second branch's test: the lower-cased MIME type contains the keyword of the extension ("pdf", "msword" or "word", "jpeg", "png", "text") |
| `UploadGate.RejectMessage` | backend/src/middleware/upload.js:63 | the error text: the extension followed by the seven allowed extensions joined by ", " |
| `UploadGate.FileFilter` | backend/src/middleware/upload.js:17-64 | a file is accepted exactly when its lower-cased extension is one of the seven allowed ones |
| `UploadGate.MimeNeverRejects` | backend/src/middleware/upload.js:25-61 | the MIME type never changes whether a file is accepted |
| `UploadGate.EmptyMimeAccepted` | backend/src/middleware/upload.js:25-60 | every name with an allowed extension and an empty MIME type is accepted by the fallback branch, not by the docx or the keyword branch |
| `UploadGate.FilterIgnoresCase` | backend/src/middleware/upload.js:22-25 | names equal up to letter case get the same verdict |
| `UploadGate.RejectMessageNames` | backend/src/middleware/upload.js:63 | the rejection message contains the given extension and every allowed extension |
| `UploadGate.RejectionNamesExtension` | backend/src/middleware/upload.js:63 | a rejected file's message names its lower-cased extension and every allowed one |
| `UploadGate.StoredName` | backend/src/middleware/upload.js:10-13 | the stored name starts with the fresh identifier |
| `UploadGate.StoredNameKeepsExtension` | backend/src/middleware/upload.js:11 | with an identifier free of dots, the stored name has the uploaded name's extension, case kept |
| `UploadGate.DistinctIdsDistinctNames` | backend/src/middleware/upload.js:11 | identifiers of one length that differ give stored names that differ |
| `UploadGate.FreshIdFreshName` | backend/src/middleware/upload.js:11 | an identifier no existing blob name starts with gives a name not yet in use |
| `UploadGate.Admit` | backend/src/middleware/upload.js:66-73 | no part means no file; a request is admitted exactly when it has one part whose extension is allowed and whose size is at most 50 MiB, and the admitted part is that part |
| `UploadGate.SizeLimitBoundary` | backend/src/middleware/upload.js:69 | exactly 50 MiB is admitted and one byte more is refused as too large |
| `Stores.Inserted` | backend/src/controllers/fileController.js:45 | a saved record is filed under its id; the blobs do not change |
| `Stores.Restatused` | backend/src/controllers/fileController.js:82-86 | a status overwrite replaces that record's status only |
| `Stores.Destroyed` | backend/src/controllers/fileController.js:108-115 | a destroy removes the record and its blob |
| `Stores.Swept` | backend/src/utils/cleanupJob.js:12-24 | a completed pass removes the expired records and their blobs |
| `Stores.FileStore.State` | backend/src/controllers/fileController.js:45 | the record collection and the upload directory, read together as one value |
| `Stores.FileStore.Valid` | backend/src/models/File.js:4-44 | every stored record is filed under its own id, passed validation, and has a blob name of its own |
| `Stores.ExpiredIds` | backend/src/utils/cleanupJob.js:12-14 | the ids found are exactly the records whose `expiresAt` is strictly before now |
| `Stores.DestroyedIsLocal` | backend/src/controllers/fileController.js:108-115 | destroying a record removes it and its blob and leaves every other record and blob as it was |
| `Stores.DestroyedKeepsInvariants` | backend/src/controllers/fileController.js:108-115 | destroying keeps the store well formed and keeps every record's blob present |
| `Stores.RestatusedIsLocal` | backend/src/controllers/fileController.js:82-86 | a status overwrite changes only that record's status: `expiresAt`, the other fields, the other records and the blobs stay |
| `Stores.RestatusedKeepsInvariants` | backend/src/controllers/fileController.js:82-86 | a status overwrite keeps the store well formed and the blobs present |
| `Stores.InsertedKeepsInvariants` | backend/src/controllers/fileController.js:31-45 | inserting a saved record under a new id and a new blob name keeps the store well formed, and keeps blobs present when its blob is on disk |
| `Stores.SweptIsExact` | backend/src/utils/cleanupJob.js:12-24 | after a pass exactly the records with `expiresAt >= now` remain, unchanged; expired records' blobs are gone; other blobs and blobs without a record stay |
| `Stores.SweptKeepsInvariants` | backend/src/utils/cleanupJob.js:16-24 | a pass keeps the store well formed and the blobs of the remaining records present |
| `Stores.SweepsCompose` | backend/src/utils/cleanupJob.js:12-24 | a pass at a later time after one at an earlier time leaves the state of the later pass alone |
| `Stores.SweepIdempotent` | backend/src/utils/cleanupJob.js:12-24 | two passes at the same time leave the state of one |
| `Stores.DestroyedAllRemoves` | backend/src/utils/cleanupJob.js:16-24 | destroying a sequence of ids in turn removes exactly those records and their blobs, in any order and with repeats |
| `Stores.SweepIsDestroyEach` | backend/src/utils/cleanupJob.js:16-24 | a pass equals destroying each expired record in turn, in whatever order the query returns them |
| `FileController.AfterLastDot` | backend/src/controllers/fileController.js:16 | the key is a dot-free suffix of the name that is either the whole name or preceded by a dot, so it is the text after the last dot |
| `FileController.TypeMapLookup` | backend/src/controllers/fileController.js:18-28 | the literal type map: never `jpeg`, and `jpg` exactly for the keys `jpg` and `jpeg` |
| `FileController.GetFileType` | backend/src/controllers/fileController.js:15-29 | never `jpeg`; `jpg` exactly for the keys `jpg` and `jpeg`; `doc` for any key not in the map |
| `FileController.FileTypeRoundTrip` | backend/src/controllers/fileController.js:18-28 | a dot-free base name plus the type's name maps back to the type, with `jpeg` folded into `jpg` |
| `FileController.AdmittedFileHasMappedType` | backend/src/controllers/fileController.js:15-29 | for every file the middleware admits, the key after the last dot is in the type map, so the `doc` fallback is never used |
| `FileController.AllowedExtensionHasMappedKey` | backend/src/controllers/fileController.js:15-29 | a name whose lower-cased extension is allowed has the dot-less extension as its key, and that key is in the type map |
| `FileController.NewFileFrom` | backend/src/controllers/fileController.js:12-43 | the document the handler builds: absent fields take the destructuring defaults, and color and double-sided are true only for the text "true" |
| `FileController.UploadedRecordDefaults` | backend/src/controllers/fileController.js:12-43 | the uploaded record is pending and expires 20 minutes after the second clock reading, with the handler's defaults; color and double-sided are on only for the text "true" |
| `FileController.UploadFile` | backend/src/controllers/fileController.js:6-64 | no file gives 400 "No file uploaded"; success exactly when the save goes through and the built record passes validation, answering 201 with that record inserted under its new id; otherwise 500 "Failed to upload file" with the store unchanged |
| `FileController.HandleUpload` | backend/src/index.js:74-77 | a refused request gives 500 "Something went wrong!" and writes nothing; an admitted one writes a blob under a fresh name and keeps it whatever the save does; it succeeds exactly when the save goes through and the record built from the part and the fields passes validation, answering 201 with that record inserted; otherwise 500 "Failed to upload file" with the records unchanged; fault-free uploads keep every blob present |
| `FileController.StoreAdmitted` | backend/src/middleware/upload.js:6-13 | the admitted part's blob is written under the identifier plus its extension, then the upload handler runs on it with the outcome above |
| `FileController.ListingCoversAll` | backend/src/controllers/fileController.js:67-74 | a newest-first listing lists every stored record: its ids are exactly the store's ids |
| `FileController.GetAllFiles` | backend/src/controllers/fileController.js:67-74 | every record exactly once, unchanged, newest `uploadTime` first |
| `FileController.GetFileInfo` | backend/src/controllers/fileController.js:124-137 | the stored record with 200 exactly when the id is known, 404 "File not found" otherwise |
| `FileController.UpdateFileStatus` | backend/src/controllers/fileController.js:77-96 | an unknown id gives 404 and changes nothing; otherwise any status string is stored without checking the current status, only that field changes, and the updated record is returned |
| `FileController.DeleteSucceeds` | backend/src/controllers/fileController.js:99-121 | a delete succeeds when the id is known and neither the lookup, the unlink of a blob on disk, nor the removal throws |
| `FileController.AfterDelete` | backend/src/controllers/fileController.js:99-121 | the stores after one delete: destroyed on success; only the blob gone when the removal throws after the unlink; unchanged otherwise |
| `FileController.AfterDeleteShrinks` | backend/src/controllers/fileController.js:99-121 | whatever the fault, a delete keeps the store well formed, adds nothing, keeps every other record, and removes at most the deleted record's blob |
| `FileController.DeleteFile` | backend/src/controllers/fileController.js:99-121 | success exactly when the record exists and neither the lookup, an unlink of an existing blob, nor the removal throws; success destroys the record and its blob; unknown id gives 404; a failure never removes the record; a removal failure leaves the record without its blob; the new state is exactly `AfterDelete` of the old one |
| `CleanupJob.DestroyExpired` | backend/src/utils/cleanupJob.js:18-23 | for one fetched record: an unlink is attempted only when the blob exists; a missing blob does not stop the record's removal; each throw leaves what was done before it |
| `CleanupJob.SweepStep` | backend/src/utils/cleanupJob.js:16-24 | one turn of the loop on the state the earlier turns left: the unlink throws exactly when the fault is at this turn's unlink and the blob was on disk when the pass began; the removal throws exactly when the fault is at this turn's removal; each outcome's state is given |
| `CleanupJob.Sweep` | backend/src/utils/cleanupJob.js:8-29 | a pass is cut short exactly when the query throws, the removal of a found record throws, or the unlink of a found record whose blob is on disk throws; a completed pass logs the number of records found and leaves exactly the swept state, the same as destroying each found record in turn; a failed query changes nothing; a throw at the k-th record ends the pass with exactly the first k handled; the store stays well formed |
| `GlobalDashboard.Offered` | frontend/src/components/GlobalDashboard.jsx:219-259 | a pending card offers Print and Cancel, a printing card Mark Printed and Cancel, any other card no status button |
| `GlobalDashboard.Writes` | frontend/src/components/GlobalDashboard.jsx:27-72 | the statuses a button stores, in order: Print stores `printing`, then `pending` again when the window is blocked; the first stored status is never `pending` |
| `GlobalDashboard.WritesAreMoves` | frontend/src/components/GlobalDashboard.jsx:219-259 | every status an offered button stores is a legal move from the status before it |
| `GlobalDashboard.MovesAreWritten` | frontend/src/components/GlobalDashboard.jsx:219-259 | every legal move is stored by an offered button, or is the revert of a started print |
| `GlobalDashboard.MoveShape` | frontend/src/components/GlobalDashboard.jsx:219-259 | for clicks on a card showing the record's current status: `printed` is stored only over `printing`; nothing is stored over `printed`, `cancelled` or an unknown status; moves change the status and yield enumerated ones |
| `GlobalDashboard.ClickChain` | frontend/src/components/GlobalDashboard.jsx:219-259 | the statuses a button offered for a status stores form a chain of moves from that status |
| `GlobalDashboard.CurrentClickExtendsTrace` | frontend/src/components/GlobalDashboard.jsx:219-259 | a click on a card showing the record's current status extends a status history from `pending` to a longer one |
| `GlobalDashboard.TraceShape` | frontend/src/components/GlobalDashboard.jsx:219-259 | along any status history from `pending` made by clicks on current cards, every status is enumerated, `printed` directly follows `printing`, and `printed` or `cancelled` is last |
| `GlobalDashboard.PrintedAtMostOnce` | frontend/src/components/GlobalDashboard.jsx:236-255 | along any chain of moves (clicks on current cards) a record is marked printed at most once, and then as its last status |
| `GlobalDashboard.StaleClickOverwritesCancelled` | frontend/src/components/GlobalDashboard.jsx:185-259 | a card drawn before the record was cancelled still offers its buttons; every one but "Cancel" stores a status over `cancelled` that no move allows |
| `GlobalDashboard.TimeRemaining` | frontend/src/components/GlobalDashboard.jsx:122-130 | 'Expired' exactly when less than a minute is left; otherwise the whole minutes left, rounded down |
| `GlobalDashboard.SweepableShowsExpired` | frontend/src/components/GlobalDashboard.jsx:122-130 | a record the cleanup pass would remove is already labelled 'Expired' |
| `GlobalDashboard.ExpiredStaysExpired` | frontend/src/components/GlobalDashboard.jsx:122-130 | once 'Expired', always 'Expired' later |
| `GlobalDashboard.FreshRecordShowsTwentyMinutes` | frontend/src/components/GlobalDashboard.jsx:122-130 | a record read in its creation millisecond shows "20 min" |
| `GlobalDashboard.StatusColor` | frontend/src/components/GlobalDashboard.jsx:132-140 | the four enumerated names get "status-" plus the name; every other string gets "" |
| `GlobalDashboard.StatusColorsDistinct` | frontend/src/components/GlobalDashboard.jsx:132-140 | distinct enumerated statuses get distinct classes |
| `GlobalDashboard.DisplayName` | frontend/src/components/GlobalDashboard.jsx:196-198 | a name of at most 30 characters is shown unchanged; a longer one as its first 30 characters followed by "..." |
| `GlobalDashboard.DisplayNameIdempotent` | frontend/src/components/GlobalDashboard.jsx:196-198 | truncating a shown name again changes nothing |
| `GlobalDashboard.CountStatus` | frontend/src/components/GlobalDashboard.jsx:151-152 | a status count never exceeds the number of files |
| `GlobalDashboard.StatsWithinTotal` | frontend/src/components/GlobalDashboard.jsx:151-153 | the pending count plus the printing count never exceeds the total shown |
| `GlobalDashboard.CountTrue` | frontend/src/components/GlobalDashboard.jsx:80-88 | the success count is at most the number of attempts; it equals it exactly when all succeed and is zero exactly when none do |
| `GlobalDashboard.Dashboard.constructor` | frontend/src/components/GlobalDashboard.jsx:7-8 | the dashboard starts with no files, loading |
| `GlobalDashboard.Dashboard.FetchFiles` | frontend/src/components/GlobalDashboard.jsx:16-25 | the files become the current listing, newest first, and loading ends |
| `GlobalDashboard.Dashboard.HandleStatusUpdate` | frontend/src/components/GlobalDashboard.jsx:27-34 | a known record gets the status and the files are refreshed; for an unknown one nothing changes |
| `GlobalDashboard.Dashboard.HandlePrintFile` | frontend/src/components/GlobalDashboard.jsx:36-72 | a known record ends `printing` when the print window opened and back at `pending` when it was blocked, then the files are refreshed; for an unknown one nothing changes, not even the files |
| `GlobalDashboard.Dashboard.Click` | frontend/src/components/GlobalDashboard.jsx:219-259 | a button offered on a card leaves the record with the last status that button stores, with no check that the card is current; when the card shows the current status, the stored statuses are a chain of moves from it |
| `GlobalDashboard.Dashboard.HandleDelete` | frontend/src/components/GlobalDashboard.jsx:98-107 | without confirmation nothing changes; a confirmed delete leaves exactly `AfterDelete` of the stores; the files are refreshed when it succeeds and left as they were, with the loading flag, when it fails |
| `GlobalDashboard.Dashboard.HandleDeleteAll` | frontend/src/components/GlobalDashboard.jsx:74-96 | without confirmation nothing changes; otherwise each listed record is deleted once, in listing order, leaving exactly `DeletedInTurn` of the stores; `deletedCount` is the number of deletes that succeeded and at most the number listed; a failed delete is skipped; with no faults every record is counted, the collection ends empty and exactly the records' blobs are gone |
| `GlobalDashboard.DeleteEach` | frontend/src/components/GlobalDashboard.jsx:80-88 | the stores end as `DeletedInTurn` of the listing; a listed record's delete succeeded exactly when the record is gone; fault-free deletes succeed; failed lookups or removals do not; surviving records are untouched; the count is the number of successes |
| `GlobalDashboard.DeletedInTurn` | frontend/src/components/GlobalDashboard.jsx:81-88 | the stores after deleting each listed record in turn, the k-th delete meeting the k-th fault |
| `GlobalDashboard.DeletedInTurnFaultFree` | frontend/src/components/GlobalDashboard.jsx:81-88 | without faults, deleting in turn removes exactly the listed records and their blobs, whatever the order |
| `GlobalDashboard.DeleteAllEmpties` | frontend/src/components/GlobalDashboard.jsx:74-91 | without faults, deleting a whole listing empties the collection and removes every record's blob; blobs of no record stay |
| `GlobalDashboard.DeletedInTurnShrinks` | frontend/src/components/GlobalDashboard.jsx:81-88 | whatever the faults, deleting in turn keeps the store well formed, adds nothing, changes no surviving record, keeps every unlisted record, and removes only blobs of listed records |
| `MobileUpload.SelectionError` | frontend/src/components/MobileUpload.jsx:17-36 | a file may be selected exactly when its MIME type is one of the seven and its size is at most 50 MiB; the type error is reported before the size error |
| `MobileUpload.SelectionSizeBoundary` | frontend/src/components/MobileUpload.jsx:33-36 | exactly 50 MiB may be selected and one byte more may not |
| `MobileUpload.TypeCheckedFirst` | frontend/src/components/MobileUpload.jsx:27-36 | a file failing both checks gets the type error |
| `MobileUpload.ClientAcceptsServerRefuses` | frontend/src/components/MobileUpload.jsx:17-30 | a file the form accepts by its MIME type can still be refused by the server's extension filter: a `.jfif` photo, which browsers type as "image/jpeg" |
| `MobileUpload.FixedFields` | frontend/src/components/MobileUpload.jsx:55-59 | the fields sent with every file: "Student", one copy, color and double-sided "false", no pages field |
| `MobileUpload.ReplyError` | frontend/src/components/MobileUpload.jsx:72-74 | the error shown for a refused upload is never empty: the server's message, or the fixed fallback |
| `MobileUpload.SubmittedRecordFields` | frontend/src/components/MobileUpload.jsx:54-59 | a record created from the form belongs to "Student" with 1 copy, black and white, single-sided, all pages, pending |
| `MobileUpload.UploadForm.constructor` | frontend/src/components/MobileUpload.jsx:7-10 | the form starts empty, idle and without error |
| `MobileUpload.UploadForm.HandleFileChange` | frontend/src/components/MobileUpload.jsx:13-42 | a file failing a check only sets that check's error; a passing file is selected, the error cleared and the success flag dropped |
| `MobileUpload.UploadForm.HandleUpload` | frontend/src/components/MobileUpload.jsx:44-78 | without a file only the error is set and nothing is sent; otherwise the file goes with the fixed fields, success clears the form, a refusal shows its error, and the form ends idle |

## Left out

- MongoDB's TTL index (backend/src/models/File.js:28, 62) deletes records in the background and does not remove their blobs. It is a foreign mechanism and is not modelled. So the model claims no "every blob has a record" property.
- Scheduling is not modelled: the hourly cron trigger, the dashboard's 5-second polling and the success-message timers. A cleanup pass is one explicit `CleanupJob.Sweep(now)` call.
- CleanupJob.Sweep takes the order in which the query returns the expired records as a parameter, each record once; which order the database picks is not modelled.
- GlobalDashboard.MoveShape, `GlobalDashboard.TraceShape` and `GlobalDashboard.PrintedAtMostOnce` hold for what the store records only when every click is on a card showing the record's current status. The model does not require that of `GlobalDashboard.Dashboard.Click`, as the source does not: cards come from the last listing, refreshed every 5 seconds and by refreshes that are not awaited (frontend/src/components/GlobalDashboard.jsx:12, 30, 64). A stale click can store `printing` or `printed` over `cancelled`.
- Stores.FileStore keeps one `blobs` set for two directories of the source. multer writes to `uploads/` relative to the working directory (backend/src/middleware/upload.js:8), while the delete handler and the cleanup job look in `backend/uploads` (backend/src/controllers/fileController.js:109, backend/src/utils/cleanupJob.js:18-20). The model assumes the server is started from `backend/`, where both name the same directory. Started elsewhere, every existence check fails, no blob is ever removed, and the blob-removal claims of `FileController.DeleteFile`, `CleanupJob.Sweep`, `Stores.DestroyedIsLocal` and `Stores.SweptIsExact` do not hold.
- Concurrency between the cleanup pass and request handlers is not modelled; the source does no coordination. Operations are atomic sequential steps.
- Browser I/O (`window.open`, `print`, `confirm`, `alert`) is kept only through its effect on status. The outcomes are the `popupOpened` and `confirmed` parameters.
- The network between the dashboard or form and the server is not modelled. A listing request always succeeds. The form's reply is a parameter.
- The uuid generator is not modelled. Its value is a parameter that no existing blob or record filename starts with.
- The clock is not modelled. Time readings are parameters.
- multer's parsing internals are not modelled. A request arrives as a sequence of file parts with declared name, MIME type and size. Streaming, the partial file left by an over-size upload and directory handling are out of scope.
- FileModel.Create: the record's `_id` is a parameter. An invalid id in a URL (a cast error answering 500) is not modelled; ids are plain strings.
- FileController.UpdateFileStatus: a body without a string `status` and database failures (500 "Failed to update status") are not modelled.
- FileController.GetAllFiles and `FileController.GetFileInfo` do not model a database failure answering 500.
- FileController.UploadFile models the copy count as an integer once cast. Mongoose casts the multipart text "" to null, which the min/max validators skip, and "2.5" to 2.5, which they accept; both save. The model does not produce either record. A text that does not cast at all fails the save, modelled by the `saveOk` parameter.
- Stores.Saved claims an integer copy count in 1..10 for every stored record. Records saved with a null or a fractional count from the inputs above are not covered by it.
- Strings.ToLower folds ASCII letters only, where JavaScript's `toLowerCase` is full Unicode. The only character outside ASCII that JavaScript lower-cases to an ASCII letter is the Kelvin sign (to 'k'); 'İ' becomes 'i' followed by the combining dot U+0307, which is not ASCII. No allowed extension or type-map key contains 'k', so acceptance verdicts and file types agree. The rejection message differs, because it embeds the lower-cased extension: for "a.ÄBC" the source names ".äbc" and `UploadGate.RejectMessage` names ".Äbc".
- GlobalDashboard.DisplayName counts characters; JavaScript's `substring` counts UTF-16 code units.
- `formatFileSize` (floating-point logarithms) and `formatTime` (locale formatting) are not modelled.
- Keys like `constructor` in `getFileType`'s object lookup would reach the object prototype. The middleware admits only the seven allowed extensions, so no such key reaches the lookup. `FileController.GetFileType` treats every unmapped key as `doc`.
- Dates are unbounded integers of milliseconds. JavaScript's double-precision limits are not modelled.

/**
 * The request handlers of the files API: upload (behind the upload middleware),
 * list, get, status overwrite and delete, each on the shared stores.
 */
module FileController {
  import opened Options
  import opened Strings
  import opened FileModel
  import opened UploadGate
  import opened Stores

  /** An HTTP reply: a success status with its payload, or an error status with its message. */
  datatype Response<T> = Success(code: int, value: T) | Failure(code: int, error: string)

  // ---------------------------------------------------------------------------
  // getFileType

  /** `originalName.split('.').pop()`: the text after the last '.', or the whole name. */
  function AfterLastDot(name: string): (key: string)
    ensures '.' !in key
    ensures |key| <= |name| && key == name[|name| - |key|..]
    ensures |key| == |name| || name[|name| - |key| - 1] == '.'
  {
    name[LastIndexOf(name, '.') + 1..]
  }

  /** The literal `typeMap` of the handler. */
  function TypeMapLookup(key: string): (r: Option<FileType>)
    ensures r != Some(Jpeg)
    ensures r == Some(Jpg) <==> key == "jpg" || key == "jpeg"
  {
    if key == "pdf" then Some(Pdf)
    else if key == "doc" then Some(Doc)
    else if key == "docx" then Some(Docx)
    else if key == "jpg" then Some(Jpg)
    else if key == "jpeg" then Some(Jpg)
    else if key == "png" then Some(Png)
    else if key == "txt" then Some(Txt)
    else None
  }

  /** `getFileType`: classify by lower-cased extension, `doc` for anything unknown. */
  function GetFileType(originalName: string): (t: FileType)
    ensures t != Jpeg
    ensures t == Jpg <==> ToLower(AfterLastDot(originalName)) in ["jpg", "jpeg"]
    ensures TypeMapLookup(ToLower(AfterLastDot(originalName))).None? ==> t == Doc
  {
    var key := ToLower(AfterLastDot(originalName));
    match TypeMapLookup(key)
    case Some(t) => t
    case None => Doc
  }

  /** The enumeration string of a file type. */
  function TypeName(t: FileType): string
  {
    match t
    case Pdf => "pdf"
    case Doc => "doc"
    case Docx => "docx"
    case Jpg => "jpg"
    case Jpeg => "jpeg"
    case Png => "png"
    case Txt => "txt"
  }

  /**
   * Every produced type is recovered from a name carrying its own extension;
   * `jpeg` is the one enumerated value never produced (it reads as `jpg`).
   */
  lemma FileTypeRoundTrip(base: string, t: FileType)
    requires '.' !in base
    ensures GetFileType(base + "." + TypeName(t)) == (if t == Jpeg then Jpg else t)
  {
    TypeNameIsKey(t);
    KeyOfTypedName(base, TypeName(t));
  }

  /** Each type's name is lower-case and the map takes it back to the type, `jpeg` to `jpg`. */
  lemma TypeNameIsKey(t: FileType)
    ensures ToLower(TypeName(t)) == TypeName(t)
    ensures TypeMapLookup(TypeName(t)) == Some(if t == Jpeg then Jpg else t)
  {
    LowerKeepsLowercase(TypeName(t));
  }

  /** The key of a dot-free base, a dot and a dot-free key is that key. */
  lemma KeyOfTypedName(base: string, key: string)
    requires '.' !in base && '.' !in key
    ensures AfterLastDot(base + "." + key) == key
  {
    var name := base + "." + key;
    forall j | |base| < j < |name|
      ensures name[j] != '.'
    {
      assert name[j] == key[j - |base| - 1];
    }
    LastIndexOfUnique(name, '.', |base|);
  }

  /** Text without capital letters is its own lower-case form. */
  lemma LowerKeepsLowercase(s: string)
    requires forall i | 0 <= i < |s| :: !('A' <= s[i] <= 'Z')
    ensures ToLower(s) == s
  {
  }

  /**
   * For a file the upload filter let through, the `typeMap` key is its extension
   * without the dot, so the `doc` fallback never fires for an admitted file.
   */
  lemma AdmittedFileHasMappedType(originalName: string, mimetype: string)
    requires FileFilter(originalName, mimetype).Accept?
    ensures "." + ToLower(AfterLastDot(originalName)) == ToLower(ExtName(originalName))
    ensures TypeMapLookup(ToLower(AfterLastDot(originalName))).Some?
  {
    AllowedExtensionHasMappedKey(originalName);
  }

  /** A name whose lower-cased extension is allowed has a mapped `typeMap` key. */
  lemma AllowedExtensionHasMappedKey(name: string)
    requires ToLower(ExtName(name)) in AllowedExtensions
    ensures "." + ToLower(AfterLastDot(name)) == ToLower(ExtName(name))
    ensures TypeMapLookup(ToLower(AfterLastDot(name))).Some?
  {
    var ext := ExtName(name);
    var key := AfterLastDot(name);
    assert ext != "" by {
      assert ToLower("") == "";
    }
    ExtensionIsDotKey(name);
    ToLowerAppend(".", key);
    assert ToLower(".") == ".";
    AllowedKeyIsMapped(ToLower(ext));
    assert ToLower(ext)[1..] == ToLower(key);
  }

  /** A non-empty extension is a '.' followed by the `split('.').pop()` key. */
  lemma ExtensionIsDotKey(name: string)
    requires ExtName(name) != ""
    ensures ExtName(name) == "." + AfterLastDot(name)
  {
  }

  lemma AllowedKeyIsMapped(ext: string)
    requires ext in AllowedExtensions
    ensures |ext| > 1 && TypeMapLookup(ext[1..]).Some?
  {
  }

  // ---------------------------------------------------------------------------
  // uploadFile

  /** `req.file` as the upload middleware leaves it: the blob is already written. */
  datatype StoredFile = StoredFile(filename: string, originalName: string, size: int)

  /** The multipart text fields; absent ones take the handler's destructuring defaults. */
  datatype UploadBody = UploadBody(
    studentName: Option<string>,
    printCopies: Option<int>,
    color: Option<string>,
    doubleSided: Option<string>,
    pages: Option<string>)

  /** The document the handler builds: flags are true only for the exact text "true". */
  function NewFileFrom(file: StoredFile, body: UploadBody): NewFile
  {
    NewFile(
      file.filename, file.originalName, GetFileType(file.originalName), file.size,
      Some(body.studentName.GetOr("Anonymous")),
      Some(body.printCopies.GetOr(1)),
      Some(body.color == Some("true")),
      Some(body.doubleSided == Some("true")),
      Some(body.pages.GetOr("all")))
  }

  /** The record an upload creates: pending, expiring 20 minutes on, with the handler's defaults. */
  lemma UploadedRecordDefaults(id: Id, file: StoredFile, body: UploadBody, uploadClock: int, expiryClock: int)
    ensures var r := Create(id, NewFileFrom(file, body), uploadClock, expiryClock);
      && r.status == Pending
      && r.expiresAt == expiryClock + 20 * 60 * 1000
      && r.filename == file.filename
      && InEnumType(r.fileType)
      && r.studentName == (if body.studentName.None? then "Anonymous" else body.studentName.value)
      && r.printCopies == (if body.printCopies.None? then 1 else body.printCopies.value)
      && r.printSettings.pages == (if body.pages.None? then "all" else body.pages.value)
      && (r.printSettings.color <==> body.color == Some("true"))
      && (r.printSettings.doubleSided <==> body.doubleSided == Some("true"))
  {
  }

  /** The six values `getFileType` can produce. */
  predicate InEnumType(t: FileType)
  {
    t in {Pdf, Doc, Docx, Jpg, Png, Txt}
  }

  /**
   * `uploadFile`: 400 when no file came through; otherwise build the record and
   * save it. A failed save (validation or storage) answers 500 and leaves the
   * already-written blob in place.
   */
  method UploadFile(store: FileStore, file: Option<StoredFile>, body: UploadBody, newId: Id,
                    uploadClock: int, expiryClock: int, saveOk: bool)
    returns (res: Response<FileRecord>)
    requires store.Valid() && newId !in store.records
    requires file.Some? ==> forall id | id in store.records :: store.records[id].filename != file.value.filename
    modifies store
    ensures store.Valid()
    ensures file.None? ==> res == Failure(400, "No file uploaded")
    ensures res.Failure? ==> store.State() == old(store.State())
    ensures res.Success? <==>
      file.Some? && saveOk && SchemaValid(Create(newId, NewFileFrom(file.value, body), uploadClock, expiryClock))
    ensures res.Success? ==>
      && res.code == 201
      && res.value == Create(newId, NewFileFrom(file.value, body), uploadClock, expiryClock)
      && store.State() == Inserted(old(store.State()), res.value)
    ensures file.Some? && res.Failure? ==> res == Failure(500, "Failed to upload file")
  {
    if file.None? {
      return Failure(400, "No file uploaded");
    }
    var record := Create(newId, NewFileFrom(file.value, body), uploadClock, expiryClock);
    if !SchemaValid(record) || !saveOk {
      return Failure(500, "Failed to upload file");
    }
    InsertedKeepsInvariants(store.State(), record);
    store.records := store.records[newId := record];
    res := Success(201, record);
  }

  /**
   * The upload route: the middleware (filter, limits, blob written under a fresh
   * name), then `uploadFile`. A middleware error reaches the application's error
   * handler and answers 500 with nothing written.
   */
  method HandleUpload(store: FileStore, parts: seq<Part>, uuid: string, body: UploadBody, newId: Id,
                      uploadClock: int, expiryClock: int, saveOk: bool)
    returns (res: Response<FileRecord>)
    requires store.Valid() && newId !in store.records
    requires forall b | b in store.blobs :: !(uuid <= b)
    requires forall id | id in store.records :: !(uuid <= store.records[id].filename)
    modifies store
    ensures store.Valid()
    ensures BlobsPresent(old(store.State())) ==> BlobsPresent(store.State())
    ensures parts == [] ==> res == Failure(400, "No file uploaded") && store.State() == old(store.State())
    ensures Admit(parts).Refused? ==> res == Failure(500, "Something went wrong!") && store.State() == old(store.State())
    ensures Admit(parts).Admitted? ==>
      var name := StoredName(uuid, parts[0].originalName);
      var r := Create(newId, NewFileFrom(StoredFile(name, parts[0].originalName, parts[0].size), body), uploadClock, expiryClock);
      && store.blobs == old(store.blobs) + {name}
      && (res.Success? <==> saveOk && SchemaValid(r))
      && (res.Success? ==> res == Success(201, r) && store.records == old(store.records)[newId := r])
      && (res.Failure? ==> res == Failure(500, "Failed to upload file") && store.records == old(store.records))
  {
    match Admit(parts)
    case NoFile =>
      res := UploadFile(store, None, body, newId, uploadClock, expiryClock, saveOk);
    case Refused(_) =>
      res := Failure(500, "Something went wrong!");
    case Admitted(part) =>
      res := StoreAdmitted(store, part, uuid, body, newId, uploadClock, expiryClock, saveOk);
  }

  /** An admitted part: the middleware writes its blob under the fresh name, then `uploadFile` runs. */
  method StoreAdmitted(store: FileStore, part: Part, uuid: string, body: UploadBody, newId: Id,
                       uploadClock: int, expiryClock: int, saveOk: bool)
    returns (res: Response<FileRecord>)
    requires store.Valid() && newId !in store.records
    requires forall b | b in store.blobs :: !(uuid <= b)
    requires forall id | id in store.records :: !(uuid <= store.records[id].filename)
    modifies store
    ensures store.Valid()
    ensures BlobsPresent(old(store.State())) ==> BlobsPresent(store.State())
    ensures
      var name := StoredName(uuid, part.originalName);
      var r := Create(newId, NewFileFrom(StoredFile(name, part.originalName, part.size), body), uploadClock, expiryClock);
      && store.blobs == old(store.blobs) + {name}
      && (res.Success? <==> saveOk && SchemaValid(r))
      && (res.Success? ==> res == Success(201, r) && store.records == old(store.records)[newId := r])
      && (res.Failure? ==> res == Failure(500, "Failed to upload file") && store.records == old(store.records))
  {
    var name := StoredName(uuid, part.originalName);
    store.blobs := store.blobs + {name};
    res := UploadFile(store, Some(StoredFile(name, part.originalName, part.size)), body, newId,
                      uploadClock, expiryClock, saveOk);
  }

  // ---------------------------------------------------------------------------
  // getAllFiles

  /**
   * `files` is every record exactly once, newest `uploadTime` first. Expired
   * records that the cleanup job has not removed yet are included.
   */
  ghost predicate NewestFirst(records: map<Id, FileRecord>, files: seq<FileRecord>)
  {
    && |files| == |records|
    && (forall i | 0 <= i < |files| :: files[i].id in records && records[files[i].id] == files[i])
    && (forall i, j | 0 <= i < j < |files| :: files[i].id != files[j].id)
    && (forall i, j | 0 <= i < j < |files| :: files[i].uploadTime >= files[j].uploadTime)
  }

  /** The ids of a listing. */
  function ListedIds(files: seq<FileRecord>): set<Id>
  {
    set r | r in files :: r.id
  }

  /** A listing without repeated ids has as many ids as entries. */
  lemma {:induction false} DistinctListedIds(files: seq<FileRecord>)
    requires forall i, j | 0 <= i < j < |files| :: files[i].id != files[j].id
    ensures |ListedIds(files)| == |files|
    decreases |files|
  {
    if files != [] {
      var n := |files| - 1;
      var init := files[..n];
      assert files == init + [files[n]];
      assert ListedIds(files) == ListedIds(init) + {files[n].id};
      forall r | r in init
        ensures r.id != files[n].id
      {
        var j :| 0 <= j < n && init[j] == r;
      }
      DistinctListedIds(init);
    }
  }

  /** A newest-first listing lists every stored record: its ids are exactly the store's. */
  lemma ListingCoversAll(records: map<Id, FileRecord>, files: seq<FileRecord>)
    requires NewestFirst(records, files)
    ensures ListedIds(files) == records.Keys
  {
    DistinctListedIds(files);
    var listed := ListedIds(files);
    assert listed <= records.Keys;
    assert |records.Keys - listed| == |records.Keys| - |listed|;
  }

  /** A non-empty set of ids has a newest record. */
  lemma {:induction false} NewestExists(records: map<Id, FileRecord>, ids: set<Id>)
    requires ids != {} && ids <= records.Keys
    ensures exists id | id in ids :: forall other | other in ids :: records[other].uploadTime <= records[id].uploadTime
    decreases |ids|
  {
    var x :| x in ids;
    var rest := ids - {x};
    if rest == {} {
      assert ids == {x};
      assert forall other | other in ids :: records[other].uploadTime <= records[x].uploadTime;
    } else {
      NewestExists(records, rest);
      var y :| y in rest && forall other | other in rest :: records[other].uploadTime <= records[y].uploadTime;
      if records[x].uploadTime <= records[y].uploadTime {
        assert forall other | other in ids :: records[other].uploadTime <= records[y].uploadTime;
      } else {
        assert forall other | other in ids :: records[other].uploadTime <= records[x].uploadTime;
      }
    }
  }

  /**
   * `getAllFiles`: `find().sort({uploadTime: -1})`. The store's sort is modelled
   * by repeatedly taking a newest remaining record; ties go either way.
   */
  method GetAllFiles(store: FileStore) returns (files: seq<FileRecord>)
    requires store.Valid()
    ensures NewestFirst(store.records, files)
  {
    var records := store.records;
    files := [];
    var remaining := records.Keys;
    while remaining != {}
      invariant PartialListing(records, files, remaining)
      decreases |remaining|
    {
      NewestExists(records, remaining);
      var id :| id in remaining && forall other | other in remaining :: records[other].uploadTime <= records[id].uploadTime;
      ListingStep(records, files, remaining, id);
      files := files + [records[id]];
      remaining := remaining - {id};
    }
  }

  /** The listing built so far: newest first, and no newer than anything still to list. */
  ghost predicate PartialListing(records: map<Id, FileRecord>, files: seq<FileRecord>, remaining: set<Id>)
  {
    && remaining <= records.Keys
    && |files| + |remaining| == |records|
    && (forall i | 0 <= i < |files| ::
         files[i].id in records && records[files[i].id] == files[i] && files[i].id !in remaining)
    && (forall i, j | 0 <= i < j < |files| :: files[i].id != files[j].id)
    && (forall i, j | 0 <= i < j < |files| :: files[i].uploadTime >= files[j].uploadTime)
    && (forall i, id | 0 <= i < |files| && id in remaining :: files[i].uploadTime >= records[id].uploadTime)
  }

  lemma ListingStep(records: map<Id, FileRecord>, files: seq<FileRecord>, remaining: set<Id>, id: Id)
    requires PartialListing(records, files, remaining)
    requires forall other | other in records :: records[other].id == other
    requires id in remaining && forall other | other in remaining :: records[other].uploadTime <= records[id].uploadTime
    ensures PartialListing(records, files + [records[id]], remaining - {id})
  {
  }

  // ---------------------------------------------------------------------------
  // getFileInfo

  /** `getFileInfo`: the stored record unchanged, or 404. */
  method GetFileInfo(store: FileStore, id: Id) returns (res: Response<FileRecord>)
    ensures res.Success? <==> id in store.records
    ensures res.Success? ==> res.code == 200 && res.value == store.records[id]
    ensures res.Failure? ==> res == Failure(404, "File not found")
  {
    if id !in store.records {
      return Failure(404, "File not found");
    }
    res := Success(200, store.records[id]);
  }

  // ---------------------------------------------------------------------------
  // updateFileStatus

  /**
   * `updateFileStatus`: `findByIdAndUpdate(id, {status}, {new: true})`. Neither the
   * current status nor the enumeration is checked; the updated record is returned.
   */
  method UpdateFileStatus(store: FileStore, id: Id, status: string) returns (res: Response<FileRecord>)
    requires store.Valid()
    modifies store
    ensures store.Valid()
    ensures id !in old(store.records) ==> res == Failure(404, "File not found") && store.State() == old(store.State())
    ensures id in old(store.records) ==>
      && store.State() == Restatused(old(store.State()), id, ParseStatus(status))
      && res == Success(200, store.records[id])
    ensures BlobsPresent(old(store.State())) ==> BlobsPresent(store.State())
  {
    if id !in store.records {
      return Failure(404, "File not found");
    }
    RestatusedKeepsInvariants(store.State(), id, ParseStatus(status));
    store.records := store.records[id := store.records[id].(status := ParseStatus(status))];
    res := Success(200, store.records[id]);
  }

  // ---------------------------------------------------------------------------
  // deleteFile

  /** Where a delete can throw: the lookup, the unlink, or the record removal. */
  datatype DeleteFault = NoFault | LookupFails | UnlinkFails | RemoveFails

  /**
   * A delete succeeds when the id is known and neither the lookup, the unlink
   * of a blob that is on disk, nor the record removal throws.
   */
  predicate DeleteSucceeds(s: Snapshot, id: Id, fault: DeleteFault)
  {
    && id in s.records && fault != LookupFails && fault != RemoveFails
    && (fault == UnlinkFails ==> s.records[id].filename !in s.blobs)
  }

  /**
   * The stores after one delete: a success destroys the record and its blob; a
   * removal that throws keeps the unlink done before it; anything else changes nothing.
   */
  function AfterDelete(s: Snapshot, id: Id, fault: DeleteFault): Snapshot
  {
    if DeleteSucceeds(s, id, fault) then Destroyed(s, id)
    else if fault == RemoveFails && id in s.records then Snapshot(s.records, s.blobs - {s.records[id].filename})
    else s
  }

  /**
   * A delete, whatever its fault, keeps well-formedness, adds nothing, touches
   * no other record, and removes at most the deleted record's blob.
   */
  lemma AfterDeleteShrinks(s: Snapshot, id: Id, fault: DeleteFault)
    requires WellFormed(s)
    ensures WellFormed(AfterDelete(s, id, fault))
    ensures AfterDelete(s, id, fault).records.Keys <= s.records.Keys
    ensures forall other | other in AfterDelete(s, id, fault).records :: AfterDelete(s, id, fault).records[other] == s.records[other]
    ensures forall other | other in s.records && other != id :: other in AfterDelete(s, id, fault).records
    ensures AfterDelete(s, id, fault).blobs <= s.blobs
    ensures forall b | b in s.blobs && b !in AfterDelete(s, id, fault).blobs :: id in s.records && b == s.records[id].filename
  {
    if DeleteSucceeds(s, id, fault) {
      DestroyedKeepsInvariants(s, id);
    }
  }

  /**
   * `deleteFile`: 404 for an unknown id; otherwise unlink the blob if it exists,
   * then remove the record. A throw answers 500 with what was done so far kept.
   */
  method DeleteFile(store: FileStore, id: Id, fault: DeleteFault) returns (res: Response<string>)
    requires store.Valid()
    modifies store
    ensures store.Valid()
    ensures res.Success? <==> DeleteSucceeds(old(store.State()), id, fault)
    ensures store.State() == AfterDelete(old(store.State()), id, fault)
    ensures res.Success? ==>
      && res == Success(200, "File deleted successfully")
      && store.State() == Destroyed(old(store.State()), id)
    ensures fault != LookupFails && id !in old(store.records) ==>
      res == Failure(404, "File not found") && store.State() == old(store.State())
    ensures res.Failure? ==> store.records == old(store.records)
    ensures res.Failure? && res.code == 500 ==> res.error == "Failed to delete file"
    ensures fault == RemoveFails && id in old(store.records) ==>
      store.blobs == old(store.blobs) - {old(store.records)[id].filename}
    ensures fault != RemoveFails ==> res.Success? || store.State() == old(store.State())
    ensures BlobsPresent(old(store.State())) && fault != RemoveFails ==> BlobsPresent(store.State())
  {
    if fault == LookupFails {
      return Failure(500, "Failed to delete file");
    }
    if id !in store.records {
      return Failure(404, "File not found");
    }
    var name := store.records[id].filename;
    if name in store.blobs {
      if fault == UnlinkFails {
        return Failure(500, "Failed to delete file");
      }
      store.blobs := store.blobs - {name};
    }
    if fault == RemoveFails {
      return Failure(500, "Failed to delete file");
    }
    DestroyedKeepsInvariants(old(store.State()), id);
    store.records := store.records - {id};
    res := Success(200, "File deleted successfully");
  }
}

/**
 * The operator dashboard: which status buttons a card offers, what each button
 * stores, the countdown label, the status class, the header counts, name
 * truncation, and the handlers that drive the controller.
 */
module GlobalDashboard {
  import opened FileModel
  import opened Stores
  import opened FileController

  // ---------------------------------------------------------------------------
  // Status buttons and the status machine they enforce

  datatype Action = StartPrint | MarkPrinted | Cancel

  /** The status buttons a card renders for a record showing status `st`. */
  function Offered(st: Status): set<Action>
  {
    match st
    case Pending => {StartPrint, Cancel}
    case Printing => {MarkPrinted, Cancel}
    case _ => {}
  }

  /**
   * The statuses an action stores, in order. Starting a print stores `printing`
   * and, when the print window could not be opened, `pending` right after.
   */
  function Writes(a: Action, popupOpened: bool): (w: seq<Status>)
    ensures |w| >= 1 && w[0] != Pending
  {
    match a
    case StartPrint => if popupOpened then [Printing] else [Printing, Pending]
    case MarkPrinted => [Printed]
    case Cancel => [Cancelled]
  }

  function Last(w: seq<Status>): Status
    requires |w| >= 1
  {
    w[|w| - 1]
  }

  /** A status change the dashboard can make: `to` stored over `from`. */
  predicate Move(from: Status, to: Status)
  {
    || (from == Pending && (to == Printing || to == Cancelled))
    || (from == Printing && (to == Printed || to == Cancelled || to == Pending))
  }

  /** Every status an offered action stores is a move from the status before it. */
  lemma WritesAreMoves(st: Status, a: Action, popupOpened: bool)
    requires a in Offered(st)
    ensures Move(st, Writes(a, popupOpened)[0])
    ensures forall i | 0 <= i < |Writes(a, popupOpened)| - 1 :: Move(Writes(a, popupOpened)[i], Writes(a, popupOpened)[i + 1])
  {
  }

  /** Each move is made by some button, either directly or as the revert of a started print. */
  lemma MovesAreWritten(from: Status, to: Status)
    requires Move(from, to)
    ensures (exists a | a in Offered(from) :: Writes(a, true)[0] == to || Writes(a, false)[0] == to)
         || (from == Printing && to == Pending && Writes(StartPrint, false) == [from, to])
  {
    if from == Pending && to == Printing {
      assert Writes(StartPrint, true)[0] == to;
    } else if from == Pending {
      assert Writes(Cancel, true)[0] == to;
    } else if to == Printed {
      assert Writes(MarkPrinted, true)[0] == to;
    } else if to == Cancelled {
      assert Writes(Cancel, true)[0] == to;
    }
  }

  /** `printed` is stored only over `printing`; `printed`, `cancelled` and unknown statuses are final. */
  lemma MoveShape(from: Status, to: Status)
    ensures Move(from, Printed) <==> from == Printing
    ensures from == Printed || from == Cancelled || from.Other? ==> !Move(from, to)
    ensures Move(from, to) ==> InEnum(to) && from != to
  {
  }

  /** Each status in `t` is a move from the one before it. */
  predicate Chain(t: seq<Status>)
  {
    forall i | 0 <= i < |t| - 1 :: Move(t[i], t[i + 1])
  }

  /** The statuses a record shows over its life, starting from the schema default. */
  predicate Trace(t: seq<Status>)
  {
    |t| >= 1 && t[0] == Pending && Chain(t)
  }

  /** A button offered for status `st` stores a chain of moves starting from `st`. */
  lemma ClickChain(st: Status, a: Action, popupOpened: bool)
    requires a in Offered(st)
    ensures Chain([st] + Writes(a, popupOpened))
  {
    WritesAreMoves(st, a, popupOpened);
    var u := [st] + Writes(a, popupOpened);
    forall i | 0 <= i < |u| - 1
      ensures Move(u[i], u[i + 1])
    {
      if i > 0 {
        assert u[i] == Writes(a, popupOpened)[i - 1];
      }
    }
  }

  /**
   * A click on a card that shows the record's current status extends the
   * record's history by the statuses the button stores.
   */
  lemma {:induction false} CurrentClickExtendsTrace(t: seq<Status>, a: Action, popupOpened: bool)
    requires Trace(t) && a in Offered(t[|t| - 1])
    ensures Trace(t + Writes(a, popupOpened))
  {
    var w := Writes(a, popupOpened);
    ClickChain(t[|t| - 1], a, popupOpened);
    var c := [t[|t| - 1]] + w;
    var u := t + w;
    forall i | 0 <= i < |u| - 1
      ensures Move(u[i], u[i + 1])
    {
      if i < |t| - 1 {
        assert u[i] == t[i] && u[i + 1] == t[i + 1];
      } else {
        var j := i - (|t| - 1);
        assert u[i] == c[j] && u[i + 1] == c[j + 1];
      }
    }
  }

  /**
   * Cards are drawn from the last listing, so a card can show a status the
   * record no longer has. When a record shown as `s.records[id].status` has been
   * cancelled since, every button on its card but "Cancel" still stores a
   * status over `cancelled`, which no move allows.
   */
  lemma StaleClickOverwritesCancelled(s: Snapshot, id: Id, a: Action, popupOpened: bool)
    requires id in s.records && a in Offered(s.records[id].status)
    ensures var cancelled := Restatused(s, id, Cancelled);
      var after := Restatused(cancelled, id, Writes(a, popupOpened)[0]);
      && (a != Cancel <==> after.records[id].status != Cancelled)
      && !Move(cancelled.records[id].status, after.records[id].status)
  {
  }

  /** Along any trace: only enumerated statuses, `printed` right after `printing`, nothing after a final status. */
  lemma TraceShape(t: seq<Status>)
    requires Trace(t)
    ensures forall i | 0 <= i < |t| :: InEnum(t[i])
    ensures forall i | 0 <= i < |t| && t[i] == Printed :: i > 0 && t[i - 1] == Printing
    ensures forall i | 0 <= i < |t| && (t[i] == Printed || t[i] == Cancelled) :: i == |t| - 1
  {
    forall i | 0 < i < |t|
      ensures InEnum(t[i])
    {
      assert Move(t[i - 1], t[i]);
    }
    forall i | 0 <= i < |t| - 1
      ensures t[i] != Printed && t[i] != Cancelled
    {
      assert Move(t[i], t[i + 1]);
    }
  }

  /** Counting the `printed` entries of a trace. */
  function PrintedCount(t: seq<Status>): (n: nat)
    ensures n <= |t|
  {
    if t == [] then 0 else (if t[0] == Printed then 1 else 0) + PrintedCount(t[1..])
  }

  /** A record is marked printed at most once, and then only as its last status. */
  lemma {:induction false} PrintedAtMostOnce(t: seq<Status>)
    requires Chain(t)
    ensures PrintedCount(t) <= 1
    ensures PrintedCount(t) == 1 ==> t[|t| - 1] == Printed
  {
    if |t| > 1 {
      PrintedAtMostOnce(t[1..]);
      assert Move(t[0], t[1]);
      assert t[1..][|t[1..]| - 1] == t[|t| - 1];
    }
  }

  // ---------------------------------------------------------------------------
  // Card details

  datatype Remaining = Expired | Minutes(n: int)

  /**
   * `getTimeRemaining`: whole minutes left, rounded down; 'Expired' when that is
   * zero or less. For a positive divisor Dafny's `/` rounds down like `Math.floor`.
   */
  function TimeRemaining(expiresAt: int, now: int): (r: Remaining)
    ensures r == Expired <==> expiresAt - now < 60000
    ensures r.Minutes? ==> 1 <= r.n && r.n * 60000 <= expiresAt - now < (r.n + 1) * 60000
  {
    var mins := (expiresAt - now) / 60000;
    if mins <= 0 then Expired else Minutes(mins)
  }

  /** A record the cleanup job would remove at `now` is already labelled 'Expired'. */
  lemma SweepableShowsExpired(records: map<Id, FileRecord>, id: Id, now: int)
    requires id in ExpiredIds(records, now)
    ensures TimeRemaining(records[id].expiresAt, now) == Expired
  {
  }

  /** Once 'Expired', a record stays 'Expired' as time goes on. */
  lemma ExpiredStaysExpired(expiresAt: int, now: int, later: int)
    requires now <= later && TimeRemaining(expiresAt, now) == Expired
    ensures TimeRemaining(expiresAt, later) == Expired
  {
  }

  /** A record read in the millisecond it was created shows 20 minutes. */
  lemma FreshRecordShowsTwentyMinutes(id: Id, doc: NewFile, now: int)
    ensures TimeRemaining(Create(id, doc, now, now).expiresAt, now) == Minutes(20)
  {
  }

  /** `getStatusColor` on the stored status string. */
  function StatusColor(status: string): (cls: string)
    ensures cls != "" <==> status in StatusNames
    ensures cls != "" ==> cls == "status-" + status
  {
    if status == "pending" then "status-pending"
    else if status == "printing" then "status-printing"
    else if status == "printed" then "status-printed"
    else if status == "cancelled" then "status-cancelled"
    else ""
  }

  /** Different enumerated statuses get different classes; only they get one. */
  lemma StatusColorsDistinct(st1: Status, st2: Status)
    ensures StatusColor(StatusName(st1)) != "" <==> InEnum(st1) || StatusName(st1) in StatusNames
    ensures InEnum(st1) && InEnum(st2) && st1 != st2 ==> StatusColor(StatusName(st1)) != StatusColor(StatusName(st2))
  {
    if InEnum(st1) && InEnum(st2) && st1 != st2 {
      assert StatusName(st1) != StatusName(st2);
      assert StatusColor(StatusName(st1))[7..] == StatusName(st1);
      assert StatusColor(StatusName(st2))[7..] == StatusName(st2);
    }
  }

  const NameLimit: int := 30

  /** The card title: names over 30 characters are cut to 30 and marked with "...". */
  function DisplayName(name: string): (shown: string)
    ensures |shown| <= NameLimit + 3
    ensures |name| <= NameLimit ==> shown == name
    ensures |name| > NameLimit ==> |shown| == NameLimit + 3 && shown[..NameLimit] == name[..NameLimit] && shown[NameLimit..] == "..."
  {
    if |name| > NameLimit then name[..NameLimit] + "..." else name
  }

  /** Showing a shown name again changes nothing. */
  lemma DisplayNameIdempotent(name: string)
    ensures DisplayName(DisplayName(name)) == DisplayName(name)
  {
    var shown := DisplayName(name);
    if |name| > NameLimit {
      assert shown[..NameLimit] + "..." == shown;
    }
  }

  // ---------------------------------------------------------------------------
  // Header counts

  /** How many listed records have status `st`. */
  function CountStatus(files: seq<FileRecord>, st: Status): (n: nat)
    ensures n <= |files|
  {
    if files == [] then 0
    else (if files[0].status == st then 1 else 0) + CountStatus(files[1..], st)
  }

  /** The pending and printing counts together never exceed the total shown. */
  lemma {:induction false} StatsWithinTotal(files: seq<FileRecord>)
    ensures CountStatus(files, Pending) + CountStatus(files, Printing) <= |files|
  {
    if files != [] {
      StatsWithinTotal(files[1..]);
    }
  }

  /** How many entries are true. */
  function CountTrue(bs: seq<bool>): (n: nat)
    ensures n <= |bs|
    ensures n == |bs| <==> forall i | 0 <= i < |bs| :: bs[i]
    ensures n == 0 <==> forall i | 0 <= i < |bs| :: !bs[i]
  {
    if bs == [] then 0
    else
      var rest := CountTrue(bs[1..]);
      assert forall i | 1 <= i < |bs| :: bs[i] == bs[1..][i - 1];
      (if bs[0] then 1 else 0) + rest
  }

  lemma CountTrueAppend(bs: seq<bool>, b: bool)
    ensures CountTrue(bs + [b]) == CountTrue(bs) + (if b then 1 else 0)
  {
    if bs != [] {
      assert (bs + [b])[1..] == bs[1..] + [b];
      CountTrueAppend(bs[1..], b);
    }
  }

  /** The fault, if any, met by the `i`-th delete of a bulk delete. */
  function FaultAt(faults: seq<DeleteFault>, i: nat): DeleteFault
  {
    if i < |faults| then faults[i] else NoFault
  }

  // ---------------------------------------------------------------------------
  // The component's state and handlers

  class Dashboard {
    var files: seq<FileRecord>
    var loading: bool

    constructor ()
      ensures files == [] && loading
    {
      files := [];
      loading := true;
    }

    /** `fetchFiles`: the listing replaces `files`, and loading ends. */
    method FetchFiles(store: FileStore)
      requires store.Valid()
      modifies this
      ensures NewestFirst(store.records, files) && !loading
    {
      files := GetAllFiles(store);
      loading := false;
    }

    /** `handleStatusUpdate`: store the status, then refresh; a 404 is only logged. */
    method HandleStatusUpdate(store: FileStore, id: Id, status: string)
      requires store.Valid()
      modifies this, store
      ensures store.Valid()
      ensures id in old(store.records) ==>
        && store.State() == Restatused(old(store.State()), id, ParseStatus(status))
        && NewestFirst(store.records, files) && !loading
      ensures id !in old(store.records) ==>
        store.State() == old(store.State()) && files == old(files) && loading == old(loading)
    {
      var res := UpdateFileStatus(store, id, status);
      if res.Success? {
        FetchFiles(store);
      }
    }

    /**
     * `handlePrintFile`: store `printing`, open the file; when the window is
     * blocked, store `pending` again. When the first update fails the catch
     * block's revert fails too, and its rejection skips the refresh.
     */
    method HandlePrintFile(store: FileStore, file: FileRecord, popupOpened: bool)
      requires store.Valid()
      modifies this, store
      ensures store.Valid()
      ensures file.id in old(store.records) ==>
        && store.State() == Restatused(old(store.State()), file.id, if popupOpened then Printing else Pending)
        && NewestFirst(store.records, files) && !loading
      ensures file.id !in old(store.records) ==>
        store.State() == old(store.State()) && files == old(files) && loading == old(loading)
    {
      var res := UpdateFileStatus(store, file.id, "printing");
      if res.Failure? {
        var revert := UpdateFileStatus(store, file.id, "pending");
        return;
      }
      if !popupOpened {
        ghost var s0 := old(store.State());
        var revert := UpdateFileStatus(store, file.id, "pending");
        assert Restatused(Restatused(s0, file.id, Printing), file.id, Pending) == Restatused(s0, file.id, Pending);
      }
      FetchFiles(store);
    }

    /** A click on one of the status buttons of `file`'s card. */
    method Click(store: FileStore, file: FileRecord, a: Action, popupOpened: bool)
      requires store.Valid() && a in Offered(file.status)
      modifies this, store
      ensures store.Valid()
      ensures file.id in old(store.records) ==>
        && store.State() == Restatused(old(store.State()), file.id, Last(Writes(a, popupOpened)))
        && NewestFirst(store.records, files)
      ensures file.id !in old(store.records) ==> store.State() == old(store.State()) && files == old(files)
      ensures file.id in old(store.records) && old(store.records)[file.id].status == file.status ==>
        Chain([old(store.records)[file.id].status] + Writes(a, popupOpened))
    {
      ClickChain(file.status, a, popupOpened);
      match a
      case StartPrint =>
        HandlePrintFile(store, file, popupOpened);
      case MarkPrinted =>
        HandleStatusUpdate(store, file.id, "printed");
      case Cancel =>
        HandleStatusUpdate(store, file.id, "cancelled");
    }

    /** `handleDelete`: after confirmation, delete and refresh; a failure is only logged. */
    method HandleDelete(store: FileStore, id: Id, confirmed: bool, fault: DeleteFault)
      requires store.Valid()
      modifies this, store
      ensures store.Valid()
      ensures !confirmed ==> store.State() == old(store.State()) && files == old(files) && loading == old(loading)
      ensures confirmed ==> store.State() == AfterDelete(old(store.State()), id, fault)
      ensures confirmed && DeleteSucceeds(old(store.State()), id, fault) ==> NewestFirst(store.records, files) && !loading
      ensures confirmed && !DeleteSucceeds(old(store.State()), id, fault) ==> files == old(files) && loading == old(loading)
    {
      if confirmed {
        var res := DeleteFile(store, id, fault);
        if res.Success? {
          FetchFiles(store);
        }
      }
    }

    /**
     * `handleDeleteAll`: after confirmation, list every record, delete each in
     * turn counting the deletes that succeed, then refresh. `faults` gives the
     * fault met by each delete; `listed` is the listing and `succeeded` which
     * of its deletes succeeded.
     */
    method HandleDeleteAll(store: FileStore, confirmed: bool, faults: seq<DeleteFault>)
      returns (deletedCount: nat, ghost listed: seq<FileRecord>, ghost succeeded: seq<bool>)
      requires store.Valid()
      modifies this, store
      ensures store.Valid()
      ensures !confirmed ==>
        deletedCount == 0 && store.State() == old(store.State()) && files == old(files) && loading == old(loading)
      ensures confirmed ==>
        && NewestFirst(old(store.records), listed)
        && store.State() == DeletedInTurn(old(store.State()), listed, faults)
        && DeletedEach(old(store.records), store.records, listed, faults, succeeded)
        && deletedCount == CountTrue(succeeded) <= |listed|
        && NewestFirst(store.records, files) && !loading
      ensures confirmed && (forall k | 0 <= k < |listed| :: FaultAt(faults, k) == NoFault) ==>
        && deletedCount == |old(store.records)|
        && store.State() == Snapshot(map[], old(store.blobs) - BlobNames(old(store.records), old(store.records).Keys))
    {
      deletedCount, listed, succeeded := 0, [], [];
      if !confirmed {
        return;
      }
      var listing := GetAllFiles(store);
      listed := listing;
      deletedCount, succeeded := DeleteEach(store, listing, faults);
      if forall k | 0 <= k < |listed| :: FaultAt(faults, k) == NoFault {
        DeleteAllEmpties(old(store.State()), listing, faults);
      }
      FetchFiles(store);
    }
  }

  /** The stores after deleting each of `listed` in turn, the `k`-th delete meeting `FaultAt(faults, k)`. */
  function DeletedInTurn(s: Snapshot, listed: seq<FileRecord>, faults: seq<DeleteFault>): Snapshot
    decreases |listed|
  {
    if listed == [] then s
    else
      var n := |listed| - 1;
      AfterDelete(DeletedInTurn(s, listed[..n], faults), listed[n].id, FaultAt(faults, n))
  }

  lemma DeletedInTurnStep(s: Snapshot, listed: seq<FileRecord>, faults: seq<DeleteFault>, i: nat)
    requires i < |listed|
    ensures DeletedInTurn(s, listed[..i + 1], faults) ==
      AfterDelete(DeletedInTurn(s, listed[..i], faults), listed[i].id, FaultAt(faults, i))
  {
    assert listed[..i + 1][..i] == listed[..i];
  }

  /**
   * Without faults, deleting each listed record in turn removes exactly the
   * listed records and their blobs, whatever the order.
   */
  lemma {:induction false} DeletedInTurnFaultFree(s: Snapshot, listed: seq<FileRecord>, faults: seq<DeleteFault>)
    requires forall k | 0 <= k < |listed| :: FaultAt(faults, k) == NoFault
    ensures DeletedInTurn(s, listed, faults) ==
      Snapshot(s.records - ListedIds(listed), s.blobs - BlobNames(s.records, ListedIds(listed)))
    decreases |listed|
  {
    if listed == [] {
      assert ListedIds(listed) == {};
      assert BlobNames(s.records, {}) == {};
    } else {
      var n := |listed| - 1;
      var init := listed[..n];
      var id := listed[n].id;
      assert listed == init + [listed[n]];
      assert ListedIds(listed) == ListedIds(init) + {id};
      DeletedInTurnFaultFree(s, init, faults);
      FaultFreeDeleteStep(s, ListedIds(init), id);
    }
  }

  /** A fault-free delete of one more id extends the removed set by that id. */
  lemma FaultFreeDeleteStep(s: Snapshot, ids: set<Id>, id: Id)
    ensures AfterDelete(Snapshot(s.records - ids, s.blobs - BlobNames(s.records, ids)), id, NoFault) ==
      Snapshot(s.records - (ids + {id}), s.blobs - BlobNames(s.records, ids + {id}))
  {
    if id in s.records && id !in ids {
      assert BlobNames(s.records, ids + {id}) == BlobNames(s.records, ids) + {s.records[id].filename};
    } else {
      assert BlobNames(s.records, ids + {id}) == BlobNames(s.records, ids);
    }
  }

  /**
   * Without faults, deleting a whole listing in turn empties the collection and
   * removes every record's blob; blobs that belong to no record stay.
   */
  lemma DeleteAllEmpties(s: Snapshot, listed: seq<FileRecord>, faults: seq<DeleteFault>)
    requires NewestFirst(s.records, listed)
    requires forall k | 0 <= k < |listed| :: FaultAt(faults, k) == NoFault
    ensures DeletedInTurn(s, listed, faults) == Snapshot(map[], s.blobs - BlobNames(s.records, s.records.Keys))
  {
    DeletedInTurnFaultFree(s, listed, faults);
    ListingCoversAll(s.records, listed);
    assert s.records - s.records.Keys == map[];
  }

  /**
   * Whatever the faults, deleting in turn adds nothing, changes no surviving
   * record, and removes only blobs of listed records.
   */
  lemma {:induction false} DeletedInTurnShrinks(s: Snapshot, listed: seq<FileRecord>, faults: seq<DeleteFault>)
    requires WellFormed(s)
    ensures WellFormed(DeletedInTurn(s, listed, faults))
    ensures DeletedInTurn(s, listed, faults).records.Keys <= s.records.Keys
    ensures forall id | id in DeletedInTurn(s, listed, faults).records :: DeletedInTurn(s, listed, faults).records[id] == s.records[id]
    ensures forall id | id in s.records && id !in ListedIds(listed) :: id in DeletedInTurn(s, listed, faults).records
    ensures DeletedInTurn(s, listed, faults).blobs <= s.blobs
    ensures s.blobs - DeletedInTurn(s, listed, faults).blobs <= BlobNames(s.records, ListedIds(listed))
    decreases |listed|
  {
    if listed != [] {
      var n := |listed| - 1;
      var init := listed[..n];
      assert listed == init + [listed[n]];
      assert ListedIds(listed) == ListedIds(init) + {listed[n].id};
      var id := listed[n].id;
      var t := DeletedInTurn(s, init, faults);
      var u := AfterDelete(t, id, FaultAt(faults, n));
      assert DeletedInTurn(s, listed, faults) == u;
      DeletedInTurnShrinks(s, init, faults);
      AfterDeleteShrinks(t, id, FaultAt(faults, n));
      forall b | b in s.blobs && b !in u.blobs
        ensures b in BlobNames(s.records, ListedIds(listed))
      {
        if b in t.blobs {
          assert id in t.records && b == t.records[id].filename;
          assert id in ListedIds(listed) && id in s.records && b == s.records[id].filename;
        } else {
          assert b in s.blobs - t.blobs;
          BlobNamesGrow(s.records, ListedIds(init), ListedIds(listed));
        }
      }
    }
  }

  lemma BlobNamesGrow(records: map<Id, FileRecord>, ids: set<Id>, more: set<Id>)
    requires ids <= more
    ensures BlobNames(records, ids) <= BlobNames(records, more)
  {
  }

  /**
   * The outcome of deleting each of `listed` in turn, from `before` to `after`:
   * `succeeded[k]` says whether the `k`-th delete succeeded, which is exactly
   * whether its record is gone; a fault-free delete succeeds, a failed lookup or
   * record removal does not; surviving records are untouched.
   */
  ghost predicate DeletedEach(before: map<Id, FileRecord>, after: map<Id, FileRecord>, listed: seq<FileRecord>,
                              faults: seq<DeleteFault>, succeeded: seq<bool>)
  {
    && |succeeded| == |listed|
    && (forall k | 0 <= k < |listed| :: succeeded[k] <==> listed[k].id !in after)
    && (forall k | 0 <= k < |listed| && FaultAt(faults, k) == NoFault :: succeeded[k])
    && (forall k | 0 <= k < |listed| && FaultAt(faults, k) in {LookupFails, RemoveFails} :: !succeeded[k])
    && (forall id | id in after :: id in before && after[id] == before[id])
  }

  /** One more delete of a listed record keeps `DeletedEach`. */
  lemma DeletedEachStep(before: map<Id, FileRecord>, mid: map<Id, FileRecord>, after: map<Id, FileRecord>,
                        listing: seq<FileRecord>, i: nat, faults: seq<DeleteFault>, succeeded: seq<bool>, success: bool)
    requires i < |listing| && DeletedEach(before, mid, listing[..i], faults, succeeded)
    requires forall j, k | 0 <= j < k < |listing| :: listing[j].id != listing[k].id
    requires forall k | i <= k < |listing| :: listing[k].id in mid
    requires success ==> after == mid - {listing[i].id}
    requires !success ==> after == mid
    requires FaultAt(faults, i) == NoFault ==> success
    requires FaultAt(faults, i) in {LookupFails, RemoveFails} ==> !success
    ensures DeletedEach(before, after, listing[..i + 1], faults, succeeded + [success])
    ensures forall k | i + 1 <= k < |listing| :: listing[k].id in after
  {
    assert forall k | 0 <= k < i :: listing[..i + 1][k] == listing[..i][k];
  }

  /** The loop of `handleDeleteAll`: one delete per listed record, counting the successes. */
  method DeleteEach(store: FileStore, listing: seq<FileRecord>, faults: seq<DeleteFault>)
    returns (deletedCount: nat, ghost succeeded: seq<bool>)
    requires store.Valid() && NewestFirst(store.records, listing)
    modifies store
    ensures store.Valid()
    ensures store.State() == DeletedInTurn(old(store.State()), listing, faults)
    ensures DeletedEach(old(store.records), store.records, listing, faults, succeeded)
    ensures deletedCount == CountTrue(succeeded) <= |listing|
  {
    deletedCount, succeeded := 0, [];
    ghost var before := store.records;
    ghost var s0 := store.State();
    for i := 0 to |listing|
      invariant store.Valid()
      invariant |succeeded| == i && deletedCount == CountTrue(succeeded)
      invariant store.State() == DeletedInTurn(s0, listing[..i], faults)
      invariant DeletedEach(before, store.records, listing[..i], faults, succeeded)
      invariant forall k | i <= k < |listing| :: listing[k].id in store.records
      invariant forall j, k | 0 <= j < k < |listing| :: listing[j].id != listing[k].id
    {
      ghost var mid := store.records;
      var res := DeleteFile(store, listing[i].id, FaultAt(faults, i));
      DeletedInTurnStep(s0, listing, faults, i);
      DeletedEachStep(before, mid, store.records, listing, i, faults, succeeded, res.Success?);
      CountTrueAppend(succeeded, res.Success?);
      succeeded := succeeded + [res.Success?];
      if res.Success? {
        deletedCount := deletedCount + 1;
      }
    }
    assert listing[..|listing|] == listing;
  }
}

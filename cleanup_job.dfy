/**
 * One run of the scheduled cleanup callback: find every record whose `expiresAt`
 * is strictly before now, then for each one unlink its blob if it exists and
 * remove the record. A throw anywhere is caught and logged, and ends the pass.
 */
module CleanupJob {
  import opened FileModel
  import opened Stores

  /** Where a pass can throw: the query, or the unlink or record removal of the `at`-th record. */
  datatype SweepFault = NoFault | FindFails | UnlinkFails(at: nat) | RemoveFails(at: nat)

  /** A pass either completes, logging how many expired records it found, or is cut short. */
  datatype SweepOutcome = Completed(removedCount: nat) | Aborted

  lemma BlobNamesAdd(records: map<Id, FileRecord>, ids: set<Id>, id: Id)
    requires id in records
    ensures BlobNames(records, ids + {id}) == BlobNames(records, ids) + {records[id].filename}
  {
  }

  /** The ids a processing order has handled. */
  function Elements(order: seq<Id>): set<Id>
  {
    set x | x in order
  }

  lemma ElementsAppend(order: seq<Id>, id: Id)
    ensures Elements(order + [id]) == Elements(order) + {id}
  {
  }

  /** The state after removing the records in `removed` and unlinking the blobs of those in `unlinked`. */
  function Handled(s0: Snapshot, removed: set<Id>, unlinked: set<Id>): Snapshot
  {
    Snapshot(s0.records - removed, s0.blobs - BlobNames(s0.records, unlinked))
  }

  /** Unlinking one more fetched record's blob, and then removing that record. */
  lemma HandledStep(s0: Snapshot, removed: set<Id>, unlinked: set<Id>, id: Id)
    requires id in s0.records
    ensures Handled(s0, removed, unlinked).blobs - {s0.records[id].filename} == Handled(s0, removed, unlinked + {id}).blobs
    ensures Handled(s0, removed, unlinked).records - {id} == Handled(s0, removed + {id}, unlinked).records
  {
    BlobNamesAdd(s0.records, unlinked, id);
  }

  /** Removing records and blobs never breaks well-formedness. */
  lemma HandledWellFormed(s0: Snapshot, removed: set<Id>, unlinked: set<Id>)
    requires WellFormed(s0)
    ensures WellFormed(Handled(s0, removed, unlinked))
  {
  }

  /** The unlink of the `at`-th found record runs, and so can throw: that record's blob is on disk. */
  predicate UnlinkRuns(s0: Snapshot, order: seq<Id>, at: nat)
  {
    at < |order| && order[at] in s0.records && s0.records[order[at]].filename in s0.blobs
  }

  /** Whether `fault` cuts a pass over `order`, started in `s0`, short. */
  predicate CutShort(s0: Snapshot, order: seq<Id>, fault: SweepFault)
  {
    match fault
    case NoFault => false
    case FindFails => true
    case UnlinkFails(at) => UnlinkRuns(s0, order, at)
    case RemoveFails(at) => at < |order|
  }

  /**
   * When the pass reaches the `i`-th found record, that record's blob is on disk
   * exactly when it was at the start: no earlier record shares its blob name.
   */
  lemma BlobUntouchedBefore(s0: Snapshot, order: seq<Id>, i: nat)
    requires WellFormed(s0) && i < |order| && order[i] in s0.records
    requires forall j, k | 0 <= j < k < |order| :: order[j] != order[k]
    ensures s0.records[order[i]].filename in Handled(s0, Elements(order[..i]), Elements(order[..i])).blobs
        <==> s0.records[order[i]].filename in s0.blobs
  {
    var name := s0.records[order[i]].filename;
    forall id | id in Elements(order[..i]) && id in s0.records
      ensures s0.records[id].filename != name
    {
      var j :| 0 <= j < i && order[..i][j] == id;
      assert order[j] != order[i];
    }
  }

  /** How handling one fetched record ended. */
  datatype StepOutcome = Removed | UnlinkThrew | RemoveThrew

  /**
   * The loop body for one fetched record `doc`: unlink its blob if the file
   * exists, then delete the record by id (a no-op once it is gone).
   * `unlinkThrows` and `removeThrows` say whether that step throws.
   */
  method DestroyExpired(store: FileStore, doc: FileRecord, unlinkThrows: bool, removeThrows: bool) returns (step: StepOutcome)
    modifies store
    ensures step == UnlinkThrew <==> unlinkThrows && doc.filename in old(store.blobs)
    ensures step == Removed <==> !(unlinkThrows && doc.filename in old(store.blobs)) && !removeThrows
    ensures step == UnlinkThrew ==> store.State() == old(store.State())
    ensures step == RemoveThrew ==> store.State() == Snapshot(old(store.records), old(store.blobs) - {doc.filename})
    ensures step == Removed ==> store.State() == Snapshot(old(store.records) - {doc.id}, old(store.blobs) - {doc.filename})
  {
    if doc.filename in store.blobs {
      if unlinkThrows {
        return UnlinkThrew;
      }
      store.blobs := store.blobs - {doc.filename};
    }
    if removeThrows {
      return RemoveThrew;
    }
    store.records := store.records - {doc.id};
    step := Removed;
  }

  /**
   * The `i`-th turn of the loop over `order`, on the state the earlier turns
   * left: `doc` is the record as the query fetched it, and the pass's `fault`
   * says whether this turn's unlink or removal throws.
   */
  method SweepStep(store: FileStore, ghost s0: Snapshot, order: seq<Id>, i: nat, doc: FileRecord, fault: SweepFault)
    returns (step: StepOutcome)
    requires WellFormed(s0) && i < |order| && order[i] in s0.records && doc == s0.records[order[i]]
    requires forall j, k | 0 <= j < k < |order| :: order[j] != order[k]
    requires store.State() == Handled(s0, Elements(order[..i]), Elements(order[..i]))
    modifies store
    ensures WellFormed(store.State())
    ensures step == UnlinkThrew <==> fault == UnlinkFails(i) && UnlinkRuns(s0, order, i)
    ensures step == RemoveThrew <==> fault == RemoveFails(i)
    ensures step == UnlinkThrew ==> store.State() == old(store.State())
    ensures step == RemoveThrew ==> store.State() == Handled(s0, Elements(order[..i]), Elements(order[..i + 1]))
    ensures step == Removed ==> store.State() == Handled(s0, Elements(order[..i + 1]), Elements(order[..i + 1]))
  {
    var id := order[i];
    assert order[..i + 1] == order[..i] + [id];
    ElementsAppend(order[..i], id);
    HandledStep(s0, Elements(order[..i]), Elements(order[..i]), id);
    HandledStep(s0, Elements(order[..i]), Elements(order[..i + 1]), id);
    HandledWellFormed(s0, Elements(order[..i]), Elements(order[..i]));
    HandledWellFormed(s0, Elements(order[..i]), Elements(order[..i + 1]));
    HandledWellFormed(s0, Elements(order[..i + 1]), Elements(order[..i + 1]));
    BlobUntouchedBefore(s0, order, i);
    step := DestroyExpired(store, doc, fault == UnlinkFails(i), fault == RemoveFails(i));
  }

  /**
   * The callback body, run at time `now`. The query returns the expired
   * records in an order the database chooses, given here as `order`.
   * `handled` counts the records the pass got through.
   */
  method Sweep(store: FileStore, now: int, order: seq<Id>, fault: SweepFault)
    returns (outcome: SweepOutcome, ghost handled: nat)
    requires store.Valid()
    requires Elements(order) == ExpiredIds(store.records, now)
    requires forall j, k | 0 <= j < k < |order| :: order[j] != order[k]
    modifies store
    ensures store.Valid()
    ensures handled <= |order|
    ensures outcome.Aborted? <==> CutShort(old(store.State()), order, fault)
    ensures fault == NoFault ==> outcome.Completed?
    ensures outcome.Completed? ==>
      && outcome.removedCount == |order|
      && store.State() == DestroyedAll(old(store.State()), order)
      && store.State() == Swept(old(store.State()), now)
    ensures fault == FindFails ==> outcome == Aborted && store.State() == old(store.State())
    ensures outcome.Aborted? && fault.UnlinkFails? ==>
      && handled == fault.at
      && store.State() == Handled(old(store.State()), Elements(order[..handled]), Elements(order[..handled]))
    ensures outcome.Aborted? && fault.RemoveFails? ==>
      && handled == fault.at < |order|
      && store.State() == Handled(old(store.State()), Elements(order[..handled]), Elements(order[..handled + 1]))
    ensures outcome.Completed? && BlobsPresent(old(store.State())) ==> BlobsPresent(store.State())
  {
    ghost var s0 := store.State();
    handled := 0;
    if fault == FindFails {
      return Aborted, handled;
    }
    var records := store.records;
    var docs := seq(|order|, k requires 0 <= k < |order| => records[order[k]]);
    var i := 0;
    while i < |docs|
      invariant 0 <= i <= |docs| && handled == i
      invariant store.State() == Handled(s0, Elements(order[..i]), Elements(order[..i]))
      invariant WellFormed(store.State())
      invariant !(fault.RemoveFails? && fault.at < i)
      invariant !(fault.UnlinkFails? && fault.at < i && UnlinkRuns(s0, order, fault.at))
    {
      var step := SweepStep(store, s0, order, i, docs[i], fault);
      if step != Removed {
        return Aborted, handled;
      }
      i := i + 1;
      handled := i;
    }
    assert order[..i] == order;
    DestroyedAllRemoves(s0, order);
    SweptKeepsInvariants(s0, now);
    outcome := Completed(|docs|);
  }
}

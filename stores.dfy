/**
 * The two stores every upload lives in: the `File` collection (records by id)
 * and the `uploads/` directory (blob names). `Snapshot` is their value; the
 * functions below say what each lifecycle step does to it, and `FileStore` is
 * the shared mutable pair the handlers and the cleanup job update in place.
 */
module Stores {
  import opened FileModel

  datatype Snapshot = Snapshot(records: map<Id, FileRecord>, blobs: set<string>)

  /** What `save` guaranteed of a record and a status update cannot undo. */
  predicate Saved(r: FileRecord)
  {
    r.filename != "" && r.originalName != "" && MinCopies <= r.printCopies <= MaxCopies
  }

  /**
   * Every record is filed under its own id and was validated when saved, and no
   * two records share a blob name (each name carries a fresh identifier).
   */
  ghost predicate WellFormed(s: Snapshot)
  {
    && (forall id | id in s.records :: s.records[id].id == id && Saved(s.records[id]))
    && (forall a, b | a in s.records && b in s.records && a != b :: s.records[a].filename != s.records[b].filename)
  }

  /** Every record's blob is in the upload directory. Fault-free steps keep this. */
  ghost predicate BlobsPresent(s: Snapshot)
  {
    forall id | id in s.records :: s.records[id].filename in s.blobs
  }

  /** The blob names of those of `ids` that have a record. */
  function BlobNames(records: map<Id, FileRecord>, ids: set<Id>): set<string>
  {
    set id | id in ids && id in records :: records[id].filename
  }

  /** A new record filed under its id; the blob is already on disk. */
  function Inserted(s: Snapshot, r: FileRecord): Snapshot
  {
    Snapshot(s.records[r.id := r], s.blobs)
  }

  /** A status overwrite: only `status` of that one record changes. */
  function Restatused(s: Snapshot, id: Id, st: Status): Snapshot
    requires id in s.records
  {
    Snapshot(s.records[id := s.records[id].(status := st)], s.blobs)
  }

  /** Destroying a found record: its blob goes if present, then the record. */
  function Destroyed(s: Snapshot, id: Id): Snapshot
    requires id in s.records
  {
    Snapshot(s.records - {id}, s.blobs - {s.records[id].filename})
  }

  /** Destroying ids one after the other; an id with no record is a not-found and changes nothing. */
  function DestroyedAll(s: Snapshot, ids: seq<Id>): Snapshot
    decreases |ids|
  {
    if ids == [] then s
    else DestroyedAll(if ids[0] in s.records then Destroyed(s, ids[0]) else s, ids[1..])
  }

  /** The records a sweep at `now` finds: `expiresAt` strictly before `now`. */
  function ExpiredIds(records: map<Id, FileRecord>, now: int): (ids: set<Id>)
    ensures forall id :: id in ids <==> id in records && records[id].expiresAt < now
  {
    set id | id in records && records[id].expiresAt < now
  }

  /** A completed sweep pass: every expired record and its blob are gone. */
  function Swept(s: Snapshot, now: int): Snapshot
  {
    var expired := ExpiredIds(s.records, now);
    Snapshot(s.records - expired, s.blobs - BlobNames(s.records, expired))
  }

  // ---------------------------------------------------------------------------
  // What a destroy does and does not touch

  /** Destroying one record leaves every other record and every other blob as it was. */
  lemma DestroyedIsLocal(s: Snapshot, id: Id)
    requires id in s.records
    ensures id !in Destroyed(s, id).records
    ensures s.records[id].filename !in Destroyed(s, id).blobs
    ensures forall other | other != id :: (other in Destroyed(s, id).records <==> other in s.records)
    ensures forall other | other != id && other in s.records :: Destroyed(s, id).records[other] == s.records[other]
    ensures forall b | b != s.records[id].filename :: (b in Destroyed(s, id).blobs <==> b in s.blobs)
  {
  }

  lemma DestroyedKeepsInvariants(s: Snapshot, id: Id)
    requires id in s.records && WellFormed(s)
    ensures WellFormed(Destroyed(s, id))
    ensures BlobsPresent(s) ==> BlobsPresent(Destroyed(s, id))
  {
  }

  lemma RestatusedKeepsInvariants(s: Snapshot, id: Id, st: Status)
    requires id in s.records && WellFormed(s)
    ensures WellFormed(Restatused(s, id, st))
    ensures BlobsPresent(s) ==> BlobsPresent(Restatused(s, id, st))
  {
  }

  /** A status overwrite changes the status of one record and nothing else, `expiresAt` included. */
  lemma RestatusedIsLocal(s: Snapshot, id: Id, st: Status)
    requires id in s.records
    ensures Restatused(s, id, st).records.Keys == s.records.Keys
    ensures Restatused(s, id, st).records[id].status == st
    ensures Restatused(s, id, st).records[id].expiresAt == s.records[id].expiresAt
    ensures Restatused(s, id, st).records[id].(status := s.records[id].status) == s.records[id]
    ensures forall other | other in s.records && other != id :: Restatused(s, id, st).records[other] == s.records[other]
    ensures Restatused(s, id, st).blobs == s.blobs
  {
  }

  lemma InsertedKeepsInvariants(s: Snapshot, r: FileRecord)
    requires WellFormed(s) && r.id !in s.records && Saved(r)
    requires forall id | id in s.records :: s.records[id].filename != r.filename
    ensures WellFormed(Inserted(s, r))
    ensures BlobsPresent(s) && r.filename in s.blobs ==> BlobsPresent(Inserted(s, r))
  {
  }

  // ---------------------------------------------------------------------------
  // The sweep

  /** One completed pass removes exactly the expired records, their blobs, and nothing else. */
  lemma SweptIsExact(s: Snapshot, now: int)
    requires WellFormed(s)
    ensures forall id :: id in Swept(s, now).records <==> id in s.records && s.records[id].expiresAt >= now
    ensures forall id | id in Swept(s, now).records :: Swept(s, now).records[id] == s.records[id]
    ensures forall id | id in s.records && s.records[id].expiresAt < now :: s.records[id].filename !in Swept(s, now).blobs
    ensures forall id | id in s.records && s.records[id].expiresAt >= now ::
      (s.records[id].filename in Swept(s, now).blobs <==> s.records[id].filename in s.blobs)
    ensures forall b | b in s.blobs && b !in BlobNames(s.records, s.records.Keys) :: b in Swept(s, now).blobs
  {
  }

  lemma SweptKeepsInvariants(s: Snapshot, now: int)
    requires WellFormed(s)
    ensures WellFormed(Swept(s, now))
    ensures BlobsPresent(s) ==> BlobsPresent(Swept(s, now))
  {
    SweptIsExact(s, now);
  }

  /** A later sweep subsumes an earlier one; with equal times this is idempotence. */
  lemma SweepsCompose(s: Snapshot, earlier: int, later: int)
    requires earlier <= later
    ensures Swept(Swept(s, earlier), later) == Swept(s, later)
  {
    var s1 := Swept(s, earlier);
    var e0 := ExpiredIds(s.records, earlier);
    var e1 := ExpiredIds(s1.records, later);
    var e2 := ExpiredIds(s.records, later);
    assert e1 == e2 - e0;
    assert s1.records - e1 == s.records - e2;
    assert BlobNames(s.records, e0) + BlobNames(s1.records, e1) == BlobNames(s.records, e2);
  }

  /** Running a sweep twice at the same time leaves the state of running it once. */
  lemma SweepIdempotent(s: Snapshot, now: int)
    ensures Swept(Swept(s, now), now) == Swept(s, now)
  {
    SweepsCompose(s, now, now);
  }

  /** Destroying a sequence of ids removes exactly those records and their blobs. */
  lemma {:induction false} DestroyedAllRemoves(s: Snapshot, ids: seq<Id>)
    ensures DestroyedAll(s, ids) ==
      Snapshot(s.records - (set x | x in ids), s.blobs - BlobNames(s.records, set x | x in ids))
    decreases |ids|
  {
    if ids == [] {
      assert (set x | x in ids) == {};
      assert s.records - {} == s.records;
      assert BlobNames(s.records, {}) == {};
    } else {
      var h := ids[0];
      var rest := set x | x in ids[1..];
      var all := set x | x in ids;
      assert all == {h} + rest;
      var s1 := if h in s.records then Destroyed(s, h) else s;
      DestroyedAllRemoves(s1, ids[1..]);
      assert s1.records - rest == s.records - all;
      if h in s.records {
        assert BlobNames(s1.records, rest) == BlobNames(s.records, rest - {h});
        assert BlobNames(s.records, all) == {s.records[h].filename} + BlobNames(s.records, rest - {h});
      } else {
        assert BlobNames(s.records, all) == BlobNames(s.records, rest);
      }
    }
  }

  /**
   * A completed sweep is the same as destroying each expired record in turn,
   * in whatever order the store returned them.
   */
  lemma SweepIsDestroyEach(s: Snapshot, now: int, order: seq<Id>)
    requires (set x | x in order) == ExpiredIds(s.records, now)
    ensures DestroyedAll(s, order) == Swept(s, now)
  {
    DestroyedAllRemoves(s, order);
  }

  /** The record collection and the upload directory, shared by the handlers and the cleanup job. */
  class FileStore {
    var records: map<Id, FileRecord>
    var blobs: set<string>

    function State(): Snapshot
      reads this
    {
      Snapshot(records, blobs)
    }

    ghost predicate Valid()
      reads this
    {
      WellFormed(State())
    }

    constructor ()
      ensures Valid() && State() == Snapshot(map[], {})
    {
      records := map[];
      blobs := {};
    }
  }
}

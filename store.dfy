/**
 * The reconciliation transaction over the `countries` and `metadata` tables:
 * read the existing names, split the batch, bulk-insert, update row by row,
 * upsert the refresh marker and commit, rolling everything back when any of
 * these database calls throws.
 */
module Store {
  import opened Wrappers
  import opened Text
  import opened Records
  import opened Reconcile

  /** The metadata key of the refresh marker. */
  const LAST_REFRESHED_AT: string := "last_refreshed_at"

  /**
   * The number of database calls a transaction issues for a batch: the read of
   * the existing rows, the bulk insert when there is something to insert, one
   * update per matched record, the marker upsert and the commit.
   */
  function TransactionCalls(records: seq<Record>, index: map<string, Id>): (calls: nat)
    ensures 3 <= calls <= |records| + 4
    ensures |ToInsert(records, index)| == 0 ==> calls == |records| + 3
  {
    PartitionSizes(records, index);
    3 + (if |ToInsert(records, index)| > 0 then 1 else 0) + |ToUpdate(records, index)|
  }

  /** Some call among the first `calls` throws, `fault` being the position of the first failing call. */
  predicate FaultHits(fault: Option<nat>, calls: nat)
  {
    fault.Some? && fault.value < calls
  }

  /** The database call at position `call` is the one that throws. */
  predicate FailsAt(fault: Option<nat>, call: nat)
  {
    fault.Some? && fault.value == call
  }

  /** `new Map(existingCountries.map(c => [c.name.toLowerCase(), c.id]))`. */
  method BuildNameIndex(rows: Table, listing: seq<Id>) returns (index: map<string, Id>)
    requires Listed(rows, listing)
    ensures index == NameIndex(rows, listing)
  {
    index := map[];
    var i := 0;
    while i < |listing|
      invariant 0 <= i <= |listing|
      invariant index == NameIndex(rows, listing[..i])
    {
      var id := listing[i];
      assert listing[..i + 1][..i] == listing[..i];
      index := index[Lower(rows[id].name) := id];
      i := i + 1;
    }
    assert listing[..|listing|] == listing;
  }

  /** The `for (const rec of records)` loop that fills `toUpdate` and `toInsert`. */
  method Partition(records: seq<Record>, index: map<string, Id>) returns (toUpdate: seq<(Id, Record)>, toInsert: seq<Record>)
    ensures toUpdate == ToUpdate(records, index)
    ensures toInsert == ToInsert(records, index)
  {
    toUpdate, toInsert := [], [];
    var i := 0;
    while i < |records|
      invariant 0 <= i <= |records|
      invariant toUpdate == ToUpdate(records[..i], index)
      invariant toInsert == ToInsert(records[..i], index)
    {
      var rec := records[i];
      assert records[..i + 1][..i] == records[..i];
      var key := Lower(rec.name);
      if key in index {
        toUpdate := toUpdate + [(index[key], rec)];
      } else {
        toInsert := toInsert + [rec];
      }
      i := i + 1;
    }
    assert records[..|records|] == records;
  }

  /**
   * The loop over `toUpdate` of awaited updates, each record written to the
   * row of its `rec.id`, the first of them being database call number
   * `start`. `ok` is false when one of them throws, which ends the loop.
   */
  method UpdateEach(base: Table, upd: seq<(Id, Record)>, fault: Option<nat>, start: nat)
    returns (work: Table, ok: bool)
    ensures ok <==> !(fault.Some? && start <= fault.value < start + |upd|)
    ensures ok ==> work == ApplyUpdates(base, upd)
  {
    work := base;
    var k := 0;
    while k < |upd|
      invariant 0 <= k <= |upd|
      invariant !(fault.Some? && start <= fault.value < start + k)
      invariant work == ApplyUpdates(base, upd[..k])
    {
      if FailsAt(fault, start + k) {
        return work, false;
      }
      var (id, rec) := upd[k];
      assert upd[..k + 1] == upd[..k] + [(id, rec)];
      ApplyUpdatesSnoc(base, upd[..k], id, rec);
      if id in work {
        work := work[id := rec];
      }
      k := k + 1;
    }
    assert upd[..|upd|] == upd;
    ok := true;
  }

  /** The `countries` rows and the `metadata` entries of the database. */
  class CountryStore {
    var rows: Table
    var meta: map<string, string>

    constructor (rows0: Table, meta0: map<string, string>)
      ensures rows == rows0 && meta == meta0
    {
      rows := rows0;
      meta := meta0;
    }

    /**
     * Lines 92-136 of the refresh: one transaction. `listing` is the order in
     * which the read returns the rows, `newIds` the ids the bulk insert hands
     * out, and `fault` the position of the first database call that throws.
     * Either every write survives, or none does.
     */
    method Reconcile(records: seq<Record>, now: Timestamp, listing: seq<Id>, newIds: seq<Id>, fault: Option<nat>)
      returns (committed: bool)
      requires ListsTable(rows, listing) && |records| <= |newIds| && FreshIds(newIds, rows)
      modifies this
      ensures committed <==> !FaultHits(fault, TransactionCalls(records, NameIndex(old(rows), listing)))
      ensures !committed ==> rows == old(rows) && meta == old(meta)
      ensures committed ==> rows == Reconciled(old(rows), records, listing, newIds)
      ensures committed ==> meta == old(meta)[LAST_REFRESHED_AT := now]
    {
      // The writes go to a working copy that the commit publishes; a throw
      // before the commit leaves the fields as they were.
      var work := rows;
      var call: nat := 0;
      // Country.findAll
      if FailsAt(fault, call) {
        return false;
      }
      call := call + 1;
      var index := BuildNameIndex(work, listing);
      var toUpdate, toInsert := Partition(records, index);
      PartitionSizes(records, index);
      // Country.bulkCreate
      if |toInsert| > 0 {
        if FailsAt(fault, call) {
          return false;
        }
        call := call + 1;
      }
      work := InsertAll(work, toInsert, newIds);
      var inserted := work;
      // Country.update, one record at a time
      var updated, ok := UpdateEach(work, toUpdate, fault, call);
      if !ok {
        return false;
      }
      work := updated;
      call := call + |toUpdate|;
      // Metadata.upsert
      if FailsAt(fault, call) {
        return false;
      }
      var marked := meta[LAST_REFRESHED_AT := now];
      call := call + 1;
      // transaction.commit
      if FailsAt(fault, call) {
        return false;
      }
      rows, meta := work, marked;
      committed := true;
    }
  }
}

/**
 * What one reconciliation does to the `countries` table, as functions of the
 * table before it: the case-folded name index built from the existing rows,
 * the split of the derived records into inserts and updates, the bulk insert
 * and the per-id updates. The imperative transaction in module Store is
 * proved against these.
 */
module Reconcile {
  import opened Text
  import opened Records

  /** The primary key of a row (a UUID in the table). */
  type Id = string

  /** The `countries` table: each row under its primary key. */
  type Table = map<Id, Record>

  /** Every entry of `listing` is a row of the table. */
  predicate Listed(rows: Table, listing: seq<Id>)
  {
    forall i :: 0 <= i < |listing| ==> listing[i] in rows
  }

  /** `listing` is an order in which `findAll` can return the table: every row, nothing else. */
  predicate ListsTable(rows: Table, listing: seq<Id>)
  {
    Listed(rows, listing) && forall id :: id in rows ==> id in listing
  }

  /**
   * `existingMap`: case-folded name to id, filled in listing order, so a later
   * row with the same folded name replaces an earlier one.
   */
  function NameIndex(rows: Table, listing: seq<Id>): (index: map<string, Id>)
    requires Listed(rows, listing)
    ensures forall key :: key in index ==> index[key] in rows && Lower(rows[index[key]].name) == key
    ensures forall i :: 0 <= i < |listing| ==> Lower(rows[listing[i]].name) in index
  {
    if listing == [] then map[]
    else
      var id := listing[|listing| - 1];
      NameIndex(rows, listing[..|listing| - 1])[Lower(rows[id].name) := id]
  }

  /** Among listed rows sharing a folded name, the index keeps the last one. */
  lemma {:induction false} NameIndexLastWins(rows: Table, listing: seq<Id>, i: nat)
    requires Listed(rows, listing) && i < |listing|
    requires forall j :: i < j < |listing| ==> Lower(rows[listing[j]].name) != Lower(rows[listing[i]].name)
    ensures NameIndex(rows, listing)[Lower(rows[listing[i]].name)] == listing[i]
  {
    var n := |listing|;
    var key := Lower(rows[listing[i]].name);
    if i < n - 1 {
      var pre := listing[..n - 1];
      assert NameIndex(rows, pre)[key] == listing[i] by {
        assert pre[i] == listing[i];
        NameIndexLastWins(rows, pre, i);
      }
      assert Lower(rows[listing[n - 1]].name) != key;
    }
  }

  /** A name matches the index exactly when some existing row has the same folded name. */
  lemma NameIndexMatchesExisting(rows: Table, listing: seq<Id>, name: string)
    requires ListsTable(rows, listing)
    ensures Lower(name) in NameIndex(rows, listing) <==>
      exists id :: id in rows && Lower(rows[id].name) == Lower(name)
  {
    var index := NameIndex(rows, listing);
    if Lower(name) in index {
      assert index[Lower(name)] in rows;
    }
    if id :| id in rows && Lower(rows[id].name) == Lower(name) {
      var i :| 0 <= i < |listing| && listing[i] == id;
      assert Lower(rows[listing[i]].name) in index;
    }
  }

  /** Each id of the index belongs to exactly one folded name. */
  predicate Injective(index: map<string, Id>)
  {
    forall k1, k2 {:trigger index[k1], index[k2]} :: k1 in index && k2 in index && index[k1] == index[k2] ==> k1 == k2
  }

  lemma NameIndexInjective(rows: Table, listing: seq<Id>)
    requires Listed(rows, listing)
    ensures Injective(NameIndex(rows, listing))
  {
  }

  /** `toInsert`: the records whose folded name has no existing row, in batch order. */
  function ToInsert(records: seq<Record>, index: map<string, Id>): (ins: seq<Record>)
    ensures |ins| <= |records|
    ensures forall k :: 0 <= k < |ins| ==> ins[k] in records && Lower(ins[k].name) !in index
  {
    if records == [] then []
    else
      var last := records[|records| - 1];
      ToInsert(records[..|records| - 1], index) + (if Lower(last.name) in index then [] else [last])
  }

  /** `toUpdate`: the matched records, in batch order, each with the id it takes (`rec.id`). */
  function ToUpdate(records: seq<Record>, index: map<string, Id>): (upd: seq<(Id, Record)>)
    ensures |upd| <= |records|
    ensures forall k :: 0 <= k < |upd| ==>
      upd[k].1 in records && Lower(upd[k].1.name) in index && upd[k].0 == index[Lower(upd[k].1.name)]
  {
    if records == [] then []
    else
      var last := records[|records| - 1];
      ToUpdate(records[..|records| - 1], index)
      + (if Lower(last.name) in index then [(index[Lower(last.name)], last)] else [])
  }

  /** Every record lands in exactly one of the two lists. */
  lemma {:induction false} PartitionSizes(records: seq<Record>, index: map<string, Id>)
    ensures |ToInsert(records, index)| + |ToUpdate(records, index)| == |records|
  {
    if records != [] {
      PartitionSizes(records[..|records| - 1], index);
    }
  }

  /** Concatenation is associative (stated apart, on plain sequences, to keep the callers' proofs small). */
  lemma ConcatAssoc<T>(p: seq<T>, q: seq<T>, r: seq<T>)
    ensures (p + q) + r == p + (q + r)
  {
  }

  /** One more record on the end of the batch adds it to `toInsert` when unmatched. */
  lemma ToInsertSnoc(s: seq<Record>, x: Record, index: map<string, Id>)
    ensures ToInsert(s + [x], index) == ToInsert(s, index) + (if Lower(x.name) in index then [] else [x])
  {
    assert (s + [x])[..|s|] == s;
  }

  /** `toInsert` keeps batch order: splitting the batch splits the list the same way. */
  lemma {:induction false} ToInsertAppend(a: seq<Record>, b: seq<Record>, index: map<string, Id>)
    ensures ToInsert(a + b, index) == ToInsert(a, index) + ToInsert(b, index)
    decreases |b|
  {
    if b == [] {
      assert a + b == a;
    } else {
      var b', x := b[..|b| - 1], b[|b| - 1];
      var tail := if Lower(x.name) in index then [] else [x];
      var p, q := ToInsert(a, index), ToInsert(b', index);
      assert ToInsert(a + b, index) == ToInsert(a + b', index) + tail by {
        assert a + b == (a + b') + [x];
        ToInsertSnoc(a + b', x, index);
      }
      assert ToInsert(b, index) == q + tail by {
        assert b == b' + [x];
        ToInsertSnoc(b', x, index);
      }
      assert ToInsert(a + b', index) == p + q by {
        ToInsertAppend(a, b', index);
      }
      ConcatAssoc(p, q, tail);
    }
  }

  /** `toUpdate` keeps batch order: splitting the batch splits the list the same way. */
  lemma {:induction false} ToUpdateAppend(a: seq<Record>, b: seq<Record>, index: map<string, Id>)
    ensures ToUpdate(a + b, index) == ToUpdate(a, index) + ToUpdate(b, index)
    decreases |b|
  {
    if b == [] {
      assert a + b == a;
    } else {
      var n := |b|;
      var b', x := b[..n - 1], b[n - 1];
      var tail := if Lower(x.name) in index then [(index[Lower(x.name)], x)] else [];
      assert ToUpdate(a + b, index) == ToUpdate(a + b', index) + tail by {
        assert (a + b)[..|a + b| - 1] == a + b';
        assert (a + b)[|a + b| - 1] == x;
      }
      assert ToUpdate(b, index) == ToUpdate(b', index) + tail;
      ToUpdateAppend(a, b', index);
      var p, q := ToUpdate(a, index), ToUpdate(b', index);
      ConcatAssoc(p, q, tail);
    }
  }

  /** A record goes to `toUpdate`, with the matched id, exactly when its folded name is indexed. */
  lemma PartitionPlaces(records: seq<Record>, index: map<string, Id>, i: nat)
    requires i < |records|
    ensures var r := records[i];
      && (Lower(r.name) in index ==> (index[Lower(r.name)], r) in ToUpdate(records, index))
      && (Lower(r.name) !in index ==> r in ToInsert(records, index))
  {
    assert records == records[..i] + [records[i]] + records[i + 1..];
    ToInsertAppend(records[..i] + [records[i]], records[i + 1..], index);
    ToInsertAppend(records[..i], [records[i]], index);
    ToUpdateAppend(records[..i] + [records[i]], records[i + 1..], index);
    ToUpdateAppend(records[..i], [records[i]], index);
    assert ToInsert([records[i]], index) == ToInsert([], index) + (if Lower(records[i].name) in index then [] else [records[i]]);
  }

  /** With no batch name indexed, `toInsert` is the whole batch. */
  lemma {:induction false} UnmatchedToInsert(records: seq<Record>, index: map<string, Id>)
    requires forall i :: 0 <= i < |records| ==> Lower(records[i].name) !in index
    ensures ToInsert(records, index) == records
  {
    if records != [] {
      var pre := records[..|records| - 1];
      var last := records[|records| - 1];
      assert ToInsert(pre, index) == pre by {
        assert forall i :: 0 <= i < |pre| ==> pre[i] == records[i];
        UnmatchedToInsert(pre, index);
      }
      assert records == pre + [last];
      ToInsertSnoc(pre, last, index);
    }
  }

  /** With no batch name indexed, `toUpdate` is empty. */
  lemma {:induction false} UnmatchedToUpdate(records: seq<Record>, index: map<string, Id>)
    requires forall i :: 0 <= i < |records| ==> Lower(records[i].name) !in index
    ensures ToUpdate(records, index) == []
  {
    if records != [] {
      UnmatchedToUpdate(records[..|records| - 1], index);
    }
  }

  /**
   * The index is not extended during the loop: when no name of the batch is
   * indexed, every record is inserted, including records whose names agree
   * case-insensitively with each other.
   */
  lemma UnmatchedAllInserted(records: seq<Record>, index: map<string, Id>)
    requires forall i :: 0 <= i < |records| ==> Lower(records[i].name) !in index
    ensures ToInsert(records, index) == records && ToUpdate(records, index) == []
  {
    UnmatchedToInsert(records, index);
    UnmatchedToUpdate(records, index);
  }

  /** The ids a bulk insert hands out: new to the table and pairwise distinct. */
  predicate FreshIds(newIds: seq<Id>, rows: Table)
  {
    && (forall i :: 0 <= i < |newIds| ==> newIds[i] !in rows)
    && (forall i, j :: 0 <= i < j < |newIds| ==> newIds[i] != newIds[j])
  }

  /** `bulkCreate(toInsert)`: record `j` becomes a new row under `newIds[j]`. */
  function InsertAll(rows: Table, ins: seq<Record>, newIds: seq<Id>): (rows': Table)
    requires |ins| <= |newIds| && FreshIds(newIds, rows)
    ensures |rows'| == |rows| + |ins|
    ensures forall id :: id in rows ==> id in rows' && rows'[id] == rows[id]
    ensures forall j :: 0 <= j < |ins| ==> newIds[j] in rows' && rows'[newIds[j]] == ins[j]
    ensures forall j :: |ins| <= j < |newIds| ==> newIds[j] !in rows'
  {
    if ins == [] then rows
    else
      var n := |ins|;
      var prev := InsertAll(rows, ins[..n - 1], newIds);
      assert newIds[n - 1] !in prev;
      var next := prev[newIds[n - 1] := ins[n - 1]];
      assert |next| == |prev| + 1;
      forall j | 0 <= j < n
        ensures newIds[j] in next && next[newIds[j]] == ins[j]
      {
        if j < n - 1 {
          assert ins[..n - 1][j] == ins[j];
          assert newIds[j] != newIds[n - 1];
        }
      }
      forall j | n <= j < |newIds|
        ensures newIds[j] !in next
      {
        assert newIds[j] != newIds[n - 1];
      }
      next
  }

  /** The `update ... where id` calls in order; an id with no row is left alone. */
  function ApplyUpdates(rows: Table, upd: seq<(Id, Record)>): (rows': Table)
    ensures rows'.Keys == rows.Keys
    ensures forall id :: id in rows && (forall k :: 0 <= k < |upd| ==> upd[k].0 != id) ==> rows'[id] == rows[id]
  {
    if upd == [] then rows
    else
      var prev := ApplyUpdates(rows, upd[..|upd| - 1]);
      var id := upd[|upd| - 1].0;
      if id in prev then prev[id := upd[|upd| - 1].1] else prev
  }

  /** One more update on the end is one more step on the table. */
  lemma ApplyUpdatesSnoc(rows: Table, upd: seq<(Id, Record)>, id: Id, r: Record)
    ensures var prev := ApplyUpdates(rows, upd);
      ApplyUpdates(rows, upd + [(id, r)]) == if id in prev then prev[id := r] else prev
  {
    assert (upd + [(id, r)])[..|upd|] == upd;
  }

  /** The table after a successful reconciliation. */
  function Reconciled(rows: Table, records: seq<Record>, listing: seq<Id>, newIds: seq<Id>): (rows': Table)
    requires Listed(rows, listing) && |records| <= |newIds| && FreshIds(newIds, rows)
    ensures rows.Keys <= rows'.Keys
    ensures |rows'| == |rows| + |ToInsert(records, NameIndex(rows, listing))|
  {
    var index := NameIndex(rows, listing);
    ApplyUpdates(InsertAll(rows, ToInsert(records, index), newIds), ToUpdate(records, index))
  }

  /** `toUpdate` of a batch is that of all but its last record, plus the last one if matched. */
  lemma ToUpdateSnoc(records: seq<Record>, index: map<string, Id>)
    requires records != []
    ensures var last := records[|records| - 1];
      ToUpdate(records, index) == ToUpdate(records[..|records| - 1], index)
        + (if Lower(last.name) in index then [(index[Lower(last.name)], last)] else [])
  {
  }

  /** The last record of a batch, when matched, is what its row holds after the updates. */
  lemma LastUpdateVisible(base: Table, records: seq<Record>, index: map<string, Id>)
    requires records != [] && forall key :: key in index ==> index[key] in base
    requires Lower(records[|records| - 1].name) in index
    ensures var last := records[|records| - 1];
      ApplyUpdates(base, ToUpdate(records, index))[index[Lower(last.name)]] == last
  {
    var last := records[|records| - 1];
    ToUpdateSnoc(records, index);
    ApplyUpdatesSnoc(base, ToUpdate(records[..|records| - 1], index), index[Lower(last.name)], last);
  }

  /** The last record of a batch does not change a row other than its own match. */
  lemma LastUpdateElsewhere(base: Table, records: seq<Record>, index: map<string, Id>, id: Id)
    requires records != []
    requires var lastKey := Lower(records[|records| - 1].name); lastKey in index ==> index[lastKey] != id
    requires id in base
    ensures ApplyUpdates(base, ToUpdate(records, index))[id]
         == ApplyUpdates(base, ToUpdate(records[..|records| - 1], index))[id]
  {
    var last := records[|records| - 1];
    ToUpdateSnoc(records, index);
    if Lower(last.name) in index {
      ApplyUpdatesSnoc(base, ToUpdate(records[..|records| - 1], index), index[Lower(last.name)], last);
    } else {
      assert ToUpdate(records, index) == ToUpdate(records[..|records| - 1], index);
    }
  }

  /**
   * Helper for ReconcileUpdatesMatched: when no later record of the batch is
   * routed to the same row, the updates leave record `i` on that row.
   */
  lemma {:induction false} UpdatesKeepLastRecord(base: Table, records: seq<Record>, index: map<string, Id>, i: nat)
    requires forall key :: key in index ==> index[key] in base
    requires i < |records| && Lower(records[i].name) in index
    requires forall j :: i < j < |records| && Lower(records[j].name) in index ==>
      index[Lower(records[j].name)] != index[Lower(records[i].name)]
    ensures ApplyUpdates(base, ToUpdate(records, index))[index[Lower(records[i].name)]] == records[i]
  {
    var n := |records|;
    var key := Lower(records[i].name);
    if i == n - 1 {
      LastUpdateVisible(base, records, index);
    } else {
      var pre := records[..n - 1];
      assert pre[i] == records[i];
      assert forall j :: i < j < |pre| ==> pre[j] == records[j];
      UpdatesKeepLastRecord(base, pre, index, i);
      assert records[n - 1] == records[|records| - 1];
      LastUpdateElsewhere(base, records, index, index[key]);
    }
  }

  /**
   * A record whose folded name matches an existing row overwrites that row,
   * which keeps its id; among several such records the last one in the batch
   * is what remains.
   */
  lemma ReconcileUpdatesMatched(rows: Table, records: seq<Record>, listing: seq<Id>, newIds: seq<Id>, i: nat)
    requires Listed(rows, listing) && |records| <= |newIds| && FreshIds(newIds, rows)
    requires i < |records| && Lower(records[i].name) in NameIndex(rows, listing)
    requires forall j :: i < j < |records| ==> Lower(records[j].name) != Lower(records[i].name)
    ensures var id := NameIndex(rows, listing)[Lower(records[i].name)];
      id in rows && Lower(rows[id].name) == Lower(records[i].name)
      && Reconciled(rows, records, listing, newIds)[id] == records[i]
  {
    var index := NameIndex(rows, listing);
    PartitionSizes(records, index);
    NameIndexInjective(rows, listing);
    var base := InsertAll(rows, ToInsert(records, index), newIds);
    UpdatesKeepLastRecord(base, records, index, i);
  }

  /** A row whose folded name no record of the batch carries is left as it was. */
  lemma ReconcileKeepsUnbatched(rows: Table, records: seq<Record>, listing: seq<Id>, newIds: seq<Id>, id: Id)
    requires Listed(rows, listing) && |records| <= |newIds| && FreshIds(newIds, rows)
    requires id in rows
    requires forall j :: 0 <= j < |records| ==> Lower(records[j].name) != Lower(rows[id].name)
    ensures Reconciled(rows, records, listing, newIds)[id] == rows[id]
  {
    var index := NameIndex(rows, listing);
    PartitionSizes(records, index);
    var upd := ToUpdate(records, index);
    forall k | 0 <= k < |upd|
      ensures upd[k].0 != id
    {
      assert upd[k] in upd;
    }
  }

  /** Record `j` of `toInsert` is a new row under the `j`-th newIds id. */
  lemma ReconcileInsertsNew(rows: Table, records: seq<Record>, listing: seq<Id>, newIds: seq<Id>, j: nat)
    requires Listed(rows, listing) && |records| <= |newIds| && FreshIds(newIds, rows)
    requires j < |ToInsert(records, NameIndex(rows, listing))|
    ensures newIds[j] !in rows
    ensures Reconciled(rows, records, listing, newIds)[newIds[j]] == ToInsert(records, NameIndex(rows, listing))[j]
  {
    var index := NameIndex(rows, listing);
    PartitionSizes(records, index);
    var upd := ToUpdate(records, index);
    forall k | 0 <= k < |upd|
      ensures upd[k].0 != newIds[j]
    {
      assert upd[k] in upd;
    }
  }

  /** No two rows of the table carry the same case-folded name. */
  predicate OneRowPerName(t: Table)
  {
    forall a, b :: a in t && b in t && Lower(t[a].name) == Lower(t[b].name) ==> a == b
  }

  /** No two records of the batch carry the same case-folded name. */
  predicate DistinctNames(records: seq<Record>)
  {
    forall i, j :: 0 <= i < j < |records| ==> Lower(records[i].name) != Lower(records[j].name)
  }

  /** Updates that keep each targeted row's folded name keep every row's folded name. */
  lemma {:induction false} ApplyUpdatesKeepsNames(base: Table, upd: seq<(Id, Record)>)
    requires forall k :: 0 <= k < |upd| && upd[k].0 in base ==> Lower(upd[k].1.name) == Lower(base[upd[k].0].name)
    ensures forall id :: id in base ==> Lower(ApplyUpdates(base, upd)[id].name) == Lower(base[id].name)
  {
    if upd != [] {
      var pre := upd[..|upd| - 1];
      assert forall k :: 0 <= k < |pre| ==> pre[k] == upd[k];
      ApplyUpdatesKeepsNames(base, pre);
    }
  }

  /** The bulk insert adds no id besides the first `|ins|` new ones. */
  lemma {:induction false} InsertAllOnlyNewIds(rows: Table, ins: seq<Record>, newIds: seq<Id>)
    requires |ins| <= |newIds| && FreshIds(newIds, rows)
    ensures forall id :: id in InsertAll(rows, ins, newIds) ==> id in rows || exists j :: 0 <= j < |ins| && id == newIds[j]
  {
    if ins != [] {
      InsertAllOnlyNewIds(rows, ins[..|ins| - 1], newIds);
    }
  }

  /** `toInsert` of a batch with distinct folded names has distinct folded names. */
  lemma {:induction false} ToInsertDistinct(records: seq<Record>, index: map<string, Id>)
    requires DistinctNames(records)
    ensures DistinctNames(ToInsert(records, index))
  {
    if records != [] {
      var pre := records[..|records| - 1];
      var last := records[|records| - 1];
      assert DistinctNames(pre);
      ToInsertDistinct(pre, index);
      var p := ToInsert(pre, index);
      forall k | 0 <= k < |p|
        ensures Lower(p[k].name) != Lower(last.name)
      {
        var i :| 0 <= i < |pre| && pre[i] == p[k];
        assert records[i] == p[k];
      }
    }
  }

  /**
   * Where a row of the reconciled table comes from: an old row keeps its
   * folded name, which is indexed; a new row holds an inserted record, whose
   * folded name is not.
   */
  lemma ReconciledRowOrigin(rows: Table, records: seq<Record>, listing: seq<Id>, newIds: seq<Id>, id: Id)
    requires ListsTable(rows, listing) && |records| <= |newIds| && FreshIds(newIds, rows)
    requires id in Reconciled(rows, records, listing, newIds)
    ensures var index := NameIndex(rows, listing);
      var res := Reconciled(rows, records, listing, newIds);
      && (id in rows <==> Lower(res[id].name) in index)
      && (id in rows ==> Lower(res[id].name) == Lower(rows[id].name))
      && (id !in rows ==> exists k :: 0 <= k < |ToInsert(records, index)| && id == newIds[k] && res[id] == ToInsert(records, index)[k])
  {
    var index := NameIndex(rows, listing);
    var ins := ToInsert(records, index);
    var upd := ToUpdate(records, index);
    PartitionSizes(records, index);
    var base := InsertAll(rows, ins, newIds);
    if id in rows {
      forall k | 0 <= k < |upd| && upd[k].0 in base
        ensures Lower(upd[k].1.name) == Lower(base[upd[k].0].name)
      {
        assert upd[k].0 in rows;
      }
      ApplyUpdatesKeepsNames(base, upd);
      var i :| 0 <= i < |listing| && listing[i] == id;
    } else {
      InsertAllOnlyNewIds(rows, ins, newIds);
      var k :| 0 <= k < |ins| && id == newIds[k];
      ReconcileInsertsNew(rows, records, listing, newIds, k);
    }
  }

  /** Two rows of the reconciled table with one folded name are the same row. */
  lemma ReconciledSameName(rows: Table, records: seq<Record>, listing: seq<Id>, newIds: seq<Id>, a: Id, b: Id)
    requires ListsTable(rows, listing) && |records| <= |newIds| && FreshIds(newIds, rows)
    requires OneRowPerName(rows) && DistinctNames(ToInsert(records, NameIndex(rows, listing)))
    requires a in Reconciled(rows, records, listing, newIds) && b in Reconciled(rows, records, listing, newIds)
    requires Lower(Reconciled(rows, records, listing, newIds)[a].name) == Lower(Reconciled(rows, records, listing, newIds)[b].name)
    ensures a == b
  {
    var ins := ToInsert(records, NameIndex(rows, listing));
    var res := Reconciled(rows, records, listing, newIds);
    ReconciledRowOrigin(rows, records, listing, newIds, a);
    ReconciledRowOrigin(rows, records, listing, newIds, b);
    if a in rows {
      assert b in rows;
      assert Lower(rows[a].name) == Lower(rows[b].name);
    } else {
      var ja :| 0 <= ja < |ins| && a == newIds[ja] && res[a] == ins[ja];
      var jb :| 0 <= jb < |ins| && b == newIds[jb] && res[b] == ins[jb];
      assert Lower(ins[ja].name) == Lower(ins[jb].name);
      assert ja == jb;
    }
  }

  /** Two inserted records with one folded name end as two rows with one folded name. */
  lemma InsertedDuplicatesTwoRows(rows: Table, records: seq<Record>, listing: seq<Id>, newIds: seq<Id>)
    requires ListsTable(rows, listing) && |records| <= |newIds| && FreshIds(newIds, rows)
    requires !DistinctNames(ToInsert(records, NameIndex(rows, listing)))
    ensures !OneRowPerName(Reconciled(rows, records, listing, newIds))
  {
    var ins := ToInsert(records, NameIndex(rows, listing));
    var res := Reconciled(rows, records, listing, newIds);
    var i, j :| 0 <= i < j < |ins| && Lower(ins[i].name) == Lower(ins[j].name);
    PartitionSizes(records, NameIndex(rows, listing));
    ReconcileInsertsNew(rows, records, listing, newIds, i);
    ReconcileInsertsNew(rows, records, listing, newIds, j);
    assert newIds[i] != newIds[j];
    assert newIds[i] in res && newIds[j] in res && Lower(res[newIds[i]].name) == Lower(res[newIds[j]].name);
  }

  /**
   * Reconciling a table with one row per folded name keeps it so exactly when
   * the records sent to `toInsert` (those whose folded name matches no row)
   * have distinct folded names: a matched record keeps its row's folded name,
   * however many batch records share it, and each inserted record gets a row
   * of its own.
   */
  lemma ReconcileKeepsOneRowPerName(rows: Table, records: seq<Record>, listing: seq<Id>, newIds: seq<Id>)
    requires ListsTable(rows, listing) && |records| <= |newIds| && FreshIds(newIds, rows)
    requires OneRowPerName(rows)
    ensures OneRowPerName(Reconciled(rows, records, listing, newIds)) <==>
      DistinctNames(ToInsert(records, NameIndex(rows, listing)))
  {
    var res := Reconciled(rows, records, listing, newIds);
    if DistinctNames(ToInsert(records, NameIndex(rows, listing))) {
      forall a, b | a in res && b in res && Lower(res[a].name) == Lower(res[b].name)
        ensures a == b
      {
        ReconciledSameName(rows, records, listing, newIds, a, b);
      }
    } else {
      InsertedDuplicatesTwoRows(rows, records, listing, newIds);
    }
  }

  /** In particular, a batch with distinct folded names keeps one row per folded name. */
  lemma DistinctBatchKeepsOneRowPerName(rows: Table, records: seq<Record>, listing: seq<Id>, newIds: seq<Id>)
    requires ListsTable(rows, listing) && |records| <= |newIds| && FreshIds(newIds, rows)
    requires OneRowPerName(rows) && DistinctNames(records)
    ensures OneRowPerName(Reconciled(rows, records, listing, newIds))
  {
    ToInsertDistinct(records, NameIndex(rows, listing));
    ReconcileKeepsOneRowPerName(rows, records, listing, newIds);
  }

  /**
   * Two records whose names differ only in case, both matching one existing
   * row, both update that row and insert nothing, so the table keeps one row
   * per folded name although the batch's folded names are not distinct.
   */
  lemma CaseDuplicatesOfExistingRow(id: Id, row: Record, x: Record, y: Record, newIds: seq<Id>)
    requires Lower(x.name) == Lower(row.name) && Lower(y.name) == Lower(row.name)
    requires 2 <= |newIds| && FreshIds(newIds, map[id := row])
    ensures !DistinctNames([x, y])
    ensures var res := Reconciled(map[id := row], [x, y], [id], newIds);
      && res.Keys == {id} && res[id] == y && OneRowPerName(res)
  {
    ReconciledOneRow(id, row, x, y, newIds);
    var res := map[id := row][id := y];
    assert res.Keys == {id};
    assert [x, y][0] == x && [x, y][1] == y;
  }

  /** The index of a one-row table maps the row's folded name to its id. */
  lemma SingleRowIndex(id: Id, row: Record)
    ensures NameIndex(map[id := row], [id]) == map[Lower(row.name) := id]
  {
    assert [id][..0] == [];
  }

  /** Both records of the batch update the one row, the second write last. */
  lemma ReconciledOneRow(id: Id, row: Record, x: Record, y: Record, newIds: seq<Id>)
    requires Lower(x.name) == Lower(row.name) && Lower(y.name) == Lower(row.name)
    requires 2 <= |newIds| && FreshIds(newIds, map[id := row])
    ensures Reconciled(map[id := row], [x, y], [id], newIds) == map[id := row][id := y]
  {
    var rows := map[id := row];
    var index := NameIndex(rows, [id]);
    SingleRowIndex(id, row);
    BothMatched(x, y, index);
    assert InsertAll(rows, [], newIds) == rows;
    TwoUpdates(rows, id, x, y);
  }

  /** Two records that both match the index are both updates. */
  lemma BothMatched(x: Record, y: Record, index: map<string, Id>)
    requires Lower(x.name) in index && Lower(y.name) in index
    ensures ToInsert([x, y], index) == []
    ensures ToUpdate([x, y], index) == [(index[Lower(x.name)], x), (index[Lower(y.name)], y)]
  {
    assert [x, y][..1] == [x] && [x][..0] == [];
  }

  /** Two updates of one row leave the second record in it. */
  lemma TwoUpdates(rows: Table, id: Id, x: Record, y: Record)
    requires id in rows
    ensures ApplyUpdates(rows, [(id, x), (id, y)]) == rows[id := y]
  {
    assert [(id, x), (id, y)][..1] == [(id, x)] && [(id, x)][..0] == [];
  }

  /** Into an empty table, a reconciliation is the bulk insert of the whole batch. */
  lemma ReconciledIntoEmpty(records: seq<Record>, newIds: seq<Id>)
    requires |records| <= |newIds| && FreshIds(newIds, map[])
    ensures Reconciled(map[], records, [], newIds) == InsertAll(map[], records, newIds)
  {
    var empty: Table := map[];
    assert NameIndex(empty, []) == map[];
    UnmatchedAllInserted(records, map[]);
  }

  /**
   * Two new records whose names agree up to case both become rows of an empty
   * table, so the table then has two rows with one folded name.
   */
  lemma CaseDuplicatesBothInserted(x: Record, y: Record, newIds: seq<Id>)
    requires Lower(x.name) == Lower(y.name) && 2 <= |newIds| && FreshIds(newIds, map[])
    ensures var res := Reconciled(map[], [x, y], [], newIds);
      && |res| == 2 && newIds[0] != newIds[1]
      && newIds[0] in res && res[newIds[0]] == x
      && newIds[1] in res && res[newIds[1]] == y
      && !OneRowPerName(res)
  {
    ReconciledIntoEmpty([x, y], newIds);
    var base := InsertAll(map[], [x, y], newIds);
    assert newIds[0] != newIds[1];
    assert base[newIds[0]] == x && base[newIds[1]] == y;
  }
}

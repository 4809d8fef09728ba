/** The audit and touch triggers of a business table, and what the log they write can be used for. */
module Audit {
  import opened Base

  /** `version` is kept by the touch trigger; `data` stands for the other columns. */
  datatype Row<D> = Row(version: nat, data: D)

  datatype Action = Inserted | Updated | Deleted

  datatype Entry<K, D> = Entry(record: K, action: Action, oldImage: Option<Row<D>>, newImage: Option<Row<D>>)

  datatype Statement<K, D> = Insert(id: K, data: D) | Update(id: K, data: D) | Delete(id: K)

  /** `rows` is keyed by table and id, so one value stands for all audited tables and their common log. */
  datatype Tables<K, D> = Tables(rows: map<K, Row<D>>, log: seq<Entry<K, D>>)

  function Image<K, D>(rows: map<K, Row<D>>, id: K): Option<Row<D>> {
    if id in rows then Some(rows[id]) else None
  }

  /** One row statement with its triggers: BEFORE UPDATE touches the version, AFTER writes the entry. */
  function Execute<K, D>(t: Tables<K, D>, s: Statement<K, D>): Tables<K, D> {
    match s
    case Insert(id, data) =>
      if id in t.rows then t
      else Tables(t.rows[id := Row(1, data)], t.log + [Entry(id, Inserted, None, Some(Row(1, data)))])
    case Update(id, data) =>
      if id !in t.rows then t
      else
        var row := Row(t.rows[id].version + 1, data);
        Tables(t.rows[id := row], t.log + [Entry(id, Updated, Some(t.rows[id]), Some(row))])
    case Delete(id) =>
      if id !in t.rows then t
      else Tables(t.rows - {id}, t.log + [Entry(id, Deleted, Some(t.rows[id]), None)])
  }

  function Run<K, D>(t: Tables<K, D>, work: seq<Statement<K, D>>): Tables<K, D> {
    if work == [] then t else Execute(Run(t, work[..|work| - 1]), work[|work| - 1])
  }

  /** Rebuilding the tables from the log alone, by the new images. */
  function Replay<K, D>(log: seq<Entry<K, D>>): map<K, Row<D>> {
    if log == [] then map[]
    else
      var e := log[|log| - 1];
      var before := Replay(log[..|log| - 1]);
      match e.newImage
      case Some(row) => before[e.record := row]
      case None => before - {e.record}
  }

  /** The new image of the record's previous entry. */
  function PreviousImage<K(==), D>(log: seq<Entry<K, D>>, id: K): Option<Row<D>> {
    if log == [] then None
    else if log[|log| - 1].record == id then log[|log| - 1].newImage
    else PreviousImage(log[..|log| - 1], id)
  }

  /** Updates of a record since its last insertion. */
  function UpdatesSinceInsert<K(==), D>(log: seq<Entry<K, D>>, id: K): nat {
    if log == [] then 0
    else
      var e := log[|log| - 1];
      if e.record != id then UpdatesSinceInsert(log[..|log| - 1], id)
      else if e.action == Updated then UpdatesSinceInsert(log[..|log| - 1], id) + 1
      else 0
  }

  lemma {:induction false} ReplayIsPreviousImage<K, D>(log: seq<Entry<K, D>>, id: K)
    ensures Image(Replay(log), id) == PreviousImage(log, id)
  {
    if log != [] {
      ReplayIsPreviousImage(log[..|log| - 1], id);
    }
  }

  ghost predicate Chained<K, D>(log: seq<Entry<K, D>>) {
    forall j | 0 <= j < |log| :: log[j].oldImage == PreviousImage(log[..j], log[j].record)
  }

  ghost predicate AuditInv<K(!new), D>(t: Tables<K, D>) {
    && Replay(t.log) == t.rows
    && Chained(t.log)
    && VersionsCount(t)
  }

  lemma ChainedSnoc<K, D>(log: seq<Entry<K, D>>, e: Entry<K, D>)
    requires Chained(log) && e.oldImage == PreviousImage(log, e.record)
    ensures Chained(log + [e])
  {
    var longer := log + [e];
    forall j | 0 <= j < |longer| ensures longer[j].oldImage == PreviousImage(longer[..j], longer[j].record) {
      if j < |log| {
        assert longer[..j] == log[..j];
      } else {
        assert longer[..j] == log;
      }
    }
  }

  /** A statement that does something appends one entry, whose images are the record before and after it. */
  lemma ExecuteShape<K, D>(t: Tables<K, D>, s: Statement<K, D>)
    ensures var after := Execute(t, s);
            after == t
            || (&& |after.log| == |t.log| + 1
                && var e := after.log[|t.log|];
                && after.log == t.log + [e]
                && e.oldImage == Image(t.rows, e.record)
                && after.rows == (if e.newImage.Some? then t.rows[e.record := e.newImage.value] else t.rows - {e.record})
                && (e.action == Updated ==>
                      e.oldImage.Some? && e.newImage.Some? && e.newImage.value.version == e.oldImage.value.version + 1)
                && (e.action == Inserted ==> e.newImage.Some? && e.newImage.value.version == 1)
                && (e.action == Deleted ==> e.newImage.None?))
  {
  }

  lemma ReplaySnoc<K, D>(log: seq<Entry<K, D>>, e: Entry<K, D>)
    ensures Replay(log + [e])
            == if e.newImage.Some? then Replay(log)[e.record := e.newImage.value] else Replay(log) - {e.record}
  {
    assert (log + [e])[..|log|] == log;
  }

  lemma UpdatesSnoc<K, D>(log: seq<Entry<K, D>>, e: Entry<K, D>, id: K)
    ensures UpdatesSinceInsert(log + [e], id)
            == if e.record != id then UpdatesSinceInsert(log, id)
               else if e.action == Updated then UpdatesSinceInsert(log, id) + 1 else 0
  {
    assert (log + [e])[..|log|] == log;
  }

  ghost predicate VersionsCount<K(!new), D>(t: Tables<K, D>) {
    forall id | id in t.rows :: t.rows[id].version == 1 + UpdatesSinceInsert(t.log, id)
  }

  lemma ExecuteKeepsReplay<K, D>(t: Tables<K, D>, s: Statement<K, D>)
    requires Replay(t.log) == t.rows
    ensures Replay(Execute(t, s).log) == Execute(t, s).rows
  {
    hide Execute, Replay;
    ExecuteShape(t, s);
    if Execute(t, s) != t {
      ReplaySnoc(t.log, Execute(t, s).log[|t.log|]);
    }
  }

  lemma ExecuteKeepsChain<K, D>(t: Tables<K, D>, s: Statement<K, D>)
    requires Replay(t.log) == t.rows && Chained(t.log)
    ensures Chained(Execute(t, s).log)
  {
    hide Execute, Replay, Chained, PreviousImage;
    ExecuteShape(t, s);
    if Execute(t, s) != t {
      var e := Execute(t, s).log[|t.log|];
      ReplayIsPreviousImage(t.log, e.record);
      ChainedSnoc(t.log, e);
    }
  }

  lemma ExecuteKeepsVersions<K(!new), D>(t: Tables<K, D>, s: Statement<K, D>)
    requires VersionsCount(t)
    ensures VersionsCount(Execute(t, s))
  {
    hide Execute, UpdatesSinceInsert;
    ExecuteShape(t, s);
    var after := Execute(t, s);
    if after != t {
      forall id | id in after.rows ensures after.rows[id].version == 1 + UpdatesSinceInsert(after.log, id) {
        UpdatesSnoc(t.log, after.log[|t.log|], id);
      }
    }
  }

  lemma ExecuteKeepsAudit<K(!new), D>(t: Tables<K, D>, s: Statement<K, D>)
    requires AuditInv(t)
    ensures AuditInv(Execute(t, s))
  {
    hide Execute, Replay, Chained, VersionsCount;
    ExecuteKeepsReplay(t, s);
    ExecuteKeepsChain(t, s);
    ExecuteKeepsVersions(t, s);
  }

  /**
   * After any work on empty tables: folding the log rebuilds every table exactly, the old image of each entry
   * is the new image of that record's previous entry, and a version is one more than the updates logged since
   * the row was inserted.
   */
  lemma {:induction false} LogRebuildsTables<K(!new), D>(work: seq<Statement<K, D>>)
    ensures AuditInv(Run(Tables(map[], []), work))
  {
    hide Execute;
    if work != [] {
      LogRebuildsTables(work[..|work| - 1]);
      ExecuteKeepsAudit(Run(Tables(map[], []), work[..|work| - 1]), work[|work| - 1]);
    }
  }

  ghost predicate NeverDeletes<K, D>(work: seq<Statement<K, D>>, id: K) {
    forall i | 0 <= i < |work| :: work[i] != Delete(id)
  }

  /** Versions identify rows: as long as the row is not deleted, an equal version means an equal row. */
  lemma {:induction false} EqualVersionsEqualRows<K, D>(t: Tables<K, D>, work: seq<Statement<K, D>>, id: K)
    requires id in t.rows && NeverDeletes(work, id)
    ensures var after := Run(t, work);
            && id in after.rows
            && t.rows[id].version <= after.rows[id].version
            && (t.rows[id].version == after.rows[id].version ==> t.rows[id] == after.rows[id])
  {
    if work != [] {
      EqualVersionsEqualRows(t, work[..|work| - 1], id);
    }
  }

  predicate Logged<K(==), D>(log: seq<Entry<K, D>>, id: K) {
    exists i :: 0 <= i < |log| && log[i].record == id
  }

  /** Ids are generated by the database: an insertion never names one that was ever used. */
  ghost predicate FreshInserts<K, D>(t: Tables<K, D>, work: seq<Statement<K, D>>) {
    forall i | 0 <= i < |work| && work[i].Insert? ::
      work[i].id !in Run(t, work[..i]).rows && !Logged(Run(t, work[..i]).log, work[i].id)
  }

  lemma LoggedSnoc<K, D>(t: Tables<K, D>, s: Statement<K, D>, id: K)
    ensures Logged(t.log, id) ==> Logged(Execute(t, s).log, id)
    ensures id in t.rows && id !in Execute(t, s).rows ==> Logged(Execute(t, s).log, id)
  {
    var after := Execute(t, s);
    if Logged(t.log, id) {
      var i :| 0 <= i < |t.log| && t.log[i].record == id;
      assert after.log[i] == t.log[i];
    }
    if id in t.rows && id !in after.rows {
      assert after.log[|t.log|].record == id;
    }
  }

  /**
   * With generated ids deletions do no harm: a row that still exists under its id is the row that was read, if
   * the version is; one that was deleted never comes back.
   */
  lemma {:induction false} GeneratedIdsKeepVersions<K, D>(t: Tables<K, D>, work: seq<Statement<K, D>>, id: K)
    requires id in t.rows && FreshInserts(t, work)
    ensures var after := Run(t, work);
            if id in after.rows then
              && t.rows[id].version <= after.rows[id].version
              && (t.rows[id].version == after.rows[id].version ==> t.rows[id] == after.rows[id])
            else Logged(after.log, id)
  {
    if work != [] {
      var n := |work| - 1;
      var front := work[..n];
      assert forall i | 0 <= i < n :: front[i] == work[i] && front[..i] == work[..i];
      GeneratedIdsKeepVersions(t, front, id);
      LoggedSnoc(Run(t, front), work[n], id);
      assert work[n].Insert? ==> !Logged(Run(t, front).log, work[n].id) && work[n].id !in Run(t, front).rows;
      hide Logged;
    }
  }

  /** The tables as they are updated in place; audit_logs is only ever appended to. */
  class AuditedTables<K(==), D> {
    var rows: map<K, Row<D>>
    var log: seq<Entry<K, D>>

    constructor ()
      ensures Value() == Tables(map[], [])
    {
      rows, log := map[], [];
    }

    ghost function Value(): Tables<K, D>
      reads this
    {
      Tables(rows, log)
    }

    /** audit_trigger_fn */
    method WriteEntry(id: K, action: Action, oldImage: Option<Row<D>>, newImage: Option<Row<D>>)
      modifies this`log
      ensures log == old(log) + [Entry(id, action, oldImage, newImage)]
    {
      log := log + [Entry(id, action, oldImage, newImage)];
    }

    method Apply(s: Statement<K, D>) returns (affected: nat)
      modifies this
      ensures Value() == Execute(old(Value()), s)
      ensures affected == if Value() == old(Value()) then 0 else 1
    {
      affected := 0;
      match s {
        case Insert(id, data) =>
          if id !in rows {
            rows := rows[id := Row(1, data)];
            WriteEntry(id, Inserted, None, Some(rows[id]));
            affected := 1;
          }
        case Update(id, data) =>
          if id in rows {
            var before := rows[id];
            rows := rows[id := Row(before.version + 1, data)];
            WriteEntry(id, Updated, Some(before), Some(rows[id]));
            affected := 1;
          }
        case Delete(id) =>
          if id in rows {
            var before := rows[id];
            rows := rows - {id};
            WriteEntry(id, Deleted, Some(before), None);
            affected := 1;
          }
      }
    }
  }
}

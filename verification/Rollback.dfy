/**
  Logged changes of the database tables and `rollback_last_change`, which undoes the newest
  of them from the text in the log.
 */
module Rollback {
  import opened PyText
  import opened ChangeText
  import opened OperationLog

  /** A table: its columns, the first of which is the primary key, and its rows by that key. */
  datatype Table = Table(columns: seq<string>, rows: map<int, Record>)

  type Tables = map<string, Table>

  ghost predicate TableOk(t: Table) {
    && t.columns != []
    && forall id :: id in t.rows ==> RecordOk(t.columns, t.rows[id]) && t.rows[id][t.columns[0]] == Int(id)
  }

  ghost predicate TablesOk(tables: Tables) {
    forall name :: name in tables ==> TableOk(tables[name])
  }

  function WithRow(tables: Tables, name: string, id: int, record: Record): Tables
    requires name in tables
  {
    tables[name := tables[name].(rows := tables[name].rows[id := record])]
  }

  function WithoutRow(tables: Tables, name: string, id: int): Tables
    requires name in tables
  {
    tables[name := tables[name].(rows := tables[name].rows - {id})]
  }

  /** The columns an update changes, with their old and new values, in table order. */
  function Changed(columns: seq<string>, was: Record, now: Record): (cs: seq<Change>)
    ensures forall c :: c in cs ==> c.column in columns && c.column in was && c.column in now
                                    && c.was == was[c.column] && c.now == now[c.column] && c.was != c.now
    ensures forall k :: k in columns && k in was && k in now && was[k] != now[k] ==> Change(k, was[k], now[k]) in cs
  {
    if columns == [] then []
    else
      var k := columns[0];
      (if k in was && k in now && was[k] != now[k] then [Change(k, was[k], now[k])] else [])
      + Changed(columns[1..], was, now)
  }

  // ------------------------------------------------------------- rolling back

  function RollbackUpdate(tables: Tables, e: Entry): Tables
    requires e.tableName in tables
  {
    var t := tables[e.tableName];
    if e.itemId !in t.rows then tables
    else
      var r := RevertOf(t.rows[e.itemId], e.changes);
      if r.None? then tables else WithRow(tables, e.tableName, e.itemId, r.value)
  }

  function RollbackInsert(tables: Tables, e: Entry): Tables
    requires e.tableName in tables
  {
    WithoutRow(tables, e.tableName, e.itemId)
  }

  /** The row the parsed values make: absent columns are None.  None when a name is no column
      or the key is no number, which the constructor or the commit refuses. */
  function Rebuilt(columns: seq<string>, values: Record): (r: Option<(int, Record)>)
    requires columns != []
  {
    if (exists c :: c in values && c !in columns) || columns[0] !in values || !values[columns[0]].Int? then None
    else Some((values[columns[0]].i, map c | c in columns :: if c in values then values[c] else NoneValue))
  }

  function RollbackDelete(tables: Tables, e: Entry): Tables
    requires e.tableName in tables
  {
    var t := tables[e.tableName];
    var values := OldValuesOf(e.changes);
    if values.None? || e.itemId in t.rows || t.columns == [] then tables
    else
      var r := Rebuilt(t.columns, values.value);
      if r.None? || r.value.0 in t.rows then tables
      else WithRow(tables, e.tableName, r.value.0, r.value.1)
  }

  /** The tables after `rollback_last_change`; the log itself stays as it is. */
  function RolledBack(tables: Tables, log: seq<LogRow>): Tables {
    if log == [] then tables
    else
      var e := log[Newest(log)].what.entry;
      if e.tableName !in tables then tables
      else
        match e.operation
        case Update => RollbackUpdate(tables, e)
        case Insert => RollbackInsert(tables, e)
        case Delete => RollbackDelete(tables, e)
  }

  // ---------------------------------------------------------------- the class

  class Database {
    var tables: Tables
    const log: Log

    ghost predicate Valid()
      reads this
    {
      TablesOk(tables)
    }

    constructor (tables: Tables)
      requires TablesOk(tables)
      ensures Valid() && this.tables == tables && fresh(log) && log.rows == []
    {
      this.tables := tables;
      log := new Log();
    }

    /** `CreateObj` with logging; `id` is the key the database gives the new row. */
    method CreateObj(name: string, record: Record, id: int, stamp: int)
      requires Valid() && name in tables && id !in tables[name].rows
      requires RecordOk(tables[name].columns, record) && record[tables[name].columns[0]] == Int(id)
      modifies this, log
      ensures Valid() && tables == WithRow(old(tables), name, id, record)
      ensures log.rows == Logged(old(log.rows), old(log.nextId), InsertEntry(old(tables), name, id, record, stamp))
    {
      hide ChangesText, InsertChanges, Logged;
      log.LogChange(InsertEntry(tables, name, id, record, stamp));
      tables := WithRow(tables, name, id, record);
    }

    /** `DeleteObj` with logging; raises when the row does not exist. */
    method DeleteObj(name: string, id: int, stamp: int) returns (done: bool)
      requires Valid() && name in tables
      modifies this, log
      ensures Valid()
      ensures done <==> id in old(tables)[name].rows
      ensures !done ==> tables == old(tables) && log.rows == old(log.rows)
      ensures done ==> tables == WithoutRow(old(tables), name, id)
      ensures done ==> log.rows == Logged(old(log.rows), old(log.nextId), DeleteEntry(old(tables), name, id, stamp))
    {
      hide ChangesText, DeleteChanges, Logged;
      if id !in tables[name].rows {
        return false;
      }
      log.LogChange(DeleteEntry(tables, name, id, stamp));
      tables := WithoutRow(tables, name, id);
      done := true;
    }

    /** `UpdateObj` with logging, given the row as it will be; logs nothing when no column changes. */
    method UpdateObj(name: string, id: int, record: Record, stamp: int) returns (done: bool)
      requires Valid() && name in tables
      requires RecordOk(tables[name].columns, record) && record[tables[name].columns[0]] == Int(id)
      modifies this, log
      ensures Valid()
      ensures done <==> id in old(tables)[name].rows
      ensures !done ==> tables == old(tables) && log.rows == old(log.rows)
      ensures done ==> tables == WithRow(old(tables), name, id, record)
      ensures done ==> var cs := Changed(old(tables)[name].columns, old(tables)[name].rows[id], record);
                       log.rows == if cs == [] then old(log.rows)
                                   else Logged(old(log.rows), old(log.nextId), UpdateEntry(name, id, cs, stamp))
    {
      hide RecordOk, ChangesText, Changed, Logged;
      if id !in tables[name].rows {
        return false;
      }
      var cs := Changed(tables[name].columns, tables[name].rows[id], record);
      if cs != [] {
        log.LogChange(UpdateEntry(name, id, cs, stamp));
      }
      tables := WithRow(tables, name, id, record);
      done := true;
    }

    /** `rollback_last_change` */
    method RollbackLastChange()
      requires Valid()
      modifies this
      ensures tables == RolledBack(old(tables), log.rows)
    {
      hide OldValuesOf, RevertOf, Rebuilt, Newest;
      if log.rows == [] {
        return;
      }
      var e := log.rows[Newest(log.rows)].what.entry;
      if e.tableName !in tables {
        return;
      }
      var t := tables[e.tableName];
      match e.operation {
        case Update =>
          if e.itemId !in t.rows {
            return;
          }
          var reverted := RevertUpdate(t.rows[e.itemId], e.changes);
          if reverted.None? {
            return;
          }
          tables := WithRow(tables, e.tableName, e.itemId, reverted.value);
        case Insert =>
          tables := WithoutRow(tables, e.tableName, e.itemId);
        case Delete =>
          var values := OldValues(e.changes);
          if values.None? || e.itemId in t.rows {
            return;
          }
          var r := Rebuilt(t.columns, values.value);
          if r.None? || r.value.0 in t.rows {
            return;
          }
          tables := WithRow(tables, e.tableName, r.value.0, r.value.1);
      }
    }
  }

  function InsertEntry(tables: Tables, name: string, id: int, record: Record, stamp: int): Stamped
    requires name in tables && forall i :: 0 <= i < |tables[name].columns| ==> tables[name].columns[i] in record
  {
    Stamped(stamp, Entry(id, Insert, name, ChangesText(InsertChanges(tables[name].columns, record))))
  }

  function DeleteEntry(tables: Tables, name: string, id: int, stamp: int): Stamped
    requires name in tables && id in tables[name].rows
    requires forall i :: 0 <= i < |tables[name].columns| ==> tables[name].columns[i] in tables[name].rows[id]
  {
    Stamped(stamp, Entry(id, Delete, name, ChangesText(DeleteChanges(tables[name].columns, tables[name].rows[id]))))
  }

  function UpdateEntry(name: string, id: int, cs: seq<Change>, stamp: int): Stamped {
    Stamped(stamp, Entry(id, Update, name, ChangesText(cs)))
  }

  // --------------------------------------------------------------- undoing

  /** The change to be made is newer than everything in the log. */
  predicate NewerThan(log: seq<LogRow>, stamp: int) {
    forall i :: 0 <= i < |log| ==> log[i].what.stamp < stamp
  }

  /** Full or not, the log's newest row is then the change just made. */
  lemma LoggedIsNewest(log: seq<LogRow>, freshId: nat, x: Stamped)
    requires NewerThan(log, x.stamp)
    ensures var after := Logged(log, freshId, x); after != [] && after[Newest(after)].what == x
  {
    var after := Logged(log, freshId, x);
    var at := if |log| >= MAX_RECORDS then Oldest(log) else |log|;
    assert after[at].what == x;
    assert forall j :: 0 <= j < |after| && j != at ==> after[j].what.stamp < x.stamp;
  }

  /** Undoing an insertion always restores the tables, whatever the row's text. */
  lemma UndoInsert(tables: Tables, log: seq<LogRow>, freshId: nat, name: string, id: int, record: Record, stamp: int)
    requires name in tables && id !in tables[name].rows && RecordOk(tables[name].columns, record)
    requires NewerThan(log, stamp)
    ensures RolledBack(WithRow(tables, name, id, record), Logged(log, freshId, InsertEntry(tables, name, id, record, stamp))) == tables
  {
    hide Logged, Newest, ChangesText, InsertChanges, NewerThan;
    LoggedIsNewest(log, freshId, InsertEntry(tables, name, id, record, stamp));
    var rows := tables[name].rows;
    assert rows[id := record] - {id} == rows;
  }

  /** Undoing a deletion restores the tables, the row under its old key, exactly when every
      value of the row can be restored from its text. */
  lemma UndoDelete(tables: Tables, log: seq<LogRow>, freshId: nat, name: string, id: int, stamp: int)
    requires TablesOk(tables) && name in tables && id in tables[name].rows && NewerThan(log, stamp)
    ensures RolledBack(WithoutRow(tables, name, id), Logged(log, freshId, DeleteEntry(tables, name, id, stamp))) == tables
       <==> forall c :: c in tables[name].rows[id] ==> Restorable(tables[name].rows[id][c])
  {
    hide Logged, Newest, Restorable, ChangesText, DeleteChanges, OldValuesOf, Rebuilt, NewerThan;
    var x := DeleteEntry(tables, name, id, stamp);
    LoggedIsNewest(log, freshId, x);
    var t, less := tables[name], WithoutRow(tables, name, id);
    var record := t.rows[id];
    assert id !in less[name].rows;
    assert RolledBack(less, Logged(log, freshId, x)) == RollbackDelete(less, x.entry);
    DeleteTextInverts(t.columns, record);
    if forall c :: c in record ==> Restorable(record[c]) {
      RebuiltWhole(t.columns, record);
      assert (t.rows - {id})[id := record] == t.rows;
    } else {
      var values := OldValuesOf(x.entry.changes);
      OldValuesAreRestorable(x.entry.changes);
      if values.Some? && Rebuilt(t.columns, values.value).Some? {
        var r := Rebuilt(t.columns, values.value).value;
        RebuiltIsRestorable(t.columns, values.value);
        assert r.1 != record;
        OtherRowDiffers(tables, name, id, r.0, r.1);
      }
    }
  }

  lemma OtherRowDiffers(tables: Tables, name: string, id: int, other: int, r: Record)
    requires name in tables && id in tables[name].rows && r != tables[name].rows[id]
    ensures WithRow(WithoutRow(tables, name, id), name, other, r) != tables
  {
    var after := WithRow(WithoutRow(tables, name, id), name, other, r);
    if other == id {
      assert after[name].rows[id] == r;
    } else {
      assert id !in after[name].rows;
    }
  }

  lemma RebuiltWhole(columns: seq<string>, record: Record)
    requires RecordOk(columns, record) && record[columns[0]].Int?
    ensures Rebuilt(columns, record) == Some((record[columns[0]].i, record))
  {
    hide Identifier, TypeOk;
    var m := map c | c in columns :: if c in record then record[c] else NoneValue;
    assert m == record;
    assert columns[0] in columns;
  }

  lemma RebuiltIsRestorable(columns: seq<string>, values: Record)
    requires columns != [] && Rebuilt(columns, values).Some?
    requires forall c :: c in values ==> Restorable(values[c])
    ensures var r := Rebuilt(columns, values).value.1; forall c :: c in r ==> Restorable(r[c])
  {
    hide CleanText;
  }

  /** Undoing an update restores the tables exactly when every changed column was None or False
      before it; the parser takes the last character off all other old values.  Old texts may hold
      anything, and columns the update does not touch may too. */
  lemma UndoUpdate(tables: Tables, log: seq<LogRow>, freshId: nat, name: string, id: int, record: Record, stamp: int)
    requires TablesOk(tables) && name in tables && id in tables[name].rows && NewerThan(log, stamp)
    requires RecordOk(tables[name].columns, record)
    requires forall i, j :: 0 <= i < j < |tables[name].columns| ==> tables[name].columns[i] != tables[name].columns[j]
    requires Changed(tables[name].columns, tables[name].rows[id], record) != []
    requires forall c :: c in record && tables[name].rows[id][c] != record[c] ==> Clear(Text(record[c]), BREAK)
    ensures var was := tables[name].rows[id];
            var cs := Changed(tables[name].columns, was, record);
            RolledBack(WithRow(tables, name, id, record), Logged(log, freshId, UpdateEntry(name, id, cs, stamp))) == tables
            <==> forall c :: c in record && was[c] != record[c] ==> LosesNothing(was[c])
  {
    hide Logged, Newest, ChangesText, RevertOf, Clear, CleanText, Identifier, TypeOk, LosesNothing, Text, NewerThan, Changed;
    var t := tables[name];
    var cs := Changed(t.columns, t.rows[id], record);
    var x := UpdateEntry(name, id, cs, stamp);
    LoggedIsNewest(log, freshId, x);
    UndoUpdateText(t.columns, t.rows[id], record);
    ChangedNothing(t.columns, t.rows[id]);
    RowBack(tables, name, id, record, RevertOf(record, x.entry.changes));
  }

  lemma {:induction false} ChangedNothing(columns: seq<string>, was: Record)
    ensures Changed(columns, was, was) == []
  {
    if columns != [] {
      ChangedNothing(columns[1..], was);
    }
  }

  lemma UndoUpdateText(columns: seq<string>, was: Record, now: Record)
    requires RecordOk(columns, was) && RecordOk(columns, now)
    requires forall i, j :: 0 <= i < j < |columns| ==> columns[i] != columns[j]
    requires Changed(columns, was, now) != []
    requires forall c :: c in now && was[c] != now[c] ==> Clear(Text(now[c]), BREAK)
    ensures RevertOf(now, ChangesText(Changed(columns, was, now))) == Some(was)
       <==> forall c :: c in now && was[c] != now[c] ==> LosesNothing(was[c])
  {
    hide ChangesText, RevertOf, Clear, CleanText, Identifier, TypeOk, LosesNothing, Text;
    var cs := Changed(columns, was, now);
    ChangedColumns(columns, was, now);
    ChangesAreOk(columns, was, now);
    UpdateTextInverts(now, cs);
    UndoneColumns(now, cs, |cs|);
    UndoneIsOld(columns, was, now);
    assert (forall i :: 0 <= i < |cs| ==> LosesNothing(cs[i].was))
      <==> (forall c :: c in now && was[c] != now[c] ==> LosesNothing(was[c])) by {
      assert forall i :: 0 <= i < |cs| ==> cs[i] in cs;
    }
  }

  lemma ChangesAreOk(columns: seq<string>, was: Record, now: Record)
    requires RecordOk(columns, was) && RecordOk(columns, now)
    requires forall c :: c in now && was[c] != now[c] ==> Clear(Text(now[c]), BREAK)
    ensures var cs := Changed(columns, was, now); forall i :: 0 <= i < |cs| ==> cs[i].column in now && now[cs[i].column] == cs[i].now && ChangeOk(cs[i])
  {
    hide Clear, CleanText, Identifier, TypeOk, Text;
    var cs := Changed(columns, was, now);
    forall i | 0 <= i < |cs|
      ensures cs[i].column in now && now[cs[i].column] == cs[i].now && ChangeOk(cs[i])
    {
      assert cs[i] in cs;
    }
  }

  /** Taking back every change of an update gives the old row. */
  lemma UndoneIsOld(columns: seq<string>, was: Record, now: Record)
    requires RecordOk(columns, was) && RecordOk(columns, now)
    requires forall i, j :: 0 <= i < j < |columns| ==> columns[i] != columns[j]
    ensures var cs := Changed(columns, was, now); Undone(now, cs, |cs|) == was
  {
    hide Identifier, TypeOk, Undone, Changed;
    var cs := Changed(columns, was, now);
    ChangedColumns(columns, was, now);
    assert forall i :: 0 <= i < |cs| ==> cs[i] in cs;
    UndoneColumns(now, cs, |cs|);
    var undone := Undone(now, cs, |cs|);
    forall k | k in now
      ensures undone[k] == was[k]
    {
      if was[k] != now[k] {
        var i :| 0 <= i < |cs| && cs[i] == Change(k, was[k], now[k]);
      }
    }
    assert undone.Keys == was.Keys;
  }

  lemma RowBack(tables: Tables, name: string, id: int, record: Record, reverted: Option<Record>)
    requires name in tables && id in tables[name].rows && record != tables[name].rows[id]
    ensures var more := WithRow(tables, name, id, record);
            (reverted == Some(tables[name].rows[id])) <==>
            (if reverted.None? then more else WithRow(more, name, id, reverted.value)) == tables
  {
    var rows := tables[name].rows;
    var more := WithRow(tables, name, id, record);
    assert more[name].rows[id] == record;
    if reverted.Some? {
      var back := WithRow(more, name, id, reverted.value);
      assert back[name].rows[id] == reverted.value;
      if reverted.value == rows[id] {
        assert rows[id := record][id := rows[id]] == rows;
        assert back == tables;
      }
    }
  }

  predicate DistinctColumns(cs: seq<Change>) {
    forall i, j :: 0 <= i < j < |cs| ==> cs[i].column != cs[j].column
  }

  lemma OneMoreDistinct(x: Change, cs: seq<Change>)
    requires DistinctColumns(cs) && forall c :: c in cs ==> c.column != x.column
    ensures DistinctColumns([x] + cs)
  {
    assert forall j :: 0 <= j < |cs| ==> cs[j] in cs;
  }

  /** The changes of an update touch distinct columns. */
  lemma {:induction false} ChangedColumns(columns: seq<string>, was: Record, now: Record)
    requires forall i, j :: 0 <= i < j < |columns| ==> columns[i] != columns[j]
    ensures DistinctColumns(Changed(columns, was, now))
  {
    if columns != [] {
      hide DistinctColumns;
      var k := columns[0];
      ChangedColumns(columns[1..], was, now);
      var rest := Changed(columns[1..], was, now);
      assert k !in columns[1..];
      if k in was && k in now && was[k] != now[k] {
        OneMoreDistinct(Change(k, was[k], now[k]), rest);
      } else {
        assert [] + rest == rest;
      }
    }
  }

  /** What a rollback may touch: nothing without a log or in another table than the one the newest
      entry names, and in that one nothing but the row it names.  An insertion's row is gone, an
      update's row stays a row, and for a deletion no row that is there is overwritten. */
  lemma RollbackTouchesOne(tables: Tables, log: seq<LogRow>, id: int)
    ensures log == [] ==> RolledBack(tables, log) == tables
    ensures log != [] ==>
              var e, after := log[Newest(log)].what.entry, RolledBack(tables, log);
              && after.Keys == tables.Keys && (forall name :: name in tables && name != e.tableName ==> after[name] == tables[name])
              && (e.tableName in tables ==>
                    var t, u := tables[e.tableName], after[e.tableName];
                    && u.columns == t.columns
                    && (e.operation.Insert? ==> e.itemId !in u.rows)
                    && (e.operation.Update? ==> u.rows.Keys == t.rows.Keys)
                    && (e.operation.Delete? && e.itemId in t.rows ==> after == tables)
                    && (id in t.rows && (id != e.itemId || e.operation.Delete?) ==> id in u.rows && u.rows[id] == t.rows[id])
                    && (id in u.rows && id !in t.rows ==> e.operation.Delete?))
  {
    hide OldValuesOf, RevertOf, Rebuilt, Newest;
  }

  /** The row a deletion's rollback makes from the values in the text: nothing when one of them
      names no column, or when the key is missing, no number or taken; else the columns the text
      names hold its values and the others None. */
  lemma DeletedRowComesBack(tables: Tables, log: seq<LogRow>, values: Record)
    requires log != [] && log[Newest(log)].what.entry.operation.Delete?
    requires var e := log[Newest(log)].what.entry;
             && OldValuesOf(e.changes) == Some(values)
             && e.tableName in tables && tables[e.tableName].columns != [] && e.itemId !in tables[e.tableName].rows
    ensures var e, after := log[Newest(log)].what.entry, RolledBack(tables, log);
            var columns, rows := tables[e.tableName].columns, tables[e.tableName].rows;
            var fits := (forall c :: c in values ==> c in columns) && columns[0] in values && values[columns[0]].Int?
                        && values[columns[0]].i !in rows;
            && (!fits ==> after == tables)
            && (fits ==>
                  && after[e.tableName].rows.Keys == rows.Keys + {values[columns[0]].i}
                  && var row := after[e.tableName].rows[values[columns[0]].i];
                     forall c :: (c in row <==> c in columns) && (c in columns ==> row[c] == if c in values then values[c] else NoneValue))
  {
    hide OldValuesOf, RevertOf, Newest;
  }

  /** A line that cannot be parsed leaves everything as it is. */
  lemma UnparsedChangesNothing(tables: Tables, log: seq<LogRow>, i: nat)
    requires log != [] && !log[Newest(log)].what.entry.operation.Insert?
    requires var e := log[Newest(log)].what.entry;
             var lines := SplitAll(e.changes, "\r\n\r\n");
             i < |lines| && ParseLine(lines[i], e.operation.Update?).None?
    ensures RolledBack(tables, log) == tables
  {
    hide ParseLine, SplitAll, RevertFirst, Collect, Rebuilt, Newest;
    var e := log[Newest(log)].what.entry;
    var lines := SplitAll(e.changes, BREAK);
    if e.operation.Delete? {
      CollectStops(lines, i);
    } else if e.tableName in tables && e.itemId in tables[e.tableName].rows {
      RevertStops(tables[e.tableName].rows[e.itemId], lines, i, |lines|);
    }
  }

  /** Rolling back the same insertion or deletion once more changes nothing. */
  lemma RollbackTwice(tables: Tables, log: seq<LogRow>)
    requires log != [] ==> !log[Newest(log)].what.entry.operation.Update?
    ensures RolledBack(RolledBack(tables, log), log) == RolledBack(tables, log)
  {
    hide OldValuesOf, Newest;
    if log != [] {
      var e, once := log[Newest(log)].what.entry, RolledBack(tables, log);
      if e.tableName in tables && e.operation.Insert? {
        assert once[e.tableName].rows - {e.itemId} == once[e.tableName].rows;
        assert RolledBack(once, log) == once;
      }
    }
  }
}

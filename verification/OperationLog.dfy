/**
  The bounded operation log of lib/database.py: it grows to a thousand rows and from then on
  is kept by overwriting its oldest row.
 */
module OperationLog {
  datatype Operation = Insert | Update | Delete

  datatype Entry = Entry(itemId: int, operation: Operation, tableName: string, changes: string)

  datatype Stamped = Stamped(stamp: int, entry: Entry)

  datatype LogRow = LogRow(id: nat, what: Stamped)

  const MAX_RECORDS := 1000

  /** `order_by(timestamp.asc()).first()` */
  function Oldest(log: seq<LogRow>): (i: nat)
    requires log != []
    ensures i < |log|
    ensures forall j :: 0 <= j < |log| ==> log[i].what.stamp <= log[j].what.stamp
  {
    if |log| == 1 then 0
    else
      var i := Oldest(log[..|log| - 1]);
      if log[|log| - 1].what.stamp < log[i].what.stamp then |log| - 1 else i
  }

  /** `order_by(desc(timestamp)).first()` */
  function Newest(log: seq<LogRow>): (i: nat)
    requires log != []
    ensures i < |log|
    ensures forall j :: 0 <= j < |log| ==> log[i].what.stamp >= log[j].what.stamp
  {
    if |log| == 1 then 0
    else
      var i := Newest(log[..|log| - 1]);
      if log[|log| - 1].what.stamp > log[i].what.stamp then |log| - 1 else i
  }

  /** The log after one more change; an overwritten row keeps its id. */
  function Logged(log: seq<LogRow>, freshId: nat, change: Stamped): seq<LogRow> {
    if |log| >= MAX_RECORDS then
      var i := Oldest(log);
      log[i := LogRow(log[i].id, change)]
    else log + [LogRow(freshId, change)]
  }

  class Log {
    var rows: seq<LogRow>
    var nextId: nat

    constructor ()
      ensures rows == []
    {
      rows, nextId := [], 1;
    }

    /** `update_old_record` */
    method UpdateOldRecord(change: Stamped)
      requires rows != []
      modifies this
      ensures rows == old(rows)[Oldest(old(rows)) := LogRow(old(rows)[Oldest(old(rows))].id, change)]
      ensures nextId == old(nextId)
    {
      var i := Oldest(rows);
      rows := rows[i := LogRow(rows[i].id, change)];
    }

    /** `log_change` */
    method LogChange(change: Stamped)
      modifies this
      ensures rows == Logged(old(rows), old(nextId), change)
      ensures nextId == old(nextId) + if |old(rows)| >= MAX_RECORDS then 0 else 1
    {
      if |rows| >= MAX_RECORDS {
        UpdateOldRecord(change);
      } else {
        rows, nextId := rows + [LogRow(nextId, change)], nextId + 1;
      }
    }
  }

  // ---------------------------------------------------- what the log holds

  function Contents(log: seq<LogRow>): (c: seq<Stamped>)
    ensures |c| == |log| && forall i :: 0 <= i < |log| ==> c[i] == log[i].what
  {
    seq(|log|, i requires 0 <= i < |log| => log[i].what)
  }

  /** The log after a history of changes; `firstId` numbers new rows. */
  function Run(history: seq<Stamped>): (log: seq<LogRow>)
  {
    if history == [] then []
    else Logged(Run(history[..|history| - 1]), |history|, history[|history| - 1])
  }

  predicate Increasing(history: seq<Stamped>) {
    forall i, j :: 0 <= i < j < |history| ==> history[i].stamp < history[j].stamp
  }

  function LastOf<T>(s: seq<T>, n: nat): seq<T> {
    if |s| <= n then s else s[|s| - n..]
  }

  /** `c` turned so that position `r` comes first */
  function Turned<T>(c: seq<T>, r: nat): seq<T>
    requires r <= |c|
  {
    c[r..] + c[..r]
  }

  lemma FirstIsOldest(c: seq<Stamped>, r: nat, o: nat)
    requires r < |c| && o < |c| && Increasing(Turned(c, r))
    requires c[o].stamp <= c[r].stamp
    ensures o == r
  {
    var t := Turned(c, r);
    var k := if o >= r then o - r else |c| - r + o;
    assert t[0] == c[r] && t[k] == c[o];
  }

  lemma OverwriteTurns(c: seq<Stamped>, r: nat, x: Stamped)
    requires r < |c|
    ensures var next := if r + 1 == |c| then 0 else r + 1;
            Turned(c[r := x], next) == Turned(c, r)[1..] + [x]
  {
  }

  /** The invariant of the ring: turned to start at `r`, the rows are the last changes. */
  predicate Ring(log: seq<LogRow>, history: seq<Stamped>, r: nat) {
    var c := Contents(log);
    && (r < |c| || r == |c| == 0) && (|history| < MAX_RECORDS ==> r == 0)
    && Turned(c, r) == LastOf(history, MAX_RECORDS)
  }

  lemma RingGrows(log: seq<LogRow>, history: seq<Stamped>, freshId: nat, x: Stamped)
    requires Ring(log, history, 0) && |history| < MAX_RECORDS
    ensures Ring(Logged(log, freshId, x), history + [x], 0)
  {
    hide Oldest;
    var c := Contents(log);
    assert c == history by { assert Turned(c, 0) == c; }
    var next := Contents(Logged(log, freshId, x));
    assert next == history + [x];
    assert Turned(next, 0) == next;
  }

  lemma RingTurns(log: seq<LogRow>, history: seq<Stamped>, freshId: nat, x: Stamped, r: nat)
    requires Ring(log, history, r) && |history| >= MAX_RECORDS && Increasing(history)
    ensures Ring(Logged(log, freshId, x), history + [x], if r + 1 == |log| then 0 else r + 1)
  {
    hide Turned;
    var c := Contents(log);
    TurnedLength(c, r);
    LastIncreasing(history, MAX_RECORDS);
    FirstIsOldest(c, r, Oldest(log));
    OverwriteTurns(c, r, x);
    assert Contents(Logged(log, freshId, x)) == c[r := x];
    LastOfNext(history, x, MAX_RECORDS);
  }

  lemma TurnedLength(c: seq<Stamped>, r: nat)
    requires r <= |c|
    ensures |Turned(c, r)| == |c|
  {
  }

  lemma LastOfNext(history: seq<Stamped>, x: Stamped, n: nat)
    requires |history| >= n > 0
    ensures LastOf(history + [x], n) == LastOf(history, n)[1..] + [x]
  {
  }

  lemma {:induction false} RingHolds(history: seq<Stamped>) returns (r: nat)
    requires Increasing(history)
    ensures Ring(Run(history), history, r)
    decreases |history|
  {
    hide Oldest, Ring, Logged;
    if history == [] {
      r := 0;
      RingEmpty();
    } else {
      var init, x := history[..|history| - 1], history[|history| - 1];
      assert history == init + [x];
      r := RingHolds(init);
      if |init| < MAX_RECORDS {
        RingStart(Run(init), init, r);
        RingGrows(Run(init), init, |history|, x);
      } else {
        RingTurns(Run(init), init, |history|, x, r);
        r := if r + 1 == |Run(init)| then 0 else r + 1;
      }
    }
  }

  /** However long the history, the log holds exactly its last thousand changes: its rows, read
      from the right position on and around the end, are those changes in the order of issue. */
  lemma LogHoldsLast(history: seq<Stamped>) returns (r: nat)
    requires Increasing(history)
    ensures Ring(Run(history), history, r)
    ensures var c := Contents(Run(history));
            r <= |c| && c[r..] + c[..r] == if |history| <= 1000 then history else history[|history| - 1000..]
  {
    hide Ring, Run;
    r := RingHolds(history);
    RingMeans(Run(history), history, r);
  }

  /** However long the history, the rows keep the ids they were made with, one to a thousand. */
  lemma {:induction false} IdsStay(history: seq<Stamped>)
    ensures var log := Run(history);
            |log| == (if |history| <= 1000 then |history| else 1000) && forall i :: 0 <= i < |log| ==> log[i].id == i + 1
    decreases |history|
  {
    hide Oldest;
    if history != [] {
      IdsStay(history[..|history| - 1]);
    }
  }

  lemma RingMeans(log: seq<LogRow>, history: seq<Stamped>, r: nat)
    requires Ring(log, history, r)
    ensures var c := Contents(log);
            r <= |c| && c[r..] + c[..r] == if |history| <= 1000 then history else history[|history| - 1000..]
  {
  }

  lemma RingEmpty()
    ensures Ring([], [], 0)
  {
    assert Turned(Contents([]), 0) == [];
  }

  lemma RingStart(log: seq<LogRow>, history: seq<Stamped>, r: nat)
    requires Ring(log, history, r) && |history| < MAX_RECORDS
    ensures r == 0
  {
  }

  lemma LastIncreasing(history: seq<Stamped>, n: nat)
    requires Increasing(history)
    ensures Increasing(LastOf(history, n))
  {
  }

  /** Ordering the rows by timestamp lists the last thousand changes in order of issue: that
      list is an arrangement of the rows, and the only one with increasing stamps. */
  lemma OrderedLogIsHistory(history: seq<Stamped>, ordered: seq<Stamped>)
    requires Increasing(history)
    ensures multiset(LastOf(history, 1000)) == multiset(Contents(Run(history)))
    ensures Increasing(ordered) && multiset(ordered) == multiset(Contents(Run(history)))
            ==> ordered == LastOf(history, 1000)
  {
    hide Run, Increasing;
    var r := LogHoldsLast(history);
    var c := Contents(Run(history));
    assert multiset(Turned(c, r)) == multiset(c) by {
      assert c == c[..r] + c[r..];
    }
    LastIncreasing(history, MAX_RECORDS);
    if Increasing(ordered) && multiset(ordered) == multiset(c) {
      SortedUnique(ordered, LastOf(history, MAX_RECORDS));
    }
  }

  lemma {:induction false} SortedUnique(a: seq<Stamped>, b: seq<Stamped>)
    requires Increasing(a) && Increasing(b) && multiset(a) == multiset(b)
    ensures a == b
    decreases |a|
  {
    hide Increasing;
    assert |multiset(a)| == |multiset(b)|;
    if a != [] {
      SameLast(a, b);
      Front(a);
      Front(b);
      SortedUnique(a[..|a| - 1], b[..|b| - 1]);
    }
  }

  lemma Front(a: seq<Stamped>)
    requires Increasing(a) && a != []
    ensures Increasing(a[..|a| - 1]) && a == a[..|a| - 1] + [a[|a| - 1]]
    ensures multiset(a[..|a| - 1]) == multiset(a) - multiset{a[|a| - 1]}
  {
    assert a == a[..|a| - 1] + [a[|a| - 1]];
  }

  lemma SameLast(a: seq<Stamped>, b: seq<Stamped>)
    requires Increasing(a) && Increasing(b) && multiset(a) == multiset(b) && a != [] && b != []
    ensures a[|a| - 1] == b[|b| - 1]
  {
    var p, q := a[|a| - 1], b[|b| - 1];
    assert p in multiset(b) && q in multiset(a);
    LastIsGreatest(a, q);
    LastIsGreatest(b, p);
    var i :| 0 <= i < |b| && b[i] == p;
  }

  lemma LastIsGreatest(a: seq<Stamped>, x: Stamped)
    requires Increasing(a) && x in a
    ensures x.stamp <= a[|a| - 1].stamp
  {
  }
}

/**
  The table of active PDN connections (SERVING_APN) and `Update_Serving_APN`, which
  creates, overwrites and deletes its rows.
 */
module ServingApn {
  import opened PyText

  datatype Row = Row(id: nat, subscriberId: int, apnId: int, sessionId: string, routing: string,
                     pgw: string, realm: string, peer: string)

  datatype Subscriber = Subscriber(id: int, apnList: seq<int>, defaultApn: int)

  /** The subscriber and APN tables, which this code only reads. */
  datatype Directory = Directory(subscribers: map<string, Subscriber>, apns: map<int, string>)

  /** The arguments of one call; an absent one is Python's None. */
  datatype Call = Call(imsi: string, apn: string, session: Option<string>, pgw: Option<string>,
                       routing: Option<string>, realm: Option<string>, peer: Option<string>)

  datatype Outcome = Done | Raised

  // ------------------------------------------------------------- resolving

  function LowerChar(c: char): char {
    if 'A' <= c <= 'Z' then c - 'A' + 'a' else c
  }

  function Lower(s: string): string {
    seq(|s|, i requires 0 <= i < |s| => LowerChar(s[i]))
  }

  /** `str(value)` of an optional string */
  function Str(v: Option<string>): string {
    if v.None? then "None" else v.value
  }

  function RemoveFirst(ids: seq<int>, id: int): seq<int> {
    if ids == [] then [] else if ids[0] == id then ids[1..] else [ids[0]] + RemoveFirst(ids[1..], id)
  }

  /** The subscriber's APNs in the order they are tried, the default one first. */
  function Candidates(s: Subscriber): (ids: seq<int>)
    ensures ids != []
  {
    [s.defaultApn] + RemoveFirst(s.apnList, s.defaultApn)
  }

  /** The first APN whose name matches ignoring case; the last one of the list when none
      does; None when an id on the way there is unknown, which raises. */
  function ResolveFrom(d: Directory, ids: seq<int>, name: string): (r: Option<int>)
    requires ids != []
    ensures r.Some? ==> r.value in ids
  {
    if ids[0] !in d.apns then None
    else if |ids| == 1 || Lower(d.apns[ids[0]]) == Lower(name) then Some(ids[0])
    else ResolveFrom(d, ids[1..], name)
  }

  /** The table key a call is about. */
  function Resolve(d: Directory, imsi: string, apn: string): Option<(int, int)> {
    if imsi !in d.subscribers then None
    else
      var s := d.subscribers[imsi];
      var id :- ResolveFrom(d, Candidates(s), apn);
      Some((s.id, id))
  }

  /** The same letter, large or small, or the same character. */
  predicate SameLetter(a: char, b: char) {
    a == b || ('A' <= a <= 'Z' && a as int + 32 == b as int) || ('A' <= b <= 'Z' && b as int + 32 == a as int)
  }

  lemma LowerEqual(a: string, b: string)
    ensures Lower(a) == Lower(b) <==> |a| == |b| && forall i :: 0 <= i < |a| ==> SameLetter(a[i], b[i])
  {
    forall i | 0 <= i < |a| && i < |b|
      ensures Lower(a)[i] == Lower(b)[i] <==> SameLetter(a[i], b[i])
    {
    }
    if Lower(a) == Lower(b) {
      assert |Lower(a)| == |Lower(b)|;
    }
  }

  /** Names that differ in the case of letters only resolve to the same key. */
  lemma CaseIgnored(d: Directory, imsi: string, a: string, b: string)
    requires |a| == |b| && forall i :: 0 <= i < |a| ==> SameLetter(a[i], b[i])
    ensures Resolve(d, imsi, a) == Resolve(d, imsi, b)
  {
    hide ResolveFrom, Candidates, Lower;
    LowerEqual(a, b);
    if imsi in d.subscribers {
      ResolvesAlike(d, Candidates(d.subscribers[imsi]), a, b);
    }
  }

  lemma {:induction false} ResolvesAlike(d: Directory, ids: seq<int>, a: string, b: string)
    requires ids != [] && Lower(a) == Lower(b)
    ensures ResolveFrom(d, ids, a) == ResolveFrom(d, ids, b)
  {
    hide Lower;
    if |ids| > 1 {
      ResolvesAlike(d, ids[1..], a, b);
    }
  }

  /** An APN of that name, ignoring case. */
  predicate Bears(d: Directory, id: int, name: string) {
    id in d.apns && |d.apns[id]| == |name| && forall i :: 0 <= i < |name| ==> SameLetter(d.apns[id][i], name[i])
  }

  lemma BearsIs(d: Directory, id: int, name: string)
    ensures Bears(d, id, name) <==> id in d.apns && Lower(d.apns[id]) == Lower(name)
  {
    hide SameLetter, Lower;
    if id in d.apns {
      LowerEqual(d.apns[id], name);
    }
  }

  /** The ids that end the search: one of that name, and one that is unknown, which raises. */
  predicate Stops(d: Directory, id: int, name: string) {
    id !in d.apns || Bears(d, id, name)
  }

  function Found(d: Directory, s: Subscriber, id: int): Option<(int, int)> {
    if id in d.apns then Some((s.id, id)) else None
  }

  lemma {:induction false} ResolveFirst(d: Directory, ids: seq<int>, name: string, i: nat)
    requires i < |ids| && Stops(d, ids[i], name) && forall j :: 0 <= j < i ==> !Stops(d, ids[j], name)
    ensures ResolveFrom(d, ids, name) == if ids[i] in d.apns then Some(ids[i]) else None
    decreases i
  {
    hide Lower, SameLetter;
    BearsIs(d, ids[0], name);
    if i > 0 {
      assert !Stops(d, ids[0], name);
      ResolveFirst(d, ids[1..], name, i - 1);
    }
  }

  lemma {:induction false} ResolveLast(d: Directory, ids: seq<int>, name: string)
    requires ids != [] && forall j :: 0 <= j < |ids| ==> !Stops(d, ids[j], name)
    ensures ResolveFrom(d, ids, name) == Some(ids[|ids| - 1])
    decreases |ids|
  {
    hide Lower, SameLetter;
    BearsIs(d, ids[0], name);
    assert !Stops(d, ids[0], name);
    if |ids| > 1 {
      ResolveLast(d, ids[1..], name);
    }
  }

  lemma RemoveNext(ids: seq<int>, id: int)
    ensures ids == [] ==> RemoveFirst(ids, id) == []
    ensures ids != [] ==> RemoveFirst(ids, id) == if ids[0] == id then ids[1..] else [ids[0]] + RemoveFirst(ids[1..], id)
  {
  }

  lemma AllBut(ids: seq<int>, k: nat)
    requires 0 < k <= |ids|
    ensures ids[0] in ids[..k] && [ids[0]] + ids[1..] == ids
    ensures forall x :: x in ids[1..][..k - 1] ==> x in ids[..k]
    ensures k < |ids| ==> [ids[0]] + (ids[1..][..k - 1] + ids[1..][k..]) == ids[..k] + ids[k + 1..]
  {
    assert ids[..k] == [ids[0]] + ids[1..][..k - 1];
    if k < |ids| {
      assert ids[1..][k..] == ids[k + 1..];
    }
  }

  lemma {:induction false} RemovedFirst(ids: seq<int>, id: int, k: nat)
    requires k <= |ids| && id !in ids[..k] && (k < |ids| ==> ids[k] == id)
    ensures RemoveFirst(ids, id) == if k < |ids| then ids[..k] + ids[k + 1..] else ids
    decreases k
  {
    hide RemoveFirst;
    RemoveNext(ids, id);
    if k == 0 {
      if ids != [] {
        assert ids[..0] + ids[1..] == ids[1..];
      }
    } else {
      AllBut(ids, k);
      RemovedFirst(ids[1..], id, k - 1);
    }
  }

  /** Where the default APN stands in the list first, or the length when it does not. */
  lemma {:induction false} DefaultStands(ids: seq<int>, id: int) returns (k: nat)
    ensures k <= |ids| && id !in ids[..k] && (k < |ids| ==> ids[k] == id)
    decreases |ids|
  {
    if ids == [] || ids[0] == id {
      k := 0;
    } else {
      k := DefaultStands(ids[1..], id);
      k := k + 1;
      assert ids[..k] == [ids[0]] + ids[1..][..k - 1];
    }
  }

  /** The candidates by position, when the default stands at k. */
  lemma CandidatesAt(s: Subscriber, k: nat)
    requires var list := s.apnList; k <= |list| && s.defaultApn !in list[..k] && (k < |list| ==> list[k] == s.defaultApn)
    ensures var list, ids := s.apnList, Candidates(s);
            && |ids| == (if k < |list| then |list| else |list| + 1) && ids[0] == s.defaultApn
            && forall j :: 0 < j < |ids| ==> ids[j] == list[if j - 1 < k then j - 1 else j]
  {
    RemovedFirst(s.apnList, s.defaultApn, k);
    hide RemoveFirst;
  }

  /** The default APN is tried first, whether or not the list has it. */
  lemma DefaultComesFirst(d: Directory, imsi: string, apn: string)
    requires imsi in d.subscribers && Stops(d, d.subscribers[imsi].defaultApn, apn)
    ensures var s := d.subscribers[imsi]; Resolve(d, imsi, apn) == Found(d, s, s.defaultApn)
  {
    hide Stops, RemoveFirst;
    ResolveFirst(d, Candidates(d.subscribers[imsi]), apn, 0);
  }

  /** Then the list is tried in its order: the first of that name, unless an unknown one stands
      before it. */
  lemma ListComesInOrder(d: Directory, imsi: string, apn: string, i: nat)
    requires imsi in d.subscribers && !Stops(d, d.subscribers[imsi].defaultApn, apn)
    requires var list := d.subscribers[imsi].apnList;
             i < |list| && Stops(d, list[i], apn) && forall j :: 0 <= j < i ==> !Stops(d, list[j], apn)
    ensures var s := d.subscribers[imsi]; Resolve(d, imsi, apn) == Found(d, s, s.apnList[i])
  {
    hide Stops, Candidates, ResolveFrom;
    var s := d.subscribers[imsi];
    var k := DefaultStands(s.apnList, s.defaultApn);
    CandidatesAt(s, k);
    var ids := Candidates(s);
    var at := if k < i then i else i + 1;
    assert i != k;
    assert ids[at] == s.apnList[i];
    ResolveFirst(d, ids, apn, at);
  }

  /** When none has the name, the last is taken of what remains of the list without the first
      occurrence of the default, and the default when nothing remains. */
  lemma NoneTakesLast(d: Directory, imsi: string, apn: string)
    requires imsi in d.subscribers && !Stops(d, d.subscribers[imsi].defaultApn, apn)
    requires forall id :: id in d.subscribers[imsi].apnList ==> !Stops(d, id, apn)
    ensures var s := d.subscribers[imsi];
            var list, n := s.apnList, |s.apnList|;
            Resolve(d, imsi, apn) == Some((s.id,
              if n == 0 then s.defaultApn
              else if list[n - 1] != s.defaultApn || s.defaultApn in list[..n - 1] then list[n - 1]
              else if n == 1 then s.defaultApn
              else list[n - 2]))
  {
    hide Stops, Candidates, ResolveFrom;
    var s := d.subscribers[imsi];
    var list, n := s.apnList, |s.apnList|;
    var k := DefaultStands(list, s.defaultApn);
    CandidatesAt(s, k);
    var ids := Candidates(s);
    assert forall j :: 0 <= j < n ==> list[j] in list;
    ResolveLast(d, ids, apn);
    if n > 0 && k == n - 1 {
      assert list[..n - 1] == list[..k];
    } else if k < n {
      assert list[..n - 1][k] == s.defaultApn;
    } else if n > 0 {
      assert list[..k] == list;
      assert list[n - 1] in list;
    }
  }

  /** So the one APN of the subscriber that bears the name is found, wherever it stands. */
  lemma OnlyBearerIsFound(d: Directory, imsi: string, apn: string, id: int)
    requires imsi in d.subscribers && Bears(d, id, apn)
    requires var s := d.subscribers[imsi];
             && (id == s.defaultApn || id in s.apnList)
             && (forall x :: x == s.defaultApn || x in s.apnList ==> x in d.apns)
             && (forall x :: (x == s.defaultApn || x in s.apnList) && Bears(d, x, apn) ==> x == id)
    ensures Resolve(d, imsi, apn) == Some((d.subscribers[imsi].id, id))
  {
    hide Resolve, SameLetter;
    var s := d.subscribers[imsi];
    if id == s.defaultApn {
      DefaultComesFirst(d, imsi, apn);
    } else {
      var k := DefaultStands(s.apnList, id);
      assert s.apnList[..|s.apnList|] == s.apnList;
      forall j | 0 <= j < k
        ensures !Stops(d, s.apnList[j], apn)
      {
        assert s.apnList[j] in s.apnList[..k] && s.apnList[j] in s.apnList;
      }
      ListComesInOrder(d, imsi, apn, k);
    }
  }

  // ------------------------------------------------------- the table as a value

  /** Rows the duplicate check deletes: those with the new IP and those without any. */
  predicate Superseded(r: Row, routing: string) {
    r.routing == routing || r.routing == ""
  }

  function Purge(rows: seq<Row>, routing: string): seq<Row> {
    if rows == [] then []
    else Purge(rows[..|rows| - 1], routing)
         + (if Superseded(rows[|rows| - 1], routing) then [] else [rows[|rows| - 1]])
  }

  lemma PurgeEnds(rows: seq<Row>, routing: string)
    ensures Purge(rows[..0], routing) + rows[0..] == rows
    ensures Purge(rows[..|rows|], routing) + rows[|rows|..] == Purge(rows, routing)
  {
    assert rows[..|rows|] == rows;
  }

  lemma PurgeNext(rows: seq<Row>, k: nat, routing: string)
    requires k < |rows|
    ensures Purge(rows[..k + 1], routing)
         == Purge(rows[..k], routing) + if Superseded(rows[k], routing) then [] else [rows[k]]
    ensures rows[k..] == [rows[k]] + rows[k + 1..]
  {
    assert rows[..k + 1][..k] == rows[..k];
  }

  predicate HasKey(r: Row, key: (int, int)) {
    r.subscriberId == key.0 && r.apnId == key.1
  }

  /** The position of the first row with the key, or the length when there is none. */
  function Find(rows: seq<Row>, key: (int, int)): (i: nat)
    ensures i <= |rows|
    ensures i < |rows| ==> HasKey(rows[i], key)
    ensures forall j :: 0 <= j < i ==> !HasKey(rows[j], key)
  {
    if rows == [] then 0 else if HasKey(rows[0], key) then 0 else 1 + Find(rows[1..], key)
  }

  function Without(rows: seq<Row>, i: nat): seq<Row>
    requires i < |rows|
  {
    rows[..i] + rows[i + 1..]
  }

  lemma WithoutMiddle(a: seq<Row>, x: Row, b: seq<Row>)
    ensures Without(a + ([x] + b), |a|) == a + b
    ensures (a + [x]) + b == a + ([x] + b)
    ensures (a + ([x] + b))[|a|] == x && |a| < |a + ([x] + b)|
  {
  }

  function NewRow(id: nat, key: (int, int), c: Call): Row {
    Row(id, key.0, key.1, Str(c.session), Str(c.routing), Str(c.pgw), Str(c.realm), Str(c.peer))
  }

  predicate MentionsNone(s: string) {
    exists i :: 0 <= i < |s| && OccursAt(s, "None", i)
  }

  /** The assertions an overwriting call has to pass. */
  predicate PgwOk(pgw: string) {
    |pgw| > 0 && !MentionsNone(pgw)
  }

  predicate ChecksDuplicates(c: Call) {
    c.pgw.Some? && c.pgw.value != "" && c.routing.Some? && c.routing.value != ""
  }

  function AfterPurge(rows: seq<Row>, c: Call): seq<Row> {
    if ChecksDuplicates(c) then Purge(rows, c.routing.value) else rows
  }

  /** The write a call makes once its key is known. */
  function Write(rows: seq<Row>, freshId: nat, key: (int, int), c: Call): seq<Row> {
    var i := Find(rows, key);
    if i == |rows| then (if c.pgw.None? then rows else rows + [NewRow(freshId, key, c)])
    else if c.pgw.None? || !PgwOk(c.pgw.value) then Without(rows, i)
    else rows[i := NewRow(rows[i].id, key, c)]
  }

  /** The table after a call. */
  function Apply(d: Directory, rows: seq<Row>, freshId: nat, c: Call): seq<Row> {
    if c.imsi !in d.subscribers then rows
    else
      var purged := AfterPurge(rows, c);
      var key := Resolve(d, c.imsi, c.apn);
      if key.None? then purged else Write(purged, freshId, key.value, c)
  }

  // ---------------------------------------------------------------- the class

  predicate IdsBelow(rows: seq<Row>, nextId: nat) {
    && (forall i :: 0 <= i < |rows| ==> rows[i].id < nextId)
    && (forall i, j :: 0 <= i < j < |rows| ==> rows[i].id != rows[j].id)
  }

  class Table {
    var rows: seq<Row>
    var nextId: nat

    ghost predicate Valid()
      reads this
    {
      IdsBelow(rows, nextId)
    }

    constructor ()
      ensures Valid() && rows == []
    {
      rows, nextId := [], 1;
    }

    method IndexOfId(id: nat) returns (i: nat)
      ensures i <= |rows|
      ensures i < |rows| ==> rows[i].id == id
      ensures forall j :: 0 <= j < i ==> rows[j].id != id
    {
      i := 0;
      while i < |rows| && rows[i].id != id
        invariant i <= |rows| && forall j :: 0 <= j < i ==> rows[j].id != id
      {
        i := i + 1;
      }
    }

    /** `DeleteObj`: raises when there is no such row. */
    method DeleteObj(id: nat) returns (outcome: Outcome)
      requires Valid()
      modifies this`rows
      ensures Valid()
      ensures outcome == Done <==> exists i :: 0 <= i < |old(rows)| && old(rows)[i].id == id
      ensures outcome == Raised ==> rows == old(rows)
      ensures forall i :: 0 <= i < |old(rows)| && old(rows)[i].id == id ==> rows == Without(old(rows), i)
    {
      var i := IndexOfId(id);
      if i == |rows| {
        return Raised;
      }
      rows := rows[..i] + rows[i + 1..];
      outcome := Done;
    }

    /** `GetObj` by the key, as `Get_Serving_APN`: the first match, raising without one. */
    method GetServingApn(key: (int, int)) returns (row: Option<Row>)
      ensures var i := Find(rows, key); row == if i < |rows| then Some(rows[i]) else None
    {
      for i := 0 to |rows|
        invariant forall j :: 0 <= j < i ==> !HasKey(rows[j], key)
      {
        if HasKey(rows[i], key) {
          return Some(rows[i]);
        }
      }
      row := None;
    }

    /** The duplicate check: every row it rejects is deleted by its id. */
    method DeleteSuperseded(routing: string)
      requires Valid()
      modifies this`rows
      ensures Valid() && rows == Purge(old(rows), routing)
    {
      hide Purge, Superseded;
      var all := rows;
      PurgeEnds(all, routing);
      for k := 0 to |all|
        invariant Valid() && rows == Purge(all[..k], routing) + all[k..]
      {
        PurgeNext(all, k, routing);
        DeleteIfSuperseded(Purge(all[..k], routing), all[k], all[k + 1..], routing);
      }
    }

    /** One turn of the duplicate check, on the row between those kept and those to come. */
    method DeleteIfSuperseded(ghost kept: seq<Row>, row: Row, ghost rest: seq<Row>, routing: string)
      requires Valid() && rows == kept + ([row] + rest)
      modifies this`rows
      ensures Valid()
      ensures rows == (kept + if Superseded(row, routing) then [] else [row]) + rest
    {
      WithoutMiddle(kept, row, rest);
      if Superseded(row, routing) {
        var outcome := DeleteObj(row.id);
      }
    }

    /** The search for the APN of a call among the subscriber's APNs. */
    static method ResolveApn(d: Directory, ids: seq<int>, name: string) returns (id: Option<int>)
      requires ids != []
      ensures id == ResolveFrom(d, ids, name)
    {
      var k := 0;
      while true
        invariant 0 <= k < |ids|
        invariant ResolveFrom(d, ids, name) == ResolveFrom(d, ids[k..], name)
        decreases |ids| - k
      {
        if ids[k] !in d.apns {
          return None;
        }
        if Lower(d.apns[ids[k]]) == Lower(name) || k == |ids| - 1 {
          return Some(ids[k]);
        }
        assert ids[k..][1..] == ids[k + 1..];
        k := k + 1;
      }
    }

    /** The last part of `Update_Serving_APN`: delete, overwrite or create. */
    method WriteRow(key: (int, int), c: Call)
      requires Valid()
      modifies this
      ensures Valid() && nextId >= old(nextId)
      ensures rows == Write(old(rows), old(nextId), key, c)
    {
      hide PgwOk, NewRow;
      var existing := GetServingApn(key);
      ghost var i := Find(rows, key);
      if existing.Some? {
        if c.pgw.Some? && PgwOk(c.pgw.value) {
          UpdateObj(existing.value.id, key, c);
        } else {
          var deleted := DeleteObj(existing.value.id);
        }
      } else if c.pgw.Some? {
        CreateObj(key, c);
      }
    }

    /** `UpdateObj` with the call's data; the row keeps its id. */
    method UpdateObj(id: nat, key: (int, int), c: Call)
      requires Valid()
      modifies this`rows
      ensures Valid()
      ensures forall i :: 0 <= i < |old(rows)| && old(rows)[i].id == id ==> rows == old(rows)[i := NewRow(id, key, c)]
      ensures (forall i :: 0 <= i < |old(rows)| ==> old(rows)[i].id != id) ==> rows == old(rows)
    {
      hide Str;
      var at := IndexOfId(id);
      if at < |rows| {
        rows := rows[at := NewRow(id, key, c)];
      }
    }

    method CreateObj(key: (int, int), c: Call)
      requires Valid()
      modifies this
      ensures Valid() && nextId > old(nextId)
      ensures rows == old(rows) + [NewRow(old(nextId), key, c)]
    {
      hide Str;
      rows, nextId := rows + [NewRow(nextId, key, c)], nextId + 1;
    }

    /** `Update_Serving_APN` */
    method UpdateServingApn(d: Directory, c: Call) returns (outcome: Outcome)
      requires Valid()
      modifies this
      ensures Valid() && nextId >= old(nextId)
      ensures rows == Apply(d, old(rows), old(nextId), c)
      ensures outcome == Done <==> Resolve(d, c.imsi, c.apn).Some?
    {
      hide Write, Purge, ResolveFrom, Candidates;
      if c.imsi !in d.subscribers {
        return Raised;
      }
      var subscriber := d.subscribers[c.imsi];
      if ChecksDuplicates(c) {
        DeleteSuperseded(c.routing.value);
      }
      var apnId := ResolveApn(d, Candidates(subscriber), c.apn);
      if apnId.None? {
        return Raised;
      }
      WriteRow((subscriber.id, apnId.value), c);
      outcome := Done;
    }

    /** `Get_UE_by_IP`: raises unless exactly one row has the address. */
    method GetUeByIp(ip: string) returns (row: Option<Row>)
      ensures row == UeByIp(rows, ip)
    {
      row := None;
      var hits := 0;
      for i := 0 to |rows|
        invariant hits == Hits(rows[..i], ip)
        invariant row == if hits > 0 then LastByIp(rows[..i], ip) else None
      {
        assert rows[..i + 1][..i] == rows[..i];
        if rows[i].routing == ip {
          hits, row := hits + 1, Some(rows[i]);
        }
      }
      assert rows[..|rows|] == rows;
      if hits != 1 {
        row := None;
      }
    }

    /** `Get_Serving_APN_By_IP`: the first row that has the address. */
    method GetServingApnByIp(ip: string) returns (row: Option<Row>)
      ensures row == FirstByIp(rows, ip)
    {
      for i := 0 to |rows|
        invariant FirstByIp(rows, ip) == FirstByIp(rows[i..], ip)
      {
        assert rows[i..][1..] == rows[i + 1..];
        if rows[i].routing == ip {
          return Some(rows[i]);
        }
      }
      row := None;
    }
  }

  function Hits(rows: seq<Row>, ip: string): nat {
    if rows == [] then 0
    else Hits(rows[..|rows| - 1], ip) + if rows[|rows| - 1].routing == ip then 1 else 0
  }

  function LastByIp(rows: seq<Row>, ip: string): Option<Row> {
    if rows == [] then None
    else if rows[|rows| - 1].routing == ip then Some(rows[|rows| - 1])
    else LastByIp(rows[..|rows| - 1], ip)
  }

  function FirstByIp(rows: seq<Row>, ip: string): Option<Row> {
    if rows == [] then None else if rows[0].routing == ip then Some(rows[0]) else FirstByIp(rows[1..], ip)
  }

  function UeByIp(rows: seq<Row>, ip: string): Option<Row> {
    if Hits(rows, ip) == 1 then LastByIp(rows, ip) else None
  }

  // -------------------------------------------------------------- invariants

  /** One row for each PDN connection. */
  predicate UniqueKeys(rows: seq<Row>) {
    forall i, j :: 0 <= i < j < |rows| ==> (rows[i].subscriberId, rows[i].apnId) != (rows[j].subscriberId, rows[j].apnId)
  }

  /** One row for each address that is not empty. */
  predicate UniqueIps(rows: seq<Row>) {
    forall i, j :: 0 <= i < j < |rows| ==> rows[i].routing == rows[j].routing ==> rows[i].routing == ""
  }

  lemma UniqueSnoc(rows: seq<Row>, x: Row)
    ensures UniqueKeys(rows + [x]) <==> UniqueKeys(rows) && forall r :: r in rows ==> !HasKey(x, (r.subscriberId, r.apnId))
    ensures UniqueIps(rows + [x]) <==> UniqueIps(rows) && forall r :: r in rows ==> r.routing == x.routing ==> x.routing == ""
  {
    var all := rows + [x];
    assert forall i :: 0 <= i < |rows| ==> all[i] == rows[i];
    assert all[|rows|] == x;
    if UniqueKeys(all) {
      assert forall i :: 0 <= i < |rows| ==> !HasKey(all[|rows|], (all[i].subscriberId, all[i].apnId));
    }
  }

  lemma {:induction false} PurgeKeeps(rows: seq<Row>, routing: string)
    ensures var p := Purge(rows, routing);
            && (forall r :: r in p <==> r in rows && r.routing != routing && r.routing != "")
            && (UniqueKeys(rows) ==> UniqueKeys(p)) && (UniqueIps(rows) ==> UniqueIps(p))
  {
    hide UniqueKeys, UniqueIps, HasKey;
    if rows == [] {
      NoneUnique();
    } else {
      var init, x := rows[..|rows| - 1], rows[|rows| - 1];
      PurgeKeeps(init, routing);
      assert rows == init + [x];
      UniqueSnoc(init, x);
      UniqueSnoc(Purge(init, routing), x);
      assert Purge(init, routing) + [] == Purge(init, routing);
    }
  }

  lemma NoneUnique()
    ensures UniqueKeys([]) && UniqueIps([])
  {
  }

  /** No call whatsoever makes a second row for the same subscriber and APN. */
  lemma WriteKeepsKeys(rows: seq<Row>, freshId: nat, key: (int, int), c: Call)
    requires UniqueKeys(rows)
    ensures UniqueKeys(Write(rows, freshId, key, c))
  {
    hide Str, PgwOk;
    var i := Find(rows, key);
    assert NewRow(freshId, key, c).subscriberId == key.0 && NewRow(freshId, key, c).apnId == key.1;
  }

  lemma KeysStayUnique(d: Directory, rows: seq<Row>, freshId: nat, c: Call)
    requires UniqueKeys(rows)
    ensures UniqueKeys(Apply(d, rows, freshId, c))
  {
    hide Write, Purge, UniqueKeys, UniqueIps, Superseded;
    if ChecksDuplicates(c) {
      PurgeKeeps(rows, c.routing.value);
    }
    var key := Resolve(d, c.imsi, c.apn);
    if key.Some? {
      WriteKeepsKeys(AfterPurge(rows, c), freshId, key.value, c);
    }
  }

  /** The calls that keep addresses unique: those that end a connection, those with an empty
      address, and those that name a gateway and an address, which are checked. */
  predicate SafeForIps(c: Call) {
    c.pgw.None? || c.routing == Some("") || (c.pgw.value != "" && c.routing.Some?)
  }

  lemma WriteKeepsIps(rows: seq<Row>, freshId: nat, key: (int, int), c: Call)
    requires UniqueIps(rows)
    requires c.pgw.None? || Str(c.routing) == "" || forall r :: r in rows ==> r.routing != Str(c.routing)
    ensures UniqueIps(Write(rows, freshId, key, c))
  {
    hide PgwOk, HasKey;
    var i := Find(rows, key);
    assert NewRow(freshId, key, c).routing == Str(c.routing);
  }

  lemma IpsStayUnique(d: Directory, rows: seq<Row>, freshId: nat, c: Call)
    requires UniqueIps(rows) && SafeForIps(c)
    ensures UniqueIps(Apply(d, rows, freshId, c))
  {
    hide Write, Purge, UniqueKeys, UniqueIps;
    if ChecksDuplicates(c) {
      PurgeKeeps(rows, c.routing.value);
    }
    var key := Resolve(d, c.imsi, c.apn);
    if key.Some? {
      WriteKeepsIps(AfterPurge(rows, c), freshId, key.value, c);
    }
  }

  lemma ResolveKnows(d: Directory, imsi: string, apn: string)
    requires Resolve(d, imsi, apn).Some?
    ensures imsi in d.subscribers
  {
  }

  // -------------------------------------------------------------- whole runs

  /** One call, with the directory at that time and the id a new row would get. */
  datatype Step = Step(d: Directory, freshId: nat, call: Call)

  /** The table after a run of calls; the directory may change between them. */
  function Run(rows: seq<Row>, steps: seq<Step>): seq<Row>
    decreases |steps|
  {
    if steps == [] then rows
    else Run(Apply(steps[0].d, rows, steps[0].freshId, steps[0].call), steps[1..])
  }

  lemma {:induction false} RunKeeps(rows: seq<Row>, steps: seq<Step>)
    requires UniqueKeys(rows) && UniqueIps(rows)
    requires forall i :: 0 <= i < |steps| ==> SafeForIps(steps[i].call)
    ensures UniqueKeys(Run(rows, steps)) && UniqueIps(Run(rows, steps))
    decreases |steps|
  {
    hide UniqueKeys, UniqueIps, Apply, SafeForIps;
    if steps != [] {
      var s := steps[0];
      KeysStayUnique(s.d, rows, s.freshId, s.call);
      IpsStayUnique(s.d, rows, s.freshId, s.call);
      RunKeeps(Apply(s.d, rows, s.freshId, s.call), steps[1..]);
    }
  }

  lemma {:induction false} HitsCount(rows: seq<Row>, ip: string)
    requires UniqueIps(rows) && ip != ""
    ensures Hits(rows, ip) <= 1
    ensures (Hits(rows, ip) == 1 <==> exists r :: r in rows && r.routing == ip)
    ensures LastByIp(rows, ip).None? <==> Hits(rows, ip) == 0
    ensures LastByIp(rows, ip).Some? ==> LastByIp(rows, ip).value in rows && LastByIp(rows, ip).value.routing == ip
  {
    if rows != [] {
      var n := |rows| - 1;
      HitsCount(rows[..n], ip);
      assert rows == rows[..n] + [rows[n]];
    }
  }

  lemma {:induction false} FirstIsIn(rows: seq<Row>, ip: string)
    ensures var f := FirstByIp(rows, ip);
            if f.Some? then f.value in rows && f.value.routing == ip
            else forall r :: r in rows ==> r.routing != ip
  {
    if rows != [] {
      FirstIsIn(rows[1..], ip);
      assert rows == [rows[0]] + rows[1..];
    }
  }

  /** In every table reached from the empty one by such calls, the lookup that insists on a
      single row succeeds exactly on the addresses served and agrees with the one that takes
      the first row. */
  lemma LookupsAgree(steps: seq<Step>, ip: string)
    requires forall i :: 0 <= i < |steps| ==> SafeForIps(steps[i].call)
    requires ip != ""
    ensures var rows := Run([], steps);
            && UniqueKeys(rows) && UniqueIps(rows)
            && UeByIp(rows, ip) == FirstByIp(rows, ip)
            && (UeByIp(rows, ip).Some? <==> exists r :: r in rows && r.routing == ip)
            && (UeByIp(rows, ip).Some? ==> UeByIp(rows, ip).value in rows && UeByIp(rows, ip).value.routing == ip)
  {
    RunKeeps([], steps);
    var rows := Run([], steps);
    HitsCount(rows, ip);
    FirstIsIn(rows, ip);
    if FirstByIp(rows, ip).Some? {
      SameRow(rows, FirstByIp(rows, ip).value, LastByIp(rows, ip).value, ip);
    }
  }

  lemma {:induction false} HitsSplit(a: seq<Row>, b: seq<Row>, ip: string)
    ensures Hits(a + b, ip) == Hits(a, ip) + Hits(b, ip)
    ensures LastByIp(a + b, ip) == if LastByIp(b, ip).Some? then LastByIp(b, ip) else LastByIp(a, ip)
    decreases |b|
  {
    if b == [] {
      assert a + b == a;
    } else {
      var n := |b| - 1;
      assert (a + b)[..|a + b| - 1] == a + b[..n] && (a + b)[|a + b| - 1] == b[n];
      HitsSplit(a, b[..n], ip);
    }
  }

  lemma {:induction false} NoHits(rows: seq<Row>, ip: string)
    requires forall r :: r in rows ==> r.routing != ip
    ensures Hits(rows, ip) == 0 && LastByIp(rows, ip).None?
    decreases |rows|
  {
    if rows != [] {
      var n := |rows| - 1;
      assert rows == rows[..n] + [rows[n]];
      NoHits(rows[..n], ip);
    }
  }

  lemma OneHit(rows: seq<Row>, ip: string, i: nat)
    requires i < |rows| && rows[i].routing == ip
    ensures Hits(rows, ip) == Hits(rows[..i], ip) + 1 + Hits(rows[i + 1..], ip)
    ensures LastByIp(rows, ip) == if LastByIp(rows[i + 1..], ip).Some? then LastByIp(rows[i + 1..], ip) else Some(rows[i])
  {
    var x := [rows[i]];
    assert Hits(x[..0], ip) == 0;
    assert Hits(x, ip) == 1 && LastByIp(x, ip) == Some(rows[i]);
    hide Hits, LastByIp;
    assert rows == (rows[..i] + x) + rows[i + 1..];
    HitsSplit(rows[..i] + x, rows[i + 1..], ip);
    HitsSplit(rows[..i], x, ip);
  }

  /** The strict lookup finds a row exactly when one row alone has the address, empty or not. */
  lemma UeByIpExactly(rows: seq<Row>, ip: string, i: nat)
    requires i < |rows| && rows[i].routing == ip
    ensures UeByIp(rows, ip) == if forall j :: 0 <= j < |rows| && j != i ==> rows[j].routing != ip then Some(rows[i]) else None
  {
    hide Hits, LastByIp;
    OneHit(rows, ip, i);
    if j :| 0 <= j < |rows| && j != i && rows[j].routing == ip {
      if j < i {
        OneHit(rows[..i], ip, j);
      } else {
        assert rows[i + 1..][j - (i + 1)] == rows[j];
        OneHit(rows[i + 1..], ip, j - (i + 1));
      }
    } else {
      NoHits(rows[..i], ip);
      NoHits(rows[i + 1..], ip);
    }
  }

  /** The other one finds the first. */
  lemma {:induction false} FirstByIpIs(rows: seq<Row>, ip: string, i: nat)
    requires i < |rows| && rows[i].routing == ip && forall j :: 0 <= j < i ==> rows[j].routing != ip
    ensures FirstByIp(rows, ip) == Some(rows[i])
    decreases i
  {
    if i > 0 {
      FirstByIpIs(rows[1..], ip, i - 1);
    }
  }

  lemma SameRow(rows: seq<Row>, a: Row, b: Row, ip: string)
    requires UniqueIps(rows) && ip != ""
    requires a in rows && b in rows && a.routing == b.routing == ip
    ensures a == b
  {
  }

  lemma TwoSteps(rows: seq<Row>, a: Step, b: Step)
    ensures Run(rows, [a]) == Apply(a.d, rows, a.freshId, a.call)
    ensures Run(rows, [a, b]) == Apply(b.d, Apply(a.d, rows, a.freshId, a.call), b.freshId, b.call)
  {
    hide Apply;
    var once := Apply(a.d, rows, a.freshId, a.call);
    assert [a][1..] == [] && [a, b][1..] == [b] && [b][1..] == [];
    assert Run(once, []) == once;
    var twice := Apply(b.d, once, b.freshId, b.call);
    assert Run(twice, []) == twice;
    assert Run(once, [b]) == twice;
  }

  /** A safe call that stores an address for a connection. */
  function SafeCall(imsi: string, apn: string, routing: string): (c: Call)
    ensures SafeForIps(c) && c.pgw.Some? && PgwOk(c.pgw.value)
  {
    NothingMentioned();
    Call(imsi, apn, Some("session"), Some("pgw"), Some(routing), None, None)
  }

  lemma NothingMentioned()
    ensures !MentionsNone("pgw")
  {
  }

  /** Any other call that gets as far as writing breaks the promise: as soon as the directory
      knows another connection, a single safe call on the empty table leads to a table in which it
      makes a second row with a served address, because the duplicate check is skipped. */
  lemma UnsafeCallRepeatsIp(d: Directory, c: Call, imsi: string, apn: string, freshId: nat) returns (first: Step)
    requires !SafeForIps(c) && Resolve(d, c.imsi, c.apn).Some?
    requires Resolve(d, imsi, apn).Some? && Resolve(d, imsi, apn) != Resolve(d, c.imsi, c.apn)
    ensures first.d == d && first.freshId == 1 && SafeForIps(first.call)
    ensures UniqueKeys(Run([], [first])) && UniqueIps(Run([], [first]))
    ensures !UniqueIps(Run([], [first, Step(d, freshId, c)]))
  {
    hide Resolve, PgwOk;
    var key, other := Resolve(d, c.imsi, c.apn).value, Resolve(d, imsi, apn).value;
    ResolveKnows(d, c.imsi, c.apn);
    ResolveKnows(d, imsi, apn);
    first := Step(d, 1, SafeCall(imsi, apn, Str(c.routing)));
    var served := NewRow(1, other, first.call);
    RunKeeps([], [first]);
    assert Purge([], Str(c.routing)) == [] && Find([], other) == 0;
    assert Apply(d, [], 1, first.call) == [served] by { assert [] + [served] == [served]; }
    var second := Step(d, freshId, c);
    TwoSteps([], first, second);
    var rows := [served];
    assert Find(rows[1..], key) == 0 && Find(rows, key) == 1;
    var after := Apply(d, rows, freshId, c);
    assert after == [served, NewRow(freshId, key, c)];
    assert after[0].routing == after[1].routing != "";
  }

  /** Where every call is about the same connection, addresses stay unique whatever the calls. */
  lemma {:induction false} SoleConnectionKeepsIps(rows: seq<Row>, steps: seq<Step>, key: (int, int))
    requires UniqueKeys(rows) && forall r :: r in rows ==> HasKey(r, key)
    requires forall i :: 0 <= i < |steps| ==> Resolve(steps[i].d, steps[i].call.imsi, steps[i].call.apn) in {None, Some(key)}
    ensures UniqueIps(Run(rows, steps))
    decreases |steps|
  {
    hide Apply, Resolve, HasKey;
    if steps == [] {
      SoleRow(rows, key);
    } else {
      var s := steps[0];
      KeysStayUnique(s.d, rows, s.freshId, s.call);
      RowsKeepKey(s.d, rows, s.freshId, s.call, key);
      SoleConnectionKeepsIps(Apply(s.d, rows, s.freshId, s.call), steps[1..], key);
    }
  }

  lemma SoleRow(rows: seq<Row>, key: (int, int))
    requires UniqueKeys(rows) && forall r :: r in rows ==> HasKey(r, key)
    ensures UniqueIps(rows)
  {
    assert forall i :: 0 <= i < |rows| ==> HasKey(rows[i], key);
  }

  lemma RowsKeepKey(d: Directory, rows: seq<Row>, freshId: nat, c: Call, key: (int, int))
    requires forall r :: r in rows ==> HasKey(r, key)
    requires Resolve(d, c.imsi, c.apn) in {None, Some(key)}
    ensures forall r :: r in Apply(d, rows, freshId, c) ==> HasKey(r, key)
  {
    hide Resolve, PgwOk, Purge, Superseded;
    if ChecksDuplicates(c) {
      PurgeKeeps(rows, c.routing.value);
    }
  }

  // ------------------------------------------------------ what a call leaves

  /** The rows of the other connections after a call: all that were there, and when the call of a
      known subscriber names a gateway and an address, those that serve another address and have
      one at all. */
  lemma OthersStay(d: Directory, rows: seq<Row>, freshId: nat, c: Call, r: Row)
    requires Resolve(d, c.imsi, c.apn).Some? ==> (r.subscriberId, r.apnId) != Resolve(d, c.imsi, c.apn).value
    ensures var checked := c.imsi in d.subscribers && c.pgw.Some? && c.pgw.value != "" && c.routing.Some? && c.routing.value != "";
            r in Apply(d, rows, freshId, c) <==> r in rows && (checked ==> r.routing != c.routing.value && r.routing != "")
    ensures c.imsi !in d.subscribers ==> Apply(d, rows, freshId, c) == rows
  {
    hide PgwOk, Resolve, Purge, Write;
    if ChecksDuplicates(c) {
      PurgeKeeps(rows, c.routing.value);
    }
    if Resolve(d, c.imsi, c.apn).Some? {
      ResolveKnows(d, c.imsi, c.apn);
      WriteSpares(AfterPurge(rows, c), freshId, Resolve(d, c.imsi, c.apn).value, c, r);
    }
  }

  lemma WriteSpares(rows: seq<Row>, freshId: nat, key: (int, int), c: Call, r: Row)
    requires !HasKey(r, key)
    ensures r in Write(rows, freshId, key, c) <==> r in rows
  {
    hide PgwOk, HasKey;
    var i := Find(rows, key);
    assert HasKey(NewRow(freshId, key, c), key) by { KeyOfNew(freshId, key, c); }
    if i < |rows| {
      KeyOfNew(rows[i].id, key, c);
      WithoutKeeps(rows, i, r);
      UpdatedKeeps(rows, i, NewRow(rows[i].id, key, c), r);
    }
  }

  lemma KeyOfNew(id: nat, key: (int, int), c: Call)
    ensures HasKey(NewRow(id, key, c), key)
  {
  }

  lemma WithoutKeeps(rows: seq<Row>, i: nat, r: Row)
    requires i < |rows| && r != rows[i]
    ensures r in Without(rows, i) <==> r in rows
  {
    var less := Without(rows, i);
    assert rows == rows[..i] + [rows[i]] + rows[i + 1..];
  }

  lemma UpdatedKeeps(rows: seq<Row>, i: nat, x: Row, r: Row)
    requires i < |rows| && r != rows[i] && r != x
    ensures r in rows[i := x] <==> r in rows
  {
    assert rows == rows[..i] + [rows[i]] + rows[i + 1..];
    assert rows[i := x] == rows[..i] + [x] + rows[i + 1..];
  }

  /** An absent argument is stored as the text "None". */
  predicate Holds(s: string, v: Option<string>) {
    s == if v.Some? then v.value else "None"
  }

  predicate IsStoredBy(r: Row, c: Call) {
    && Holds(r.sessionId, c.session) && Holds(r.routing, c.routing) && Holds(r.pgw, c.pgw)
    && Holds(r.realm, c.realm) && Holds(r.peer, c.peer)
  }

  /** The gateway names an overwriting call is refused for: the empty one, and those with "None"
      in them. */
  lemma PgwWithNone(a: string, b: string)
    ensures !PgwOk(a + "None" + b) && !PgwOk("")
  {
    var p := a + "None" + b;
    assert p[|a|..|a| + 4] == "None";
    assert OccursAt(p, "None", |a|);
  }

  lemma OnlyPgwWithNone(p: string) returns (a: string, b: string)
    requires !PgwOk(p) && p != ""
    ensures p == a + "None" + b
  {
    var i :| 0 <= i < |p| && OccursAt(p, "None", i);
    a, b := p[..i], p[i + 4..];
    assert p == a + p[i..i + 4] + b;
  }

  /** A call that names a gateway leaves exactly one row for its key, with the session, address,
      gateway, realm and peer it names, if the gateway is well formed or the key had no row. */
  lemma CallIsStored(d: Directory, rows: seq<Row>, freshId: nat, c: Call, r: Row)
    requires UniqueKeys(rows) && Resolve(d, c.imsi, c.apn).Some?
    requires c.pgw.Some?
    requires PgwOk(c.pgw.value) || forall s :: s in AfterPurge(rows, c) ==> !HasKey(s, Resolve(d, c.imsi, c.apn).value)
    ensures var key := Resolve(d, c.imsi, c.apn).value;
            var after := Apply(d, rows, freshId, c);
            && (r in after && HasKey(r, key) ==>
                 IsStoredBy(r, c))
            && UniqueKeys(after) && exists s :: s in after && HasKey(s, key)
  {
    hide PgwOk, Superseded, Resolve, Purge, Write, UniqueKeys, UniqueIps, HasKey;
    KeysStayUnique(d, rows, freshId, c);
    var key := Resolve(d, c.imsi, c.apn).value;
    assert c.imsi in d.subscribers by { ResolveKnows(d, c.imsi, c.apn); }
    if ChecksDuplicates(c) {
      PurgeKeeps(rows, c.routing.value);
    }
    WriteStores(AfterPurge(rows, c), freshId, key, c, r);
  }

  lemma WriteStores(rows: seq<Row>, freshId: nat, key: (int, int), c: Call, r: Row)
    requires UniqueKeys(rows) && c.pgw.Some? && (PgwOk(c.pgw.value) || forall s :: s in rows ==> !HasKey(s, key))
    ensures var after := Write(rows, freshId, key, c);
            && (r in after && HasKey(r, key) ==>
                 IsStoredBy(r, c))
            && exists s :: s in after && HasKey(s, key)
  {
    hide PgwOk;
    WriteKeepsKeys(rows, freshId, key, c);
    var after := Write(rows, freshId, key, c);
    var i := Find(rows, key);
    assert i < |rows| ==> rows[i] in rows;
    assert after[i] == NewRow(if i == |rows| then freshId else rows[i].id, key, c);
    assert HasKey(after[i], key);
    if r in after && HasKey(r, key) {
      var j :| 0 <= j < |after| && after[j] == r;
      assert j == i;
    }
  }

  /** A call without a gateway leaves no row for its key, and so does one with a malformed
      gateway name when there was a row. */
  lemma CallEnds(d: Directory, rows: seq<Row>, freshId: nat, c: Call)
    requires UniqueKeys(rows) && Resolve(d, c.imsi, c.apn).Some?
    requires c.pgw.None? || (!PgwOk(c.pgw.value)
             && exists r :: r in AfterPurge(rows, c) && HasKey(r, Resolve(d, c.imsi, c.apn).value))
    ensures forall r :: r in Apply(d, rows, freshId, c) ==> !HasKey(r, Resolve(d, c.imsi, c.apn).value)
  {
    hide PgwOk, Superseded, Resolve, Purge, Write, UniqueKeys, UniqueIps, HasKey;
    assert c.imsi in d.subscribers by { ResolveKnows(d, c.imsi, c.apn); }
    if ChecksDuplicates(c) {
      PurgeKeeps(rows, c.routing.value);
    }
    WriteEnds(AfterPurge(rows, c), freshId, Resolve(d, c.imsi, c.apn).value, c);
  }

  lemma WriteEnds(rows: seq<Row>, freshId: nat, key: (int, int), c: Call)
    requires UniqueKeys(rows)
    requires c.pgw.None? || (!PgwOk(c.pgw.value) && exists r :: r in rows && HasKey(r, key))
    ensures forall r :: r in Write(rows, freshId, key, c) ==> !HasKey(r, key)
  {
    hide PgwOk, NewRow;
    var i := Find(rows, key);
    if i < |rows| {
      var less := Without(rows, i);
      assert forall j :: 0 <= j < |less| ==> less[j] == rows[if j < i then j else j + 1];
      assert forall j :: 0 <= j < |rows| && j != i ==> !HasKey(rows[j], key);
    }
  }
}

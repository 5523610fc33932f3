/**
  The events that drive the table of PDN connections: the initial and terminating
  Credit-Control-Requests on Gx and the updates received from a redundant peer.
  A terminating event is guarded by the session id stored in the table.
 */
module PdnSessions {
  import opened PyText
  import opened ServingApn

  /** `cscfCleared` tells whether the S-CSCF and P-CSCF updates, which precede the
      termination of an IMS session, return without an error. */
  datatype Event =
    | Initiate(imsi: string, apn: string, session: string, originHost: string, ueIp: string, realm: string, peer: string)
    | Terminate(imsi: string, apn: string, session: string, cscfCleared: bool)
    | GeoUpdate(call: Call)

  // ------------------------------------------------------------ the guard

  /** The ids of the APNs that bear exactly this name. */
  function IdsNamed(d: Directory, name: string): set<int> {
    set id | id in d.apns && d.apns[id] == name
  }

  /** `Get_APN_by_Name`: raises unless exactly one APN has the name. */
  function ApnByName(d: Directory, name: string): (r: Option<int>)
    ensures r.Some? ==> IdsNamed(d, name) == {r.value}
  {
    var ids := IdsNamed(d, name);
    if exists id :: id in ids && ids == {id} then
      var id :| id in ids && ids == {id};
      Some(id)
    else None
  }

  /** The key of the row whose session id a terminating event is compared with. */
  function GuardKey(d: Directory, imsi: string, apn: string): Option<(int, int)> {
    if imsi !in d.subscribers then None
    else
      var id :- ApnByName(d, apn);
      Some((d.subscribers[imsi].id, id))
  }

  function EndSession(d: Directory, rows: seq<Row>, freshId: nat, c: Call): seq<Row> {
    var key := GuardKey(d, c.imsi, c.apn);
    if key.None? then rows
    else
      var i := Find(rows, key.value);
      if i < |rows| && c.session == Some(rows[i].sessionId) then Apply(d, rows, freshId, c) else rows
  }

  predicate NamesIms(apn: string) {
    exists i :: 0 <= i < |apn| && OccursAt(apn, "ims", i)
  }

  function InitiateCall(e: Event): Call
    requires e.Initiate?
  {
    Call(e.imsi, e.apn, Some(e.session), Some(e.originHost), Some(e.ueIp), Some(e.realm), Some(e.peer))
  }

  function TerminateCall(e: Event): Call
    requires e.Terminate?
  {
    Call(e.imsi, e.apn, Some(e.session), None, Some(""), None, None)
  }

  /** The table after an event. */
  function Next(d: Directory, rows: seq<Row>, freshId: nat, e: Event): seq<Row> {
    match e
    case Initiate(_, _, _, _, _, _, _) => Apply(d, rows, freshId, InitiateCall(e))
    case Terminate(_, apn, _, cleared) =>
      if NamesIms(apn) && !cleared then rows else EndSession(d, rows, freshId, TerminateCall(e))
    case GeoUpdate(call) =>
      if call.pgw.None? then EndSession(d, rows, freshId, call) else Apply(d, rows, freshId, call)
  }

  method EndGuarded(t: Table, d: Directory, c: Call)
    requires t.Valid()
    modifies t
    ensures t.Valid() && t.rows == EndSession(d, old(t.rows), old(t.nextId), c)
  {
    var key := GuardKey(d, c.imsi, c.apn);
    if key.None? {
      return;
    }
    var serving := t.GetServingApn(key.value);
    if serving.Some? && c.session == Some(serving.value.sessionId) {
      var outcome := t.UpdateServingApn(d, c);
    }
  }

  /** The table-changing part of `Answer_16777238_272` and of the geo-redundancy handler. */
  method Handle(t: Table, d: Directory, e: Event)
    requires t.Valid()
    modifies t
    ensures t.Valid() && t.rows == Next(d, old(t.rows), old(t.nextId), e)
  {
    hide EndSession, Apply, NamesIms;
    match e {
      case Initiate(_, _, _, _, _, _, _) =>
        var outcome := t.UpdateServingApn(d, InitiateCall(e));
      case Terminate(_, apn, _, cleared) =>
        if !NamesIms(apn) || cleared {
          EndGuarded(t, d, TerminateCall(e));
        }
      case GeoUpdate(call) =>
        if call.pgw.None? {
          EndGuarded(t, d, call);
        } else {
          var outcome := t.UpdateServingApn(d, call);
        }
    }
  }

  // ------------------------------------------------------------ one event

  /** The guard looks at the row that would be deleted. */
  predicate GuardFits(d: Directory, imsi: string, apn: string) {
    var guard, key := GuardKey(d, imsi, apn), Resolve(d, imsi, apn);
    guard.Some? && key.Some? ==> guard == key
  }

  lemma EndWrites(d: Directory, rows: seq<Row>, freshId: nat, c: Call)
    requires c.pgw.None?
    ensures var key := Resolve(d, c.imsi, c.apn);
            Apply(d, rows, freshId, c) ==
            if key.None? || Find(rows, key.value) == |rows| then rows else Without(rows, Find(rows, key.value))
  {
    hide ResolveFrom, Candidates;
  }

  /** A terminating event removes a row only if it names the session stored in it, and adds or
      alters none. */
  lemma EndRemovesOnlyNamed(d: Directory, rows: seq<Row>, freshId: nat, c: Call, r: Row)
    requires c.pgw.None? && GuardFits(d, c.imsi, c.apn)
    ensures var after := EndSession(d, rows, freshId, c);
            && (r in after ==> r in rows)
            && (r in rows && r !in after ==> c.session == Some(r.sessionId))
  {
    hide Apply, Resolve, GuardKey, Without, Find;
    EndWrites(d, rows, freshId, c);
    var key := Resolve(d, c.imsi, c.apn);
    if key.Some? && Find(rows, key.value) < |rows| {
      WithoutMembers(rows, Find(rows, key.value), r);
    }
  }

  lemma WithoutMembers(rows: seq<Row>, i: nat, r: Row)
    requires i < |rows|
    ensures r in Without(rows, i) ==> r in rows
    ensures r in rows && r !in Without(rows, i) ==> r == rows[i]
  {
    var less := Without(rows, i);
    assert forall j :: 0 <= j < |rows| && j != i ==> rows[j] == less[if j < i then j else j - 1];
  }

  /** Names are unique ignoring case. */
  predicate NamesDistinct(d: Directory) {
    forall i, j :: i in d.apns && j in d.apns && Lower(d.apns[i]) == Lower(d.apns[j]) ==> i == j
  }

  /** The subscriber's list has an APN of that name. */
  predicate Listed(d: Directory, imsi: string, apn: string) {
    && imsi in d.subscribers
    && exists id :: (id == d.subscribers[imsi].defaultApn || id in d.subscribers[imsi].apnList) && id in d.apns && d.apns[id] == apn
  }

  lemma {:induction false} ResolveFindsListed(d: Directory, ids: seq<int>, name: string, id: int)
    requires id in ids && id in d.apns && d.apns[id] == name && NamesDistinct(d)
    ensures var r := ResolveFrom(d, ids, name); r.None? || r == Some(id)
    decreases |ids|
  {
    assert Lower(d.apns[id]) == Lower(name);
    if ids[0] in d.apns && Lower(d.apns[ids[0]]) != Lower(name) {
      ResolveFindsListed(d, ids[1..], name, id);
    } else if ids[0] in d.apns {
      assert Lower(d.apns[ids[0]]) == Lower(d.apns[id]);
      assert ids[0] == id;
    }
  }

  lemma CandidatesAre(s: Subscriber, id: int)
    ensures id in Candidates(s) <==> id == s.defaultApn || id in s.apnList
  {
    var k := DefaultStands(s.apnList, s.defaultApn);
    RemovedFirst(s.apnList, s.defaultApn, k);
    hide RemoveFirst;
    if k < |s.apnList| {
      InThreeParts(s.apnList, k, id);
    }
  }

  lemma InThreeParts(ids: seq<int>, k: nat, id: int)
    requires k < |ids|
    ensures id in ids <==> id in ids[..k] + ids[k + 1..] || id == ids[k]
  {
    assert ids == ids[..k] + [ids[k]] + ids[k + 1..];
  }

  /** For APN names on the subscriber's list, all distinct ignoring case, the guard fits. */
  lemma ListedNamesFit(d: Directory, imsi: string, apn: string)
    requires NamesDistinct(d) && Listed(d, imsi, apn)
    ensures GuardFits(d, imsi, apn)
  {
    hide ResolveFrom, RemoveFirst;
    var s := d.subscribers[imsi];
    var id :| (id == s.defaultApn || id in s.apnList) && id in d.apns && d.apns[id] == apn;
    assert id in Candidates(s) by { CandidatesAre(s, id); }
    ResolveFindsListed(d, Candidates(s), apn, id);
    var named := ApnByName(d, apn);
    if named.Some? {
      assert id in IdsNamed(d, apn);
      assert id == named.value;
    }
  }

  // ------------------------------------------------- what each event does

  /** The ending events: a termination on Gx that is not held up by the IMS functions, and a
      received update without a gateway. */
  predicate Ends(e: Event) {
    match e
    case Initiate(_, _, _, _, _, _, _) => false
    case Terminate(_, apn, _, cleared) =>
      cleared || forall i :: 0 <= i < |apn| - 2 ==> !(apn[i] == 'i' && apn[i + 1] == 'm' && apn[i + 2] == 's')
    case GeoUpdate(call) => call.pgw.None?
  }

  /** The subscriber, APN name and session an event is about. */
  function About(e: Event): (string, string, Option<string>) {
    match e
    case Initiate(imsi, apn, session, _, _, _, _) => (imsi, apn, Some(session))
    case Terminate(imsi, apn, session, _) => (imsi, apn, Some(session))
    case GeoUpdate(call) => (call.imsi, call.apn, call.session)
  }

  /** An APN of exactly that name, and no other of that name. */
  predicate OnlyNamed(d: Directory, id: int, name: string) {
    id in d.apns && d.apns[id] == name && forall x :: x in d.apns && d.apns[x] == name ==> x == id
  }

  lemma GuardIs(d: Directory, imsi: string, apn: string, id: int)
    requires imsi in d.subscribers && OnlyNamed(d, id, apn)
    ensures GuardKey(d, imsi, apn) == Some((d.subscribers[imsi].id, id))
  {
    assert id in IdsNamed(d, apn);
    assert forall x :: x in IdsNamed(d, apn) ==> x == id;
    assert IdsNamed(d, apn) == {id};
    assert ApnByName(d, apn).Some?;
  }

  lemma NoIms(apn: string)
    requires forall i :: 0 <= i < |apn| - 2 ==> !(apn[i] == 'i' && apn[i + 1] == 'm' && apn[i + 2] == 's')
    ensures !NamesIms(apn)
  {
    forall i | 0 <= i < |apn|
      ensures !OccursAt(apn, "ims", i)
    {
      if i + 3 <= |apn| {
        assert apn[i..i + 3] == [apn[i], apn[i + 1], apn[i + 2]];
      }
    }
  }

  lemma EndsIs(d: Directory, rows: seq<Row>, freshId: nat, e: Event)
    requires Ends(e)
    ensures exists c: Call :: c.pgw.None? && (c.imsi, c.apn, c.session) == About(e) && Next(d, rows, freshId, e) == EndSession(d, rows, freshId, c)
  {
    hide EndSession, Apply, NamesIms;
    var c := if e.Terminate? then TerminateCall(e) else e.call;
    if e.Terminate? && !e.cscfCleared {
      NoIms(e.apn);
    }
    assert c.pgw.None? && (c.imsi, c.apn, c.session) == About(e);
    assert Next(d, rows, freshId, e) == EndSession(d, rows, freshId, c);
  }

  /** An ending event that names the session stored for its connection removes that row and no
      other, wherever it stands in the table. */
  lemma NamedSessionEnds(d: Directory, rows: seq<Row>, freshId: nat, e: Event, id: int, r: Row) returns (i: nat)
    requires Ends(e) && UniqueKeys(rows) && r in rows
    requires var (imsi, apn, session) := About(e);
             && imsi in d.subscribers && OnlyNamed(d, id, apn) && Resolve(d, imsi, apn) == Some((d.subscribers[imsi].id, id))
             && r.subscriberId == d.subscribers[imsi].id && r.apnId == id && session == Some(r.sessionId)
    ensures i < |rows| && rows[i] == r && forall j :: 0 <= j < |rows| && j != i ==> rows[j] != r
    ensures Next(d, rows, freshId, e) == rows[..i] + rows[i + 1..]
  {
    hide Apply, Resolve, GuardKey, Next, Ends, OnlyNamed, Find;
    EndsIs(d, rows, freshId, e);
    var c: Call :| c.pgw.None? && (c.imsi, c.apn, c.session) == About(e) && Next(d, rows, freshId, e) == EndSession(d, rows, freshId, c);
    GuardIs(d, c.imsi, c.apn, id);
    EndWrites(d, rows, freshId, c);
    assert HasKey(r, (d.subscribers[c.imsi].id, id));
    i := OnlyRow(rows, (d.subscribers[c.imsi].id, id), r);
  }

  lemma OnlyRow(rows: seq<Row>, key: (int, int), r: Row) returns (i: nat)
    requires UniqueKeys(rows) && r in rows && HasKey(r, key)
    ensures i == Find(rows, key) < |rows| && rows[i] == r
    ensures forall j :: 0 <= j < |rows| && j != i ==> rows[j] != r
  {
    var j :| 0 <= j < |rows| && rows[j] == r;
    i := Find(rows, key);
    assert i <= j;
  }

  /** An ending event changes nothing when no APN, or more than one, has exactly its APN name, when
      the connection has no row, or when that row stores another session. */
  lemma OtherwiseNothingEnds(d: Directory, rows: seq<Row>, freshId: nat, e: Event)
    requires Ends(e)
    requires var (imsi, apn, session) := About(e);
             || imsi !in d.subscribers
             || (forall id :: id in d.apns ==> d.apns[id] != apn)
             || (exists a, b :: a in d.apns && b in d.apns && a != b && d.apns[a] == d.apns[b] == apn)
             || (exists id :: OnlyNamed(d, id, apn)
                   && forall r :: r in rows && HasKey(r, (d.subscribers[imsi].id, id)) ==> session != Some(r.sessionId))
    ensures Next(d, rows, freshId, e) == rows
  {
    hide Apply, Resolve, Next, Ends, Find;
    EndsIs(d, rows, freshId, e);
    var c: Call :| c.pgw.None? && (c.imsi, c.apn, c.session) == About(e) && Next(d, rows, freshId, e) == EndSession(d, rows, freshId, c);
    if c.imsi in d.subscribers {
      if id :| OnlyNamed(d, id, c.apn) && forall r :: r in rows && HasKey(r, (d.subscribers[c.imsi].id, id)) ==> c.session != Some(r.sessionId) {
        GuardIs(d, c.imsi, c.apn, id);
        var i := Find(rows, (d.subscribers[c.imsi].id, id));
        assert i < |rows| ==> rows[i] in rows;
      } else if forall id :: id in d.apns ==> d.apns[id] != c.apn {
        assert IdsNamed(d, c.apn) == {};
      } else {
        var a, b :| a in d.apns && b in d.apns && a != b && d.apns[a] == d.apns[b] == c.apn;
        assert a in IdsNamed(d, c.apn) && b in IdsNamed(d, c.apn);
      }
    }
  }

  /** A termination of an IMS session stays without effect when clearing the IMS functions fails. */
  lemma ImsHoldsUp(d: Directory, rows: seq<Row>, freshId: nat, imsi: string, before: string, behind: string, session: string)
    ensures Next(d, rows, freshId, Terminate(imsi, before + "ims" + behind, session, false)) == rows
  {
    hide EndSession;
    var apn := before + "ims" + behind;
    assert apn[|before|..|before| + 3] == "ims";
    assert OccursAt(apn, "ims", |before|);
  }

  /** An initiation is stored whole: session, address, gateway, realm and peer. */
  lemma InitiationIsStored(d: Directory, rows: seq<Row>, freshId: nat, e: Event, r: Row)
    requires e.Initiate? && UniqueKeys(rows) && Resolve(d, e.imsi, e.apn).Some? && PgwOk(e.originHost)
    ensures var after, key := Next(d, rows, freshId, e), Resolve(d, e.imsi, e.apn).value;
            && UniqueKeys(after) && (exists s :: s in after && HasKey(s, key))
            && (r in after && HasKey(r, key) ==>
                  && r.sessionId == e.session && r.routing == e.ueIp && r.pgw == e.originHost
                  && r.realm == e.realm && r.peer == e.peer)
  {
    hide Apply, Resolve, PgwOk, HasKey, UniqueKeys;
    CallIsStored(d, rows, freshId, InitiateCall(e), r);
  }

  /** So is a received update that names a gateway, as far as it says. */
  lemma GeoUpdateIsStored(d: Directory, rows: seq<Row>, freshId: nat, c: Call, r: Row)
    requires UniqueKeys(rows) && Resolve(d, c.imsi, c.apn).Some? && c.pgw.Some? && PgwOk(c.pgw.value)
    requires c.session.Some? && c.routing.Some? && c.realm.Some? && c.peer.Some?
    ensures var after, key := Next(d, rows, freshId, GeoUpdate(c)), Resolve(d, c.imsi, c.apn).value;
            && UniqueKeys(after) && (exists s :: s in after && HasKey(s, key))
            && (r in after && HasKey(r, key) ==>
                  && Some(r.sessionId) == c.session && Some(r.routing) == c.routing && Some(r.pgw) == c.pgw
                  && Some(r.realm) == c.realm && Some(r.peer) == c.peer)
  {
    hide Apply, Resolve, PgwOk, HasKey, UniqueKeys;
    CallIsStored(d, rows, freshId, c, r);
  }

  // ------------------------------------------------------------ whole runs

  datatype Occurrence = Occurrence(d: Directory, freshId: nat, event: Event)

  function Run(rows: seq<Row>, run: seq<Occurrence>): seq<Row>
    decreases |run|
  {
    if run == [] then rows
    else Run(Next(run[0].d, rows, run[0].freshId, run[0].event), run[1..])
  }

  /** The directory before the subscriber's default APN was changed. */
  function WithDefault(d: Directory, imsi: string, apnId: int): Directory
    requires imsi in d.subscribers
  {
    d.(subscribers := d.subscribers[imsi := d.subscribers[imsi].(defaultApn := apnId)])
  }

  lemma DefaultResolves(d: Directory, imsi: string, apn: string)
    requires GuardKey(d, imsi, apn).Some?
    ensures imsi in d.subscribers
    ensures var guard := GuardKey(d, imsi, apn);
            Resolve(WithDefault(d, imsi, guard.value.1), imsi, apn) == guard
  {
    hide ApnByName;
    var id := ApnByName(d, apn).value;
    assert id in IdsNamed(d, apn);
    var before := WithDefault(d, imsi, id);
    assert Candidates(before.subscribers[imsi])[0] == id;
  }

  /** One initiation, on a table in which nobody has its connection or its address. */
  lemma InitiateAdds(d: Directory, rows: seq<Row>, freshId: nat, e: Event)
    requires e.Initiate? && e.originHost == "pgw" && e.ueIp != "" && Resolve(d, e.imsi, e.apn).Some?
    requires forall r :: r in rows ==> !HasKey(r, Resolve(d, e.imsi, e.apn).value) && r.routing != e.ueIp && r.routing != ""
    ensures Next(d, rows, freshId, e) == rows + [NewRow(freshId, Resolve(d, e.imsi, e.apn).value, InitiateCall(e))]
  {
    hide Resolve, NewRow, PgwOk, Purge, Superseded, Find, HasKey;
    var key := Resolve(d, e.imsi, e.apn).value;
    ResolveKnows(d, e.imsi, e.apn);
    forall r | r in rows
      ensures !Superseded(r, e.ueIp)
    {
      SupersededMeans(r, e.ueIp);
    }
    PurgeNone(rows, e.ueIp);
    assert forall j :: 0 <= j < |rows| ==> !HasKey(rows[j], key);
    assert Find(rows, key) == |rows|;
  }

  lemma SupersededMeans(r: Row, routing: string)
    ensures Superseded(r, routing) <==> r.routing == routing || r.routing == ""
  {
  }

  lemma {:induction false} PurgeNone(rows: seq<Row>, routing: string)
    requires forall r :: r in rows ==> !Superseded(r, routing)
    ensures Purge(rows, routing) == rows
    decreases |rows|
  {
    if rows != [] {
      var n := |rows| - 1;
      assert rows == rows[..n] + [rows[n]];
      PurgeNone(rows[..n], routing);
    }
  }

  /** Where the guard looks at another row than the one deleted, a terminating event for one
      session can remove the row of another.  Two initiations from the empty table get there: one
      while the subscriber's default APN was the one of that name, and one after it was changed. */
  lemma MisplacedGuardRemovesOther(d: Directory, imsi: string, apn: string, session: string, freshId: nat)
    returns (run: seq<Occurrence>, lost: Row)
    requires !GuardFits(d, imsi, apn)
    ensures |run| == 2 && run[0].event.Initiate? && run[1].event.Initiate? && run[1].d == d
    ensures imsi in d.subscribers && run[0].d == WithDefault(d, imsi, GuardKey(d, imsi, apn).value.1)
    ensures run[0].freshId == 1 && run[1].freshId == 2 && SafeEvent(run[0].event) && SafeEvent(run[1].event)
    ensures var rows := Run([], run);
            lost in rows && lost.sessionId != session && lost !in Next(d, rows, freshId, Terminate(imsi, apn, session, true))
  {
    hide Apply, Resolve, GuardKey, Next, SafeEvent;
    var guard, key := GuardKey(d, imsi, apn).value, Resolve(d, imsi, apn).value;
    DefaultResolves(d, imsi, apn);
    var before := WithDefault(d, imsi, guard.1);
    var first, second := Session(imsi, apn, session, "10.0.0.1"), Session(imsi, apn, session + "x", "10.0.0.2");
    run := [Occurrence(before, 1, first), Occurrence(d, 2, second)];
    var named := NewRow(1, guard, InitiateCall(first));
    lost := NewRow(2, key, InitiateCall(second));
    assert "10.0.0.1"[7] != "10.0.0.2"[7];
    hide NewRow;
    InitiateAdds(before, [], 1, first);
    assert [] + [named] == [named] && [named] + [lost] == [named, lost];
    assert !HasKey(named, key) && named.routing == "10.0.0.1" && named.sessionId == session by { NewRowFields(1, guard, InitiateCall(first)); }
    NewRowFields(2, key, InitiateCall(second));
    InitiateAdds(d, [named], 2, second);
    TwoTurns([], run[0], run[1]);
    OtherRowGoes(d, imsi, apn, session, freshId, named, lost);
  }

  function Session(imsi: string, apn: string, session: string, ip: string): (e: Event)
    requires ip != ""
    ensures e.Initiate? && SafeEvent(e)
  {
    Initiate(imsi, apn, session, "pgw", ip, "", "")
  }

  lemma NewRowFields(id: nat, key: (int, int), c: Call)
    ensures var r := NewRow(id, key, c);
            HasKey(r, key) && (forall k :: k != key ==> !HasKey(r, k)) && r.sessionId == Str(c.session) && r.routing == Str(c.routing)
  {
  }

  /** The termination of a session removes the row behind it, which is another one's. */
  lemma OtherRowGoes(d: Directory, imsi: string, apn: string, session: string, freshId: nat, named: Row, lost: Row)
    requires !GuardFits(d, imsi, apn)
    requires HasKey(named, GuardKey(d, imsi, apn).value) && HasKey(lost, Resolve(d, imsi, apn).value)
    requires named.sessionId == session != lost.sessionId
    ensures lost !in Next(d, [named, lost], freshId, Terminate(imsi, apn, session, true))
  {
    hide Apply, Resolve, GuardKey, NamesIms;
    var guard, key := GuardKey(d, imsi, apn).value, Resolve(d, imsi, apn).value;
    var rows, e := [named, lost], Terminate(imsi, apn, session, true);
    assert rows[1..] == [lost];
    assert Find(rows, guard) == 0;
    assert Find(rows[1..], key) == 0 && Find(rows, key) == 1;
    EndWrites(d, rows, freshId, TerminateCall(e));
    assert Without(rows, 1) == [named];
  }

  lemma TwoTurns(rows: seq<Row>, a: Occurrence, b: Occurrence)
    ensures Run(rows, [a, b]) == Next(b.d, Next(a.d, rows, a.freshId, a.event), b.freshId, b.event)
  {
    hide Next;
    assert [a, b][1..] == [b] && [b][1..] == [];
    var once := Next(a.d, rows, a.freshId, a.event);
    var twice := Next(b.d, once, b.freshId, b.event);
    assert Run(twice, []) == twice;
    assert Run(once, [b]) == twice;
  }

  /** Events that keep addresses unique: gateways are named, or the address is empty. */
  predicate SafeEvent(e: Event) {
    match e
    case Initiate(_, _, _, _, _, _, _) => SafeForIps(InitiateCall(e))
    case Terminate(_, _, _, _) => true
    case GeoUpdate(call) => SafeForIps(call)
  }

  lemma NextKeepsUnique(d: Directory, rows: seq<Row>, freshId: nat, e: Event)
    requires UniqueKeys(rows) && UniqueIps(rows) && SafeEvent(e)
    ensures UniqueKeys(Next(d, rows, freshId, e)) && UniqueIps(Next(d, rows, freshId, e))
  {
    hide UniqueKeys, UniqueIps, Apply, GuardKey, NamesIms;
    var c := match e
      case Initiate(_, _, _, _, _, _, _) => InitiateCall(e)
      case Terminate(_, _, _, _) => TerminateCall(e)
      case GeoUpdate(call) => call;
    KeysStayUnique(d, rows, freshId, c);
    IpsStayUnique(d, rows, freshId, c);
  }

  /** The events that may not touch a given live session: those about another connection and
      another address, and terminations that name another session, however late they come. */
  predicate Spares(o: Occurrence, r: Row) {
    match o.event
    case Initiate(imsi, apn, _, _, ip, _, _) => Elsewhere(o.d, imsi, apn, r) && ip != r.routing
    case Terminate(imsi, apn, session, _) => GuardFits(o.d, imsi, apn) && session != r.sessionId
    case GeoUpdate(c) =>
      if c.pgw.None? then GuardFits(o.d, c.imsi, c.apn) && c.session != Some(r.sessionId)
      else Elsewhere(o.d, c.imsi, c.apn, r) && c.routing != Some(r.routing)
  }

  predicate Elsewhere(d: Directory, imsi: string, apn: string, r: Row) {
    var key := Resolve(d, imsi, apn);
    key.Some? ==> (r.subscriberId, r.apnId) != key.value
  }

  lemma NextSpares(o: Occurrence, rows: seq<Row>, r: Row)
    requires r in rows && r.routing != "" && Spares(o, r)
    ensures r in Next(o.d, rows, o.freshId, o.event)
  {
    hide Apply, Resolve, GuardKey, NamesIms, EndSession, GuardFits, HasKey;
    match o.event {
      case Initiate(_, _, _, _, _, _, _) =>
        OthersStay(o.d, rows, o.freshId, InitiateCall(o.event), r);
      case Terminate(_, _, _, _) =>
        EndRemovesOnlyNamed(o.d, rows, o.freshId, TerminateCall(o.event), r);
      case GeoUpdate(c) =>
        if c.pgw.None? {
          EndRemovesOnlyNamed(o.d, rows, o.freshId, c, r);
        } else {
          OthersStay(o.d, rows, o.freshId, c, r);
        }
    }
  }

  /** A live session with an address survives every run of events that spare it. */
  lemma {:induction false} SessionSurvives(rows: seq<Row>, run: seq<Occurrence>, r: Row)
    requires r in rows && r.routing != ""
    requires forall i :: 0 <= i < |run| ==> Spares(run[i], r)
    ensures r in Run(rows, run)
    decreases |run|
  {
    hide Next, Spares;
    if run != [] {
      NextSpares(run[0], rows, r);
      SessionSurvives(Next(run[0].d, rows, run[0].freshId, run[0].event), run[1..], r);
    }
  }

  lemma {:induction false} RunKeepsUnique(rows: seq<Row>, run: seq<Occurrence>)
    requires UniqueKeys(rows) && UniqueIps(rows)
    requires forall i :: 0 <= i < |run| ==> SafeEvent(run[i].event)
    ensures UniqueKeys(Run(rows, run)) && UniqueIps(Run(rows, run))
    decreases |run|
  {
    hide Next, SafeEvent, UniqueKeys, UniqueIps;
    if run != [] {
      NextKeepsUnique(run[0].d, rows, run[0].freshId, run[0].event);
      RunKeepsUnique(Next(run[0].d, rows, run[0].freshId, run[0].event), run[1..]);
    }
  }

  /** The row an initiation stores. */
  predicate IsSessionOf(r: Row, o: Occurrence)
    requires o.event.Initiate? && Resolve(o.d, o.event.imsi, o.event.apn).Some?
  {
    && HasKey(r, Resolve(o.d, o.event.imsi, o.event.apn).value)
    && r.sessionId == o.event.session && r.routing == o.event.ueIp && r.pgw == o.event.originHost
  }

  /** A newer initiation followed by any run of sparing events, stale terminations of older
      sessions among them: the newer session is still the one stored for the connection. */
  lemma StaleTerminationIsHarmless(rows: seq<Row>, first: Occurrence, run: seq<Occurrence>) returns (r: Row)
    requires UniqueKeys(rows)
    requires first.event.Initiate? && PgwOk(first.event.originHost) && first.event.ueIp != ""
    requires Resolve(first.d, first.event.imsi, first.event.apn).Some?
    requires forall i, s :: 0 <= i < |run| && IsSessionOf(s, first) ==> Spares(run[i], s)
    ensures IsSessionOf(r, first)
    ensures r in Run(rows, [first] + run)
  {
    hide Apply, Resolve, Spares, PgwOk, HasKey, UniqueKeys, EndSession;
    var key := Resolve(first.d, first.event.imsi, first.event.apn).value;
    var c := InitiateCall(first.event);
    var after := Apply(first.d, rows, first.freshId, c);
    CallIsStored(first.d, rows, first.freshId, c, Row(0, 0, 0, "", "", "", "", ""));
    r :| r in after && HasKey(r, key);
    CallIsStored(first.d, rows, first.freshId, c, r);
    assert IsSessionOf(r, first);
    SessionSurvives(after, run, r);
    assert ([first] + run)[1..] == run;
  }
}

/**
  The table of Diameter peers in services/diameterService.py: connections come and go, a
  periodic pass prunes duplicate and timed-out entries and mirrors the rest into a Redis hash.
  Times are in microseconds; a pass is one step.
 */
module DiameterPeers {
  import opened PyText

  datatype Peer = Peer(ip: string, port: string, hostname: string, connected: bool, lastConnect: int,
                       lastDisconnect: Option<int>, reconnections: nat, metadata: string)

  /** `keys` is the insertion order of the dictionary, `redis` the hash. */
  datatype State = State(keys: seq<string>, peers: map<string, Peer>, redis: map<string, Peer>)

  predicate Distinct(keys: seq<string>) {
    forall i, j :: 0 <= i < j < |keys| ==> keys[i] != keys[j]
  }

  lemma DistinctConcat(a: seq<string>, b: seq<string>)
    requires Distinct(a) && Distinct(b) && forall k :: k in a ==> k !in b
    ensures Distinct(a + b)
  {
    assert forall i :: 0 <= i < |a| ==> a[i] !in b;
  }

  lemma DistinctFew(k: string)
    ensures Distinct([]) && Distinct([k])
  {
  }

  lemma DistinctNext(a: seq<string>, i: nat)
    requires Distinct(a) && i < |a|
    ensures a[i] !in a[..i] && a[..i + 1] == a[..i] + [a[i]]
  {
  }

  predicate Known(keys: seq<string>, peers: map<string, Peer>) {
    forall k :: k in keys ==> k in peers
  }

  ghost predicate Valid(s: State) {
    && Distinct(s.keys) && (forall k :: k in s.keys <==> k in s.peers)
    && (forall k :: k in s.redis ==> k in s.peers)
    && (forall k :: k in s.peers && !s.peers[k].connected ==> s.peers[k].lastDisconnect.Some?)
  }

  // --------------------------------------------------------------- grouping

  function Group(keys: seq<string>, peers: map<string, Peer>, host: string): (g: seq<string>)
    requires Known(keys, peers)
    ensures forall k :: k in g <==> k in keys && peers[k].hostname == host
    ensures Distinct(keys) ==> Distinct(g)
  {
    if keys == [] then []
    else
      var n := |keys| - 1;
      assert keys == keys[..n] + [keys[n]];
      assert Distinct(keys) ==> keys[n] !in keys[..n];
      Group(keys[..n], peers, host) + (if peers[keys[n]].hostname == host then [keys[n]] else [])
  }

  /** The peer that connected last, the earliest inserted among equals. */
  function Leader(g: seq<string>, peers: map<string, Peer>): (k: string)
    requires g != [] && Known(g, peers)
    ensures k in g
    ensures forall j :: j in g ==> peers[j].lastConnect <= peers[k].lastConnect
  {
    if |g| == 1 then g[0]
    else
      assert g == [g[0]] + g[1..];
      var m := Leader(g[1..], peers);
      if peers[g[0]].lastConnect >= peers[m].lastConnect then g[0] else m
  }

  function InsertByConnect(x: string, g: seq<string>, peers: map<string, Peer>): (r: seq<string>)
    requires x in peers && Known(g, peers)
    ensures r != [] && forall k :: k in r <==> k == x || k in g
    ensures Distinct(g) && x !in g ==> Distinct(r)
  {
    if g == [] || peers[x].lastConnect >= peers[g[0]].lastConnect then [x] + g
    else
      assert g == [g[0]] + g[1..];
      var rest := InsertByConnect(x, g[1..], peers);
      assert Distinct(g) ==> g[0] !in g[1..];
      [g[0]] + rest
  }

  /** `sort(key=LastConnectTimestamp, reverse=True)`, which keeps equals in order. */
  function SortByConnect(g: seq<string>, peers: map<string, Peer>): (r: seq<string>)
    requires Known(g, peers)
    ensures |g| > 0 ==> r != []
    ensures forall k :: k in r <==> k in g
    ensures Distinct(g) ==> Distinct(r)
  {
    if g == [] then []
    else
      assert g == [g[0]] + g[1..];
      assert Distinct(g) ==> g[0] !in g[1..];
      InsertByConnect(g[0], SortByConnect(g[1..], peers), peers)
  }

  lemma {:induction false} SortPutsLeaderFirst(g: seq<string>, peers: map<string, Peer>)
    requires g != [] && Known(g, peers)
    ensures SortByConnect(g, peers)[0] == Leader(g, peers)
    decreases |g|
  {
    if |g| > 1 {
      SortPutsLeaderFirst(g[1..], peers);
    }
  }

  /** A duplicate names a host and does not lead the peers of that host. */
  predicate Duplicate(keys: seq<string>, peers: map<string, Peer>, k: string)
    requires Known(keys, peers) && k in keys
  {
    var host := peers[k].hostname;
    host != "" && k != Leader(Group(keys, peers, host), peers)
  }

  // --------------------------------------------------------------- timing out

  /** `timedelta.seconds`: the seconds within the day, whole days not counted. */
  function SecondsOf(micros: int): int {
    micros / 1_000_000 % 86_400
  }

  predicate TimedOut(p: Peer, now: int, timeout: int) {
    !p.connected && p.lastDisconnect.Some? && SecondsOf(now - p.lastDisconnect.value) > timeout
  }

  /** Whole seconds since the disconnection, whole days counted; negative when the clock was set
      back. */
  function Gone(p: Peer, now: int): int
    requires p.lastDisconnect.Some?
  {
    (now - p.lastDisconnect.value) / 1_000_000
  }

  /** The code's test against having been gone for longer than the timeout. */
  predicate TimedRight(p: Peer, now: int, timeout: int)
    requires p.lastDisconnect.Some?
  {
    TimedOut(p, now, timeout) <==> Gone(p, now) > timeout
  }

  /** The test does not count whole days.  It is right exactly within the first day, or before the
      timeout, or when what is left of the last day is itself beyond the timeout; and after the
      clock was set back, when what is left is not. */
  lemma TimeoutIgnoresDays(p: Peer, now: int, timeout: int)
    requires !p.connected && p.lastDisconnect.Some?
    ensures var e := Gone(p, now);
            TimedRight(p, now, timeout)
            <==> if timeout < 0 then e > timeout
                 else if e < 0 then e % 86_400 <= timeout
                 else e < 86_400 || e <= timeout || e % 86_400 > timeout
  {
    var e := Gone(p, now);
    assert 0 <= e % 86_400 < 86_400;
  }

  /** A peer gone for a day and ten seconds stays under a timeout of ten seconds; one whose
      disconnection lies a second in the future is timed out after an hour. */
  lemma TimedWrong(p: Peer, now: int)
    requires !p.connected && p.lastDisconnect.Some?
    ensures now - p.lastDisconnect.value == 86_410_000_000 ==> Gone(p, now) == 86_410 && !TimedOut(p, now, 10)
    ensures now - p.lastDisconnect.value == -1_000_000 ==> Gone(p, now) == -1 && TimedOut(p, now, 3600)
  {
    assert 86_410 % 86_400 == 10 && -1 % 86_400 == 86_399;
  }

  /** A timeout of a day or more never fires. */
  lemma LongTimeoutNeverFires(p: Peer, now: int, timeout: int)
    requires timeout >= 86_399
    ensures !TimedOut(p, now, timeout)
  {
  }

  function TimedKeys(keys: seq<string>, peers: map<string, Peer>, now: int, timeout: int): (t: seq<string>)
    requires Known(keys, peers)
    ensures forall k :: k in t <==> k in keys && TimedOut(peers[k], now, timeout)
    ensures Distinct(keys) ==> Distinct(t)
  {
    if keys == [] then []
    else
      var n := |keys| - 1;
      assert keys == keys[..n] + [keys[n]];
      assert Distinct(keys) ==> keys[n] !in keys[..n];
      TimedKeys(keys[..n], peers, now, timeout) + (if TimedOut(peers[keys[n]], now, timeout) then [keys[n]] else [])
  }

  // ---------------------------------------------------------------- pruning

  /** The timed-out keys up to the first that was already deleted as a duplicate; deleting
      that one raises and ends the loop. */
  function UntilDuplicate(keys: seq<string>, peers: map<string, Peer>, timed: seq<string>): (r: seq<string>)
    requires Known(keys, peers) && forall k :: k in timed ==> k in keys
    ensures forall k :: k in r ==> k in timed && !Duplicate(keys, peers, k)
    decreases |timed|
  {
    if timed == [] || Duplicate(keys, peers, timed[0]) then [] else [timed[0]] + UntilDuplicate(keys, peers, timed[1..])
  }

  /** What one pass removes. */
  ghost predicate Pruned(keys: seq<string>, peers: map<string, Peer>, now: int, timeout: int, k: string)
    requires Known(keys, peers)
  {
    k in keys && (Duplicate(keys, peers, k) || k in UntilDuplicate(keys, peers, TimedKeys(keys, peers, now, timeout)))
  }

  /** `del` on the dictionary and `hdel` on the hash. */
  function Remove(s: State, k: string): State {
    State(WithoutKey(s.keys, k), s.peers - {k}, s.redis - {k})
  }

  function WithoutKey(keys: seq<string>, k: string): (r: seq<string>)
    ensures forall j :: j in r <==> j in keys && j != k
    ensures Distinct(keys) ==> Distinct(r)
  {
    if keys == [] then []
    else
      var n := |keys| - 1;
      assert keys == keys[..n] + [keys[n]];
      assert Distinct(keys) ==> keys[n] !in keys[..n];
      WithoutKey(keys[..n], k) + (if keys[n] == k then [] else [keys[n]])
  }

  /** The keys that are still there, in their order. */
  function Keep(keys: seq<string>, peers: map<string, Peer>): seq<string> {
    if keys == [] then []
    else Keep(keys[..|keys| - 1], peers) + (if keys[|keys| - 1] in peers then [keys[|keys| - 1]] else [])
  }

  lemma KeepNext(keys: seq<string>, x: string, peers: map<string, Peer>)
    ensures Keep(keys + [x], peers) == if x in peers then Keep(keys, peers) + [x] else Keep(keys, peers)
    ensures Keep([], peers) == []
  {
    assert (keys + [x])[..|keys|] == keys;
    assert Keep(keys, peers) + [] == Keep(keys, peers);
  }

  lemma WithoutNext(keys: seq<string>, x: string, k: string)
    ensures WithoutKey(keys + [x], k) == if x == k then WithoutKey(keys, k) else WithoutKey(keys, k) + [x]
    ensures WithoutKey([], k) == []
  {
    assert (keys + [x])[..|keys|] == keys;
    assert WithoutKey(keys, k) + [] == WithoutKey(keys, k);
  }

  lemma {:induction false} KeepWithout(keys: seq<string>, k: string, peers: map<string, Peer>)
    requires k !in peers
    ensures Keep(WithoutKey(keys, k), peers) == Keep(keys, peers)
    decreases |keys|
  {
    hide Keep, WithoutKey;
    if keys == [] {
      WithoutNext([], k, k);
    } else {
      var front, x := keys[..|keys| - 1], keys[|keys| - 1];
      assert keys == front + [x];
      KeepWithout(front, k, peers);
      KeepNext(front, x, peers);
      WithoutNext(front, x, k);
      KeepNext(WithoutKey(front, k), x, peers);
    }
  }

  lemma {:induction false} KeepAll(keys: seq<string>, peers: map<string, Peer>)
    requires Known(keys, peers)
    ensures Keep(keys, peers) == keys
    decreases |keys|
  {
    hide Keep;
    if keys == [] {
      KeepNext([], "", peers);
    } else {
      var front, x := keys[..|keys| - 1], keys[|keys| - 1];
      assert keys == front + [x];
      KeepAll(front, peers);
      KeepNext(front, x, peers);
    }
  }

  lemma {:induction false} KeepTwice(keys: seq<string>, more: map<string, Peer>, less: map<string, Peer>)
    requires forall k :: k in less ==> k in more
    ensures Keep(Keep(keys, more), less) == Keep(keys, less)
    decreases |keys|
  {
    hide Keep;
    if keys == [] {
      KeepNext([], "", more);
    } else {
      var front, x := keys[..|keys| - 1], keys[|keys| - 1];
      assert keys == front + [x];
      KeepTwice(front, more, less);
      KeepNext(front, x, more);
      KeepNext(front, x, less);
      KeepNext(Keep(front, more), x, less);
    }
  }

  /** The delete loop, which ends at the first key that is not there. */
  function RemoveAll(s: State, stale: seq<string>): State
    decreases |stale|
  {
    if stale == [] || stale[0] !in s.peers then s else RemoveAll(Remove(s, stale[0]), stale[1..])
  }

  /** What the loop leaves, told by membership: the keys before the first repetition go. */
  lemma {:induction false} RemoveAllMembers(s: State, stale: seq<string>)
    requires Distinct(stale)
    requires forall k :: k in stale ==> k in s.peers
    requires forall k :: k in s.keys <==> k in s.peers
    ensures var t := RemoveAll(s, stale);
            && (forall k :: k in t.peers <==> k in s.peers && k !in stale)
            && (forall k :: k in t.peers ==> t.peers[k] == s.peers[k])
            && (forall k :: k in t.redis <==> k in s.redis && k !in stale)
            && (forall k :: k in t.keys <==> k in t.peers) && t.keys == Keep(s.keys, t.peers)
            && (Distinct(s.keys) ==> Distinct(t.keys))
    decreases |stale|
  {
    hide Distinct, Keep, WithoutKey;
    if stale == [] {
      KeepAll(s.keys, s.peers);
    } else {
      DistinctRest(stale);
      RemoveAllMembers(Remove(s, stale[0]), stale[1..]);
      KeepWithout(s.keys, stale[0], RemoveAll(s, stale).peers);
    }
  }

  lemma DistinctRest(a: seq<string>)
    requires Distinct(a) && a != []
    ensures Distinct(a[1..]) && a[0] !in a[1..] && a == [a[0]] + a[1..]
  {
  }

  lemma {:induction false} RemoveAllThen(s: State, a: seq<string>, b: seq<string>)
    requires Distinct(a) && forall k :: k in a ==> k in s.peers
    ensures RemoveAll(s, a + b) == RemoveAll(RemoveAll(s, a), b)
    decreases |a|
  {
    if a == [] {
      assert a + b == b;
    } else {
      assert a == [a[0]] + a[1..];
      assert (a + b)[1..] == a[1..] + b;
      RemoveAllThen(Remove(s, a[0]), a[1..], b);
    }
  }

  /** From a state without the duplicates, the loop over the timed-out keys stops at the first
      duplicate among them. */
  lemma {:induction false} RemoveTimed(s: State, keys: seq<string>, peers: map<string, Peer>, timed: seq<string>)
    requires Known(keys, peers) && forall k :: k in timed ==> k in keys
    requires Distinct(timed) && forall k :: k in timed ==> (k in s.peers <==> !Duplicate(keys, peers, k))
    ensures RemoveAll(s, timed) == RemoveAll(s, UntilDuplicate(keys, peers, timed))
    ensures Distinct(UntilDuplicate(keys, peers, timed))
    decreases |timed|
  {
    hide Duplicate;
    if timed != [] && !Duplicate(keys, peers, timed[0]) {
      assert timed == [timed[0]] + timed[1..];
      var rest := UntilDuplicate(keys, peers, timed[1..]);
      RemoveTimed(Remove(s, timed[0]), keys, peers, timed[1..]);
      assert ([timed[0]] + rest)[1..] == rest;
    }
  }

  /** The table after the delete loop: exactly the pruned peers are gone, from the hash too. */
  lemma PassMembers(s: State, dups: seq<string>, now: int, timeout: int)
    requires Valid(s) && Known(s.keys, s.peers)
    requires Distinct(dups) && forall k :: k in dups <==> k in s.keys && Duplicate(s.keys, s.peers, k)
    ensures var t := RemoveAll(s, dups + TimedKeys(s.keys, s.peers, now, timeout));
            && (forall k :: k in t.peers <==> k in s.peers && !Pruned(s.keys, s.peers, now, timeout, k))
            && (forall k :: k in t.peers ==> t.peers[k] == s.peers[k])
            && (forall k :: k in t.redis ==> k in t.peers)
            && Distinct(t.keys) && (forall k :: k in t.keys <==> k in t.peers) && t.keys == Keep(s.keys, t.peers)
  {
    hide Duplicate, UntilDuplicate, TimedKeys, RemoveAll, Distinct, Keep;
    var timed := TimedKeys(s.keys, s.peers, now, timeout);
    var gone := RemoveAll(s, dups);
    RemoveAllThen(s, dups, timed);
    RemoveAllMembers(s, dups);
    RemoveTimed(gone, s.keys, s.peers, timed);
    RemoveAllMembers(gone, UntilDuplicate(s.keys, s.peers, timed));
    KeepTwice(s.keys, gone.peers, RemoveAll(gone, timed).peers);
  }

  // ------------------------------------------------------------ the events

  function Key(ip: string, port: string): string {
    ip + "-" + port
  }

  function Connected(s: State, ip: string, port: string, now: int): State {
    var key := Key(ip, port);
    if key in s.peers then
      s.(peers := s.peers[key := s.peers[key].(reconnections := s.peers[key].reconnections + 1, lastConnect := now,
                                               ip := ip, port := port, connected := true)])
    else s.(keys := s.keys + [key], peers := s.peers[key := Peer(ip, port, "", true, now, None, 0, "")])
  }

  function Disconnected(s: State, ip: string, port: string, now: int): State {
    var key := Key(ip, port);
    if key in s.peers then s.(peers := s.peers[key := s.peers[key].(lastDisconnect := Some(now), connected := false)])
    else s
  }

  function Identified(s: State, key: string, hostname: string, metadata: string): State {
    if key in s.peers then s.(peers := s.peers[key := s.peers[key].(hostname := hostname, metadata := metadata)])
    else s
  }

  // ---------------------------------------------------------------- the class

  class PeerService {
    var keys: seq<string>
    var peers: map<string, Peer>
    var redis: map<string, Peer>

    ghost function Now(): State
      reads this
    {
      State(keys, peers, redis)
    }

    /** A started service: no peers, and the hash has been flushed. */
    constructor ()
      ensures Valid(Now()) && peers == map[] && redis == map[]
    {
      keys, peers, redis := [], map[], map[];
    }

    /** The beginning of `handleConnection`. */
    method Connect(ip: string, port: string, now: int)
      requires Valid(Now())
      modifies this
      ensures Valid(Now()) && Now() == Connected(old(Now()), ip, port, now)
    {
      hide Distinct;
      var key := ip + "-" + port;
      if key !in peers {
        DistinctFew(key);
        DistinctConcat(keys, [key]);
        keys := keys + [key];
        peers := peers[key := Peer(ip, port, "", true, now, None, 0, "")];
      } else {
        peers := peers[key := peers[key].(reconnections := peers[key].reconnections + 1)];
      }
      peers := peers[key := peers[key].(lastConnect := now, ip := ip, port := port, connected := true)];
    }

    /** The end of `handleConnection`; the update raises when the peer has been pruned. */
    method Disconnect(ip: string, port: string, now: int)
      requires Valid(Now())
      modifies this`peers
      ensures Valid(Now()) && Now() == Disconnected(old(Now()), ip, port, now)
    {
      var key := ip + "-" + port;
      if key in peers {
        peers := peers[key := peers[key].(lastDisconnect := Some(now), connected := false)];
      }
    }

    /** `validateDiameterInbound` on a message whose Origin-Host could be read. */
    method Identify(key: string, hostname: string, metadata: string)
      requires Valid(Now())
      modifies this`peers
      ensures Valid(Now()) && Now() == Identified(old(Now()), key, hostname, metadata)
    {
      if key in peers {
        peers := peers[key := peers[key].(hostname := hostname, metadata := metadata)];
      }
    }

    /** The first loop of the pass: the keys of every hostname that is not empty. */
    method CollectHosts() returns (hosts: seq<string>, groups: map<string, seq<string>>)
      requires Known(keys, peers)
      ensures Distinct(hosts) && forall h :: h in hosts <==> h in groups
      ensures forall h :: h in groups ==> h != "" && groups[h] == Group(keys, peers, h)
      ensures forall k :: k in keys && peers[k].hostname != "" ==> peers[k].hostname in groups
    {
      hide Group, Distinct;
      hosts, groups := [], map[];
      DistinctFew("");
      GroupOfNone(peers);
      for i := 0 to |keys|
        invariant Known(keys[..i], peers)
        invariant Distinct(hosts) && forall h :: h in hosts <==> h in groups
        invariant forall h :: h in groups ==> h != "" && groups[h] == Group(keys[..i], peers, h)
        invariant forall h :: h !in groups && h != "" ==> Group(keys[..i], peers, h) == []
        invariant forall k :: k in keys[..i] && peers[k].hostname != "" ==> peers[k].hostname in groups
      {
        var key := keys[i];
        var host := peers[key].hostname;
        NextInGroup(keys, i, peers);
        if host != "" {
          if host in groups {
            groups := groups[host := groups[host] + [key]];
          } else {
            DistinctFew(host);
            DistinctConcat(hosts, [host]);
            hosts, groups := hosts + [host], groups[host := [key]];
          }
        }
      }
      assert keys[..|keys|] == keys;
    }

    /** The second loop: all but the latest connected peer of every host. */
    method DuplicateKeys(hosts: seq<string>, groups: map<string, seq<string>>) returns (stale: seq<string>)
      requires Known(keys, peers) && Distinct(keys)
      requires Distinct(hosts) && forall h :: h in hosts <==> h in groups
      requires forall h :: h in groups ==> h != "" && groups[h] == Group(keys, peers, h)
      requires forall k :: k in keys && peers[k].hostname != "" ==> peers[k].hostname in groups
      ensures Distinct(stale) && forall k :: k in stale <==> k in keys && Duplicate(keys, peers, k)
    {
      hide Leader, SortByConnect, Group, Distinct, Duplicate;
      stale := [];
      DistinctFew("");
      for j := 0 to |hosts|
        invariant Distinct(stale)
        invariant forall k :: k in stale <==> k in keys && peers[k].hostname in hosts[..j] && Duplicate(keys, peers, k)
      {
        var host := hosts[j];
        var group := groups[host];
        StaleOfHost(keys, peers, host);
        DistinctNext(hosts, j);
        if |group| > 1 {
          var sorted := SortByConnect(group, peers);
          DistinctConcat(stale, sorted[1..]);
          stale := stale + sorted[1..];
        }
      }
      assert hosts[..|hosts|] == hosts;
      forall k | k in keys && Duplicate(keys, peers, k)
        ensures k in stale
      {
        DuplicateHasHost(keys, peers, k);
      }
    }

    /** The third loop: every peer that has been disconnected for too long. */
    method TimedOutKeys(now: int, timeout: int) returns (timed: seq<string>)
      requires Known(keys, peers)
      requires forall k :: k in peers && !peers[k].connected ==> peers[k].lastDisconnect.Some?
      ensures timed == TimedKeys(keys, peers, now, timeout)
    {
      timed := [];
      TimedOfNone(peers, now, timeout);
      for i := 0 to |keys|
        invariant Known(keys[..i], peers) && timed == TimedKeys(keys[..i], peers, now, timeout)
      {
        hide TimedKeys, SecondsOf;
        TimedNext(keys, i, peers, now, timeout);
        var peer := peers[keys[i]];
        if !peer.connected {
          if SecondsOf(now - peer.lastDisconnect.value) > timeout {
            timed := timed + [keys[i]];
          }
        }
      }
      assert keys[..|keys|] == keys;
    }

    /** The delete loop: it ends with an exception at the first key already gone. */
    method DeleteStale(stale: seq<string>)
      modifies this
      ensures Now() == RemoveAll(old(Now()), stale)
    {
      var i := 0;
      while i < |stale|
        invariant i <= |stale| && RemoveAll(old(Now()), stale) == RemoveAll(Now(), stale[i..])
      {
        hide WithoutKey;
        assert stale[i..][0] == stale[i] && stale[i..][1..] == stale[i + 1..];
        if stale[i] !in peers {
          return;
        }
        keys, peers, redis := WithoutKey(keys, stale[i]), peers - {stale[i]}, redis - {stale[i]};
        i := i + 1;
      }
    }

    /** The mirror loop: every peer is written to the hash under its key. */
    method Mirror()
      requires Known(keys, peers) && (forall k :: k in peers ==> k in keys) && forall k :: k in redis ==> k in peers
      modifies this`redis
      ensures redis == peers
    {
      for i := 0 to |keys|
        invariant forall k :: k in redis ==> k in peers
        invariant forall k :: k in keys[..i] ==> k in redis && redis[k] == peers[k]
      {
        assert keys[..i + 1] == keys[..i] + [keys[i]];
        redis := redis[keys[i] := peers[keys[i]]];
      }
      assert keys[..|keys|] == keys;
    }

    /** One pass of `handleActiveDiameterPeers`. */
    method Prune(now: int, timeout: int)
      requires Valid(Now())
      modifies this
      ensures Valid(Now()) && Pass(old(Now()), Now(), now, timeout)
    {
      hide Duplicate, TimedKeys, RemoveAll, Distinct, Pruned, Keep;
      if |keys| == 0 {
        return;
      }
      var hosts, groups := CollectHosts();
      var stale := DuplicateKeys(hosts, groups);
      var timed := TimedOutKeys(now, timeout);
      PassMembers(Now(), stale, now, timeout);
      stale := stale + timed;
      DeleteStale(stale);
      Mirror();
    }
  }

  /** The effect of a pass: nothing on an empty table; else the pruned peers are gone, the
      others as they were and in order, and the hash is the table. */
  ghost predicate Pass(s: State, t: State, now: int, timeout: int)
    requires Known(s.keys, s.peers)
  {
    if s.keys == [] then t == s
    else
      && (forall k :: k in t.peers <==> k in s.peers && !Pruned(s.keys, s.peers, now, timeout, k))
      && (forall k :: k in t.peers ==> t.peers[k] == s.peers[k])
      && t.keys == Keep(s.keys, t.peers) && t.redis == t.peers
  }

  lemma TimedOfNone(peers: map<string, Peer>, now: int, timeout: int)
    ensures TimedKeys([], peers, now, timeout) == []
  {
  }

  lemma TimedNext(keys: seq<string>, i: nat, peers: map<string, Peer>, now: int, timeout: int)
    requires i < |keys| && Known(keys, peers)
    ensures Known(keys[..i], peers) && Known(keys[..i + 1], peers)
    ensures TimedKeys(keys[..i + 1], peers, now, timeout)
         == TimedKeys(keys[..i], peers, now, timeout) + if TimedOut(peers[keys[i]], now, timeout) then [keys[i]] else []
  {
    hide TimedOut;
    assert keys[..i + 1][..i] == keys[..i];
  }

  lemma DuplicateHasHost(keys: seq<string>, peers: map<string, Peer>, k: string)
    requires Known(keys, peers) && k in keys && Duplicate(keys, peers, k)
    ensures peers[k].hostname != ""
  {
  }

  lemma GroupOfNone(peers: map<string, Peer>)
    ensures forall h :: Group([], peers, h) == []
  {
  }

  lemma NextInGroup(keys: seq<string>, i: nat, peers: map<string, Peer>)
    requires i < |keys| && Known(keys, peers)
    ensures Known(keys[..i], peers) && Known(keys[..i + 1], peers)
    ensures keys[..i + 1] == keys[..i] + [keys[i]]
    ensures forall h :: Group(keys[..i + 1], peers, h)
                     == Group(keys[..i], peers, h) + if peers[keys[i]].hostname == h then [keys[i]] else []
  {
    assert keys[..i + 1][..i] == keys[..i];
  }

  /** Sorting a host's peers and dropping the first leaves exactly its duplicates. */
  lemma StaleOfHost(keys: seq<string>, peers: map<string, Peer>, host: string)
    requires Known(keys, peers) && Distinct(keys) && host != ""
    ensures var g := Group(keys, peers, host);
            && Known(g, peers)
            && (forall k :: k in g <==> k in keys && peers[k].hostname == host)
            && (|g| > 1 ==> var tail := SortByConnect(g, peers)[1..];
                  Distinct(tail) && forall k :: k in tail <==> k in g && Duplicate(keys, peers, k))
            && (|g| <= 1 ==> forall k :: k in g ==> !Duplicate(keys, peers, k))
  {
    var g := Group(keys, peers, host);
    if |g| > 1 {
      SortPutsLeaderFirst(g, peers);
      var sorted := SortByConnect(g, peers);
      assert sorted == [sorted[0]] + sorted[1..];
    }
  }

  // ------------------------------------------------------ what a pass achieves

  /** After one pass, even one that ended early, no two peers share a hostname, and one that
      survives connected last of all that named its host. */
  lemma HostsUnshared(s: State, t: State, now: int, timeout: int)
    requires Valid(s) && Known(s.keys, s.peers) && Pass(s, t, now, timeout) && s.keys != []
    ensures forall a, b :: a in t.peers && b in t.peers && t.peers[a].hostname == t.peers[b].hostname != "" ==> a == b
    ensures forall a, j :: a in t.peers && j in s.peers && s.peers[j].hostname == t.peers[a].hostname != ""
                           ==> s.peers[j].lastConnect <= t.peers[a].lastConnect
  {
    hide UntilDuplicate, TimedKeys, Keep, Distinct, Leader, Group;
    forall a | a in t.peers && t.peers[a].hostname != ""
      ensures a == Leader(Group(s.keys, s.peers, t.peers[a].hostname), s.peers)
    {
    }
  }

  lemma {:induction false} KeepMembers(keys: seq<string>, peers: map<string, Peer>)
    ensures var r := Keep(keys, peers);
            && (forall k :: k in r <==> k in keys && k in peers)
            && (Distinct(keys) ==> Distinct(r))
    decreases |keys|
  {
    hide Keep, Distinct;
    if keys == [] {
      KeepNext([], "", peers);
    } else {
      var front, x := keys[..|keys| - 1], keys[|keys| - 1];
      assert keys == front + [x];
      KeepMembers(front, peers);
      KeepNext(front, x, peers);
      if Distinct(keys) {
        DistinctFront(front, x);
        DistinctFew(x);
        DistinctConcat(Keep(front, peers), [x]);
      }
    }
  }

  lemma DistinctFront(a: seq<string>, x: string)
    requires Distinct(a + [x])
    ensures Distinct(a) && x !in a
  {
    assert forall i :: 0 <= i < |a| ==> (a + [x])[i] == a[i] && (a + [x])[|a|] == x;
  }

  lemma PassKeepsValid(s: State, t: State, now: int, timeout: int)
    requires Valid(s) && Known(s.keys, s.peers) && Pass(s, t, now, timeout)
    ensures Valid(t) && Known(t.keys, t.peers)
    ensures s.keys != [] ==> t.redis == t.peers
  {
    hide Pruned, Keep, Distinct;
    KeepMembers(s.keys, t.peers);
  }

  /** No timed-out peer that is no duplicate stands behind a timed-out duplicate. */
  predicate DuplicatesLast(keys: seq<string>, peers: map<string, Peer>, timed: seq<string>)
    requires Known(keys, peers) && forall k :: k in timed ==> k in keys
  {
    forall i, j :: 0 <= i < j < |timed| && Duplicate(keys, peers, timed[i]) ==> Duplicate(keys, peers, timed[j])
  }

  lemma {:induction false} AllUntilDuplicate(keys: seq<string>, peers: map<string, Peer>, timed: seq<string>)
    requires Known(keys, peers) && (forall k :: k in timed ==> k in keys) && Distinct(timed)
    ensures DuplicatesLast(keys, peers, timed)
       <==> forall k :: k in timed && !Duplicate(keys, peers, k) ==> k in UntilDuplicate(keys, peers, timed)
    decreases |timed|
  {
    hide Duplicate, DuplicatesLast, Distinct, UntilDuplicate;
    if timed == [] {
      NoDuplicatesLast(keys, peers, []);
    } else if Duplicate(keys, peers, timed[0]) {
      FirstDuplicate(keys, peers, timed);
    } else {
      DistinctRest(timed);
      var rest := timed[1..];
      LaterOnly(keys, peers, timed);
      AllUntilDuplicate(keys, peers, rest);
      assert UntilDuplicate(keys, peers, timed) == [timed[0]] + UntilDuplicate(keys, peers, rest) by { UntilNext(keys, peers, timed); }
    }
  }

  lemma UntilNext(keys: seq<string>, peers: map<string, Peer>, timed: seq<string>)
    requires Known(keys, peers) && (forall k :: k in timed ==> k in keys)
    requires timed != [] && !Duplicate(keys, peers, timed[0])
    ensures forall k :: k in timed[1..] ==> k in keys
    ensures UntilDuplicate(keys, peers, timed) == [timed[0]] + UntilDuplicate(keys, peers, timed[1..])
  {
    hide Duplicate;
  }

  lemma FirstDuplicate(keys: seq<string>, peers: map<string, Peer>, timed: seq<string>)
    requires Known(keys, peers) && (forall k :: k in timed ==> k in keys)
    requires timed != [] && Duplicate(keys, peers, timed[0])
    ensures UntilDuplicate(keys, peers, timed) == []
    ensures DuplicatesLast(keys, peers, timed) <==> forall k :: k in timed ==> Duplicate(keys, peers, k)
  {
    hide Duplicate;
    assert forall j :: 0 < j < |timed| ==> timed[j] in timed;
  }

  lemma LaterOnly(keys: seq<string>, peers: map<string, Peer>, timed: seq<string>)
    requires Known(keys, peers) && (forall k :: k in timed ==> k in keys)
    requires timed != [] && !Duplicate(keys, peers, timed[0])
    ensures forall k :: k in timed[1..] ==> k in keys
    ensures DuplicatesLast(keys, peers, timed) <==> DuplicatesLast(keys, peers, timed[1..])
  {
    hide Duplicate;
    var rest := timed[1..];
    if DuplicatesLast(keys, peers, timed) {
      forall i, j | 0 <= i < j < |rest| && Duplicate(keys, peers, rest[i])
        ensures Duplicate(keys, peers, rest[j])
      {
        assert rest[i] == timed[i + 1] && rest[j] == timed[j + 1];
      }
    }
    if DuplicatesLast(keys, peers, rest) {
      forall i, j | 0 <= i < j < |timed| && Duplicate(keys, peers, timed[i])
        ensures Duplicate(keys, peers, timed[j])
      {
        assert timed[i] == rest[i - 1] && timed[j] == rest[j - 1];
      }
    }
  }

  /** One pass removes every timed-out peer exactly when none that is no duplicate stands behind
      one that is, in table order. */
  lemma PassClears(s: State, t: State, now: int, timeout: int)
    requires Valid(s) && Known(s.keys, s.peers) && Pass(s, t, now, timeout)
    ensures (forall k :: k in t.peers ==> !TimedOut(t.peers[k], now, timeout))
       <==> DuplicatesLast(s.keys, s.peers, TimedKeys(s.keys, s.peers, now, timeout))
  {
    hide Duplicate, TimedKeys, Keep, Distinct, DuplicatesLast, UntilDuplicate;
    var timed := TimedKeys(s.keys, s.peers, now, timeout);
    AllUntilDuplicate(s.keys, s.peers, timed);
    if s.keys == [] {
      assert timed == [] by { TimedOfNone(s.peers, now, timeout); }
    }
  }

  lemma NoDuplicatesLast(keys: seq<string>, peers: map<string, Peer>, timed: seq<string>)
    requires Known(keys, peers) && forall k :: k in timed ==> k in keys && !Duplicate(keys, peers, k)
    ensures DuplicatesLast(keys, peers, timed)
  {
    hide Duplicate;
  }

  /** Whatever the first pass left, a second one at the same time removes every timed-out peer. */
  lemma SecondPassClears(s: State, t: State, u: State, now: int, timeout: int)
    requires Valid(s) && Known(s.keys, s.peers) && Pass(s, t, now, timeout)
    requires Known(t.keys, t.peers) && Pass(t, u, now, timeout)
    ensures forall k :: k in u.peers ==> !TimedOut(u.peers[k], now, timeout)
  {
    hide TimedKeys, Keep, Distinct, Pass, Leader;
    PassKeepsValid(s, t, now, timeout);
    if s.keys != [] {
      HostsUnshared(s, t, now, timeout);
      forall k | k in t.keys
        ensures !Duplicate(t.keys, t.peers, k)
      {
        if t.peers[k].hostname != "" {
          var g := Group(t.keys, t.peers, t.peers[k].hostname);
          var l := Leader(g, t.peers);
          assert l in g && k in g;
        }
      }
    } else {
      EmptyPass(s, t, now, timeout);
    }
    PassClears(t, u, now, timeout);
    NoDuplicatesLast(t.keys, t.peers, TimedKeys(t.keys, t.peers, now, timeout));
  }

  lemma EmptyPass(s: State, t: State, now: int, timeout: int)
    requires Valid(s) && Known(s.keys, s.peers) && Pass(s, t, now, timeout) && s.keys == []
    ensures t.keys == []
  {
  }

  // ------------------------------------------------- connections and passes

  /** A connection makes a peer under "ip-port", or keeps the host name and the last disconnection
      of the one there and counts it once more; nobody else changes. */
  lemma ConnectedPeer(s: State, ip: string, port: string, now: int, j: string)
    ensures var t, k := Connected(s, ip, port, now), ip + "-" + port;
            && k in t.peers && t.redis == s.redis
            && (j != k ==> (j in t.peers <==> j in s.peers) && (j in s.peers ==> t.peers[j] == s.peers[j]))
            && var p := t.peers[k];
               && p.ip == ip && p.port == port && p.connected && p.lastConnect == now
               && if k in s.peers then
                    && p.hostname == s.peers[k].hostname && p.lastDisconnect == s.peers[k].lastDisconnect
                    && p.metadata == s.peers[k].metadata && p.reconnections == s.peers[k].reconnections + 1 && t.keys == s.keys
                  else
                    p.hostname == "" && p.lastDisconnect.None? && p.metadata == "" && p.reconnections == 0 && t.keys == s.keys + [k]
  {
  }

  lemma GroupSnoc(a: seq<string>, x: string, peers: map<string, Peer>, host: string)
    requires Known(a, peers) && x in peers
    ensures Known(a + [x], peers)
    ensures Group(a + [x], peers, host) == Group(a, peers, host) + if peers[x].hostname == host then [x] else []
  {
    assert (a + [x])[..|a|] == a;
  }

  lemma {:induction false} GroupSplit(a: seq<string>, b: seq<string>, peers: map<string, Peer>, host: string)
    requires Known(a, peers) && Known(b, peers)
    ensures Known(a + b, peers) && Group(a + b, peers, host) == Group(a, peers, host) + Group(b, peers, host)
    decreases |b|
  {
    if b == [] {
      assert a + b == a;
    } else {
      hide Group;
      var front, x := b[..|b| - 1], b[|b| - 1];
      assert b == front + [x] && a + b == (a + front) + [x];
      GroupSplit(a, front, peers, host);
      GroupSnoc(front, x, peers, host);
      GroupSnoc(a + front, x, peers, host);
    }
  }

  lemma {:induction false} LeaderIs(a: seq<string>, k: string, b: seq<string>, peers: map<string, Peer>)
    requires Known(a, peers) && k in peers && Known(b, peers)
    requires forall x :: x in a ==> peers[x].lastConnect < peers[k].lastConnect
    requires forall x :: x in b ==> peers[x].lastConnect <= peers[k].lastConnect
    ensures Known((a + [k]) + b, peers) && Leader((a + [k]) + b, peers) == k
    decreases |a|
  {
    var g := (a + [k]) + b;
    if a == [] {
      assert g == [k] + b && g[1..] == b;
    } else {
      assert g[0] == a[0] && g[1..] == (a[1..] + [k]) + b;
      LeaderIs(a[1..], k, b, peers);
    }
  }

  lemma AtLeads(keys: seq<string>, peers: map<string, Peer>, i: nat)
    requires Known(keys, peers) && i < |keys|
    requires forall j :: 0 <= j < i && peers[keys[j]].hostname == peers[keys[i]].hostname
                         ==> peers[keys[j]].lastConnect < peers[keys[i]].lastConnect
    requires forall j :: i < j < |keys| && peers[keys[j]].hostname == peers[keys[i]].hostname
                         ==> peers[keys[j]].lastConnect <= peers[keys[i]].lastConnect
    ensures Leader(Group(keys, peers, peers[keys[i]].hostname), peers) == keys[i]
  {
    hide Group, Leader;
    var k, a, b := keys[i], keys[..i], keys[i + 1..];
    var host := peers[k].hostname;
    assert keys == (a + [k]) + b;
    forall x | x in a && peers[x].hostname == host
      ensures peers[x].lastConnect < peers[k].lastConnect
    {
      var j :| 0 <= j < i && keys[j] == x;
    }
    forall x | x in b && peers[x].hostname == host
      ensures peers[x].lastConnect <= peers[k].lastConnect
    {
      var j :| i < j < |keys| && keys[j] == x;
    }
    GroupOfOne(k, peers);
    GroupSplit(a, [k], peers, host);
    GroupSplit(a + [k], b, peers, host);
    LeaderIs(Group(a, peers, host), k, Group(b, peers, host), peers);
  }

  lemma GroupOfOne(k: string, peers: map<string, Peer>)
    requires k in peers
    ensures Known([k], peers) && Group([k], peers, peers[k].hostname) == [k]
  {
    assert [k][..0] == [];
  }

  /** A pass leaves a connected peer that names no host, or that connected after all others of its
      host, or at the same time as some that stand behind it in the table. */
  lemma LatestSurvives(s: State, t: State, now: int, timeout: int, i: nat)
    requires Valid(s) && Known(s.keys, s.peers) && Pass(s, t, now, timeout) && i < |s.keys| && s.peers[s.keys[i]].connected
    requires var p := s.peers[s.keys[i]];
             p.hostname != "" ==>
               && (forall j :: 0 <= j < i && s.peers[s.keys[j]].hostname == p.hostname ==> s.peers[s.keys[j]].lastConnect < p.lastConnect)
               && (forall j :: i < j < |s.keys| && s.peers[s.keys[j]].hostname == p.hostname ==> s.peers[s.keys[j]].lastConnect <= p.lastConnect)
    ensures var k := s.keys[i];
            && k in t.peers && t.peers[k] == s.peers[k]
            && (s.peers[k].hostname != "" ==> forall j :: j in t.peers && t.peers[j].hostname == s.peers[k].hostname ==> j == k)
  {
    hide Distinct, Keep, Leader, Group, UntilDuplicate, TimedKeys, SecondsOf;
    var k := s.keys[i];
    if s.peers[k].hostname != "" {
      AtLeads(s.keys, s.peers, i);
    }
    assert !Duplicate(s.keys, s.peers, k);
    hide Duplicate;
    HostsUnshared(s, t, now, timeout);
  }

  lemma LatestOfHost(s: State, t: State, now: int, timeout: int, k: string)
    requires Valid(s) && Known(s.keys, s.peers) && Pass(s, t, now, timeout) && k in s.peers && s.peers[k].connected
    requires forall j :: j in s.peers && j != k && s.peers[j].hostname == s.peers[k].hostname ==> s.peers[j].lastConnect < s.peers[k].lastConnect
    ensures k in t.peers && t.peers[k] == s.peers[k]
    ensures s.peers[k].hostname != "" ==> forall j :: j in t.peers && t.peers[j].hostname == s.peers[k].hostname ==> j == k
  {
    hide Pass;
    var i :| 0 <= i < |s.keys| && s.keys[i] == k;
    assert forall j :: 0 <= j < |s.keys| && j != i ==> s.keys[j] != k;
    hide Distinct;
    LatestSurvives(s, t, now, timeout, i);
  }

  /** So a peer that connects again, later than any other of its host did, is the one of that host
      after the next pass, whatever it was before. */
  lemma ReconnectedLeads(s: State, ip: string, port: string, at: int, t: State, now: int, timeout: int)
    requires Valid(s) && (ip + "-" + port) in s.peers
    requires forall j :: j in s.peers ==> s.peers[j].lastConnect < at
    requires Known(s.keys, Connected(s, ip, port, at).peers) && Pass(Connected(s, ip, port, at), t, now, timeout)
    ensures var k := ip + "-" + port;
            && k in t.peers && t.peers[k].connected && t.peers[k].lastConnect == at && t.peers[k].hostname == s.peers[k].hostname
            && (s.peers[k].hostname != "" ==> forall j :: j in t.peers && t.peers[j].hostname == s.peers[k].hostname ==> j == k)
  {
    hide Pass, Distinct;
    LatestOfHost(Connected(s, ip, port, at), t, now, timeout, ip + "-" + port);
  }

  /** A peer that disconnects keeps its place for as many whole seconds as the timeout, if none of
      its host is there besides it. */
  lemma DisconnectedStays(s: State, ip: string, port: string, at: int, t: State, now: int, timeout: nat)
    requires Valid(s) && (ip + "-" + port) in s.peers && at <= now < at + (timeout + 1) * 1_000_000 && timeout < 86_399
    requires forall j :: j in s.peers && s.peers[j].hostname == s.peers[ip + "-" + port].hostname != "" ==> j == ip + "-" + port
    requires Known(s.keys, Disconnected(s, ip, port, at).peers) && Pass(Disconnected(s, ip, port, at), t, now, timeout)
    ensures var k := ip + "-" + port;
            k in t.peers && t.peers[k] == s.peers[k].(connected := false, lastDisconnect := Some(at))
  {
    hide Distinct, Keep, Duplicate, UntilDuplicate, SecondsOf, TimedKeys;
    var k, v := ip + "-" + port, Disconnected(s, ip, port, at);
    WholeSeconds(now - at, timeout);
    assert !TimedOut(v.peers[k], now, timeout);
    AloneIsNoDuplicate(v.keys, v.peers, k);
  }

  lemma AloneIsNoDuplicate(keys: seq<string>, peers: map<string, Peer>, k: string)
    requires Known(keys, peers) && k in keys
    requires forall j :: j in keys && peers[j].hostname == peers[k].hostname != "" ==> j == k
    ensures !Duplicate(keys, peers, k)
  {
    hide Group, Leader;
    if peers[k].hostname != "" {
      var g := Group(keys, peers, peers[k].hostname);
      assert k in g && Leader(g, peers) in g;
    }
  }

  /** Beyond that, and within a day, it is gone after two passes. */
  lemma DisconnectedGoes(s: State, ip: string, port: string, at: int, t: State, u: State, now: int, timeout: nat)
    requires Valid(s) && (ip + "-" + port) in s.peers && at + (timeout + 1) * 1_000_000 <= now < at + 86_400_000_000
    requires Known(s.keys, Disconnected(s, ip, port, at).peers) && Pass(Disconnected(s, ip, port, at), t, now, timeout)
    requires Known(t.keys, t.peers) && Pass(t, u, now, timeout)
    ensures (ip + "-" + port) !in u.peers
  {
    hide Distinct, Keep, Pruned, SecondsOf;
    var k, v := ip + "-" + port, Disconnected(s, ip, port, at);
    WholeSeconds(now - at, timeout);
    SecondPassClears(v, t, u, now, timeout);
  }

  lemma WholeSeconds(micros: int, timeout: int)
    requires 0 <= micros < 86_400_000_000
    ensures SecondsOf(micros) > timeout <==> micros >= (timeout + 1) * 1_000_000
  {
  }

  /** A peer that names its host is known under it, and leads it after the next pass if it is
      connected and connected after all others that named it. */
  lemma IdentifiedLeads(s: State, k: string, hostname: string, metadata: string, t: State, now: int, timeout: int)
    requires Valid(s) && k in s.peers && hostname != ""
    requires Known(s.keys, Identified(s, k, hostname, metadata).peers) && Pass(Identified(s, k, hostname, metadata), t, now, timeout)
    ensures k in t.peers ==> t.peers[k] == s.peers[k].(hostname := hostname, metadata := metadata)
    ensures forall j :: j in t.peers && t.peers[j].hostname == hostname && j in s.peers ==> s.peers[j].lastConnect >= s.peers[k].lastConnect
    ensures s.peers[k].connected
            && (forall j :: j in s.peers && j != k && s.peers[j].hostname == hostname ==> s.peers[j].lastConnect < s.peers[k].lastConnect)
            ==> k in t.peers && forall j :: j in t.peers && t.peers[j].hostname == hostname ==> j == k
  {
    hide Distinct, Keep, Pruned;
    var v := Identified(s, k, hostname, metadata);
    assert Valid(v);
    HostsUnshared(v, t, now, timeout);
    if s.peers[k].connected
       && (forall j :: j in s.peers && j != k && s.peers[j].hostname == hostname ==> s.peers[j].lastConnect < s.peers[k].lastConnect) {
      LatestOfHost(v, t, now, timeout, k);
    }
  }

  // -------------------------------------------------------------- whole runs

  datatype Event =
    | Opened(ip: string, port: string, now: int)
    | Closed(ip: string, port: string, now: int)
    | Named(key: string, hostname: string, metadata: string)
    | Tick(now: int, timeout: int)

  ghost predicate Step(s: State, e: Event, t: State) {
    match e
    case Opened(ip, port, now) => t == Connected(s, ip, port, now)
    case Closed(ip, port, now) => t == Disconnected(s, ip, port, now)
    case Named(key, hostname, metadata) => t == Identified(s, key, hostname, metadata)
    case Tick(now, timeout) => Known(s.keys, s.peers) && Pass(s, t, now, timeout)
  }

  lemma StepKeepsValid(s: State, e: Event, t: State)
    requires Valid(s) && Step(s, e, t)
    ensures Valid(t)
    ensures e.Tick? && s.keys != [] ==> t.redis == t.peers
  {
    hide Pass, Distinct, Key;
    match e {
      case Opened(ip, port, now) =>
        var key := Key(ip, port);
        if key !in s.peers {
          DistinctFew(key);
          DistinctConcat(s.keys, [key]);
        }
      case Closed(_, _, _) =>
      case Named(_, _, _) =>
      case Tick(now, timeout) =>
        PassKeepsValid(s, t, now, timeout);
    }
  }

  /** In every state of every run the hash holds live peers only and a peer that is not
      connected has a disconnect time; right after a pass over a table that was not empty the
      hash equals the table. */
  lemma {:induction false} RunMirrors(states: seq<State>, events: seq<Event>, i: nat)
    requires |states| == |events| + 1 && states[0] == State([], map[], map[])
    requires forall j :: 0 <= j < |events| ==> Step(states[j], events[j], states[j + 1])
    requires i < |states|
    ensures Valid(states[i])
    ensures i > 0 && events[i - 1].Tick? && states[i - 1].keys != [] ==> states[i].redis == states[i].peers
  {
    hide Step, Valid;
    if i == 0 {
      StartIsValid();
    } else {
      RunMirrors(states, events, i - 1);
      assert Step(states[i - 1], events[i - 1], states[i - 1 + 1]);
      StepKeepsValid(states[i - 1], events[i - 1], states[i]);
    }
  }

  lemma StartIsValid()
    ensures Valid(State([], map[], map[]))
  {
  }
}

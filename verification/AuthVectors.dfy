/**
  Sequence numbers in the authentication centre: `Get_Vectors_AuC` with its two S6a actions,
  `Update_AuC`, and the vector loop of the Authentication-Information-Answer.
 */
module AuthVectors {
  import opened PyText
  import opened Milenage

  datatype Auc = Auc(ki: Block, opc: Block, amf: Bytes, sqn: nat)

  const SQN_STEP := 100
  const MAX_VECTORS := 32

  /** The members of Requested-EUTRAN-Authentication-Info that matter: a Re-Synchronization-Info
      (1411), which is RAND and AUTS, and a Number-Of-Requested-Vectors (1410), a number. */
  datatype AuthInfo = Resync(payload: Bytes) | Requested(data: Bytes) | OtherInfo

  /** An E-UTRAN-Vector AVP (1414): its Item-Number and the vector. */
  datatype Issued = Issued(item: nat, vector: Vector)

  // ------------------------------------------------------ the steps as functions

  function Air(aes: Cipher, kdf: Kdf, a: Auc, plmn: Bytes, rand: Block): Option<Vector>
    requires |a.amf| >= 2
  {
    GenerateEutranVector(aes, kdf, a.ki, a.opc, a.amf, a.sqn, plmn, rand)
  }

  /** The record after a resynchronisation; the MAC-S that comes with the SIM's number is not
      compared with the token.  An empty payload (the decoder blanks one that looks like an AVP)
      makes every cipher input empty, and zero is taken for the SIM's number; one that only
      holds a part of RAND raises in the cipher. */
  function Resynced(aes: Cipher, a: Auc, payload: Bytes): (r: Option<Auc>)
    requires |a.amf| >= 2
    ensures r.Some? ==> r.value == a.(sqn := r.value.sqn)
  {
    if payload == [] then Some(a.(sqn := SQN_STEP))
    else if |payload| < 16 then None
    else
      var r :- GenerateResync(aes, payload[16..], a.ki, a.opc, a.amf, payload[..16]);
      Some(a.(sqn := r.0 + SQN_STEP))
  }

  function Limited(n: nat): nat {
    if n >= MAX_VECTORS then MAX_VECTORS else n
  }

  /** One member: the record and the number of vectors after it; `int("", 16)` raises on an
      empty number. */
  function ReadInfo(aes: Cipher, a: Auc, info: AuthInfo, requested: nat): (r: (Auc, Option<nat>))
    requires |a.amf| >= 2
    ensures r.0 == a.(sqn := r.0.sqn)
  {
    match info
    case Resync(payload) =>
      var b := Resynced(aes, a, payload);
      if b.None? then (a, None) else (b.value, Some(requested))
    case Requested(data) => (a, if data == [] then None else Some(Limited(FromBytes(data))))
    case OtherInfo => (a, Some(requested))
  }

  /** The pass over the request's members: the record after it, and the number of vectors to
      make, None when something raised on the way. */
  function ReadInfos(aes: Cipher, a: Auc, infos: seq<AuthInfo>, requested: nat): (r: (Auc, Option<nat>))
    requires |a.amf| >= 2
    ensures r.0 == a.(sqn := r.0.sqn)
    decreases |infos|
  {
    if infos == [] then (a, Some(requested))
    else
      var (b, n) := ReadInfo(aes, a, infos[0], requested);
      if n.None? then (b, None) else ReadInfos(aes, b, infos[1..], n.value)
  }

  lemma ReadInfosStep(aes: Cipher, a: Auc, infos: seq<AuthInfo>, i: nat, n: nat)
    requires |a.amf| >= 2 && i < |infos|
    ensures var (b, m) := ReadInfo(aes, a, infos[i], n);
            ReadInfos(aes, a, infos[i..], n) == if m.None? then (b, None) else ReadInfos(aes, b, infos[i + 1..], m.value)
  {
    hide ReadInfo;
    assert infos[i..][0] == infos[i] && infos[i..][1..] == infos[i + 1..];
  }

  function Behind(made: seq<Issued>, rest: Option<seq<Issued>>): Option<seq<Issued>> {
    if rest.None? then None else Some(made + rest.value)
  }

  lemma Behind0(rest: Option<seq<Issued>>)
    ensures Behind([], rest) == rest
  {
    if rest.Some? {
      assert [] + rest.value == rest.value;
    }
  }

  lemma Behind1(made: seq<Issued>, x: Issued, rest: Option<seq<Issued>>)
    ensures Behind(made, Behind([x], rest)) == Behind(made + [x], rest)
  {
    if rest.Some? {
      assert made + ([x] + rest.value) == (made + [x]) + rest.value;
    }
  }

  /** The loop that issues vectors, counting down. */
  function Issue(aes: Cipher, kdf: Kdf, a: Auc, plmn: Bytes, rands: nat -> Block, k: nat, requested: nat): (r: (Auc, Option<seq<Issued>>))
    requires |a.amf| >= 2
    ensures r.0 == a.(sqn := r.0.sqn)
    decreases requested
  {
    if requested == 0 then (a, Some([]))
    else
      var v := Air(aes, kdf, a, plmn, rands(k));
      if v.None? then (a, None)
      else
        var (after, rest) := Issue(aes, kdf, a.(sqn := a.sqn + SQN_STEP), plmn, rands, k + 1, requested - 1);
        (after, Behind([Issued(requested, v.value)], rest))
  }

  function Answer(aes: Cipher, kdf: Kdf, a: Auc, infos: seq<AuthInfo>, plmn: Bytes, rands: nat -> Block): (r: (Auc, Option<seq<Issued>>))
    requires |a.amf| >= 2
  {
    var (read, requested) := ReadInfos(aes, a, infos, 1);
    if requested.None? then (read, None) else Issue(aes, kdf, read, plmn, rands, 0, requested.value)
  }

  // ------------------------------------------------------------------ the class

  class AucStore {
    var records: map<int, Auc>

    ghost predicate Valid()
      reads this
    {
      forall id :: id in records ==> |records[id].amf| == 2
    }

    constructor (records: map<int, Auc>)
      requires forall id :: id in records ==> |records[id].amf| == 2
      ensures Valid() && this.records == records
    {
      this.records := records;
    }

    /** `Update_AuC` */
    method UpdateAuc(id: int, sqn: nat)
      requires Valid() && id in records
      modifies this
      ensures Valid() && records == old(records)[id := old(records)[id].(sqn := sqn)]
    {
      records := records[id := records[id].(sqn := sqn)];
    }

    /** `Get_Vectors_AuC(_, "air")`: the stored number is stepped once a vector is made. */
    method GetVectorsAir(aes: Cipher, kdf: Kdf, id: int, plmn: Bytes, rand: Block) returns (v: Option<Vector>)
      requires Valid()
      modifies this
      ensures Valid()
      ensures v == if id in old(records) then Air(aes, kdf, old(records)[id], plmn, rand) else None
      ensures records == if v.None? then old(records)
                         else old(records)[id := old(records)[id].(sqn := old(records)[id].sqn + SQN_STEP)]
    {
      hide GenerateEutranVector;
      if id !in records {
        return None;
      }
      v := Air(aes, kdf, records[id], plmn, rand);
      if v.Some? {
        UpdateAuc(id, records[id].sqn + SQN_STEP);
      }
    }

    /** `Get_Vectors_AuC(_, "sqn_resync")` */
    method GetVectorsResync(aes: Cipher, id: int, payload: Bytes) returns (done: bool)
      requires Valid()
      modifies this
      ensures Valid()
      ensures done <==> id in old(records) && Resynced(aes, old(records)[id], payload).Some?
      ensures records == if done then old(records)[id := Resynced(aes, old(records)[id], payload).value] else old(records)
    {
      hide GenerateResync;
      if id !in records {
        return false;
      }
      if payload == [] {
        UpdateAuc(id, SQN_STEP);
        return true;
      }
      if |payload| < 16 {
        return false;
      }
      var a := records[id];
      var r := GenerateResync(aes, payload[16..], a.ki, a.opc, a.amf, payload[..16]);
      if r.None? {
        return false;
      }
      UpdateAuc(id, r.value.0 + SQN_STEP);
      done := true;
    }

    /** The pass over the members of the request. */
    method ReadAuthInfo(aes: Cipher, id: int, infos: seq<AuthInfo>) returns (requested: Option<nat>)
      requires Valid() && id in records
      modifies this
      ensures Valid()
      ensures var r := ReadInfos(aes, old(records)[id], infos, 1);
              records == old(records)[id := r.0] && requested == r.1
    {
      var n: nat := 1;
      ghost var start := records;
      for i := 0 to |infos|
        invariant Valid() && id in records && records == start[id := records[id]]
        invariant ReadInfos(aes, start[id], infos, 1) == ReadInfos(aes, records[id], infos[i..], n)
      {
        hide Resynced, Limited, FromBytes, ReadInfos;
        ReadInfosStep(aes, records[id], infos, i, n);
        match infos[i] {
          case Resync(payload) =>
            var done := GetVectorsResync(aes, id, payload);
            if !done {
              return None;
            }
          case Requested(data) =>
            if data == [] {
              return None;
            }
            n := Limited(FromBytes(data));
          case OtherInfo =>
        }
      }
      requested := Some(n);
    }

    /** The vector loop of `Answer_16777251_318`. */
    method IssueVectors(aes: Cipher, kdf: Kdf, id: int, plmn: Bytes, rands: nat -> Block, requested: nat)
      returns (answer: Option<seq<Issued>>)
      requires Valid() && id in records
      modifies this
      ensures Valid()
      ensures var r := Issue(aes, kdf, old(records)[id], plmn, rands, 0, requested);
              records == old(records)[id := r.0] && answer == r.1
    {
      hide Air;
      var left: nat, made: seq<Issued> := requested, [];
      ghost var start := records;
      Behind0(Issue(aes, kdf, records[id], plmn, rands, 0, requested).1);
      while left != 0
        invariant 0 <= left <= requested && |made| == requested - left
        invariant Valid() && id in records && records == start[id := records[id]]
        invariant var r := Issue(aes, kdf, records[id], plmn, rands, |made|, left);
                  Issue(aes, kdf, start[id], plmn, rands, 0, requested)
                  == (r.0, Behind(made, r.1))
      {
        var v := GetVectorsAir(aes, kdf, id, plmn, rands(|made|));
        if v.None? {
          return None;
        }
        ghost var before := made;
        made := made + [Issued(left, v.value)];
        left := left - 1;
        Behind1(before, Issued(left + 1, v.value), Issue(aes, kdf, records[id], plmn, rands, |made|, left).1);
      }
      assert made + [] == made;
      answer := Some(made);
    }

    /** The part of `Answer_16777251_318` that reads and steps the sequence number. */
    method AnswerRequest(aes: Cipher, kdf: Kdf, id: int, infos: seq<AuthInfo>, plmn: Bytes, rands: nat -> Block)
      returns (answer: Option<seq<Issued>>)
      requires Valid() && id in records
      modifies this
      ensures Valid()
      ensures var r := Answer(aes, kdf, old(records)[id], infos, plmn, rands);
              records == old(records)[id := r.0] && answer == r.1
    {
      hide Issue, ReadInfos;
      var requested := ReadAuthInfo(aes, id, infos);
      if requested.None? {
        return None;
      }
      answer := IssueVectors(aes, kdf, id, plmn, rands, requested.value);
    }
  }

  // --------------------------------------------------------------- properties

  /** The number the i-th vector of a run is made for. */
  function Nth(sqn: nat, i: nat): nat {
    sqn + 100 * i
  }

  lemma NthNext(sqn: nat, i: nat)
    ensures Nth(sqn, 0) == sqn && Nth(sqn + 100, i) == Nth(sqn, i + 1)
  {
  }

  /** The number the USIM finds in a vector: the first six bytes. */
  function Seen(sqn: nat): nat {
    var b := SqnBytes(sqn);
    if b.Some? then DropBytes(sqn, |b.value| - 6) else 0
  }

  lemma SeenWhole(sqn: nat)
    ensures sqn < SQN_LIMIT ==> Seen(sqn) == sqn && !OddlyLong(sqn)
  {
    hide SqnBytes, OddlyLong;
    SqnRoundTrip(sqn);
    SqnBytesRaises(sqn);
  }

  /** What the i-th of `n` issued vectors is: numbered from the end, on the i-th challenge, and
      accepted by the USIM as carrying the record's AMF and the sequence number given, with the
      response and the key the USIM computes. */
  ghost predicate Carries(aes: Cipher, kdf: Kdf, a: Auc, plmn: Bytes, x: Issued, item: nat, rand: Block, sqn: nat) {
    && x.item == item && x.vector.rand == rand && |x.vector.autn| == 16 && x.vector.autn[6..8] == a.amf
    && UsimCheck(aes, a.ki, a.opc, rand, x.vector.autn) == Some(sqn)
    && x.vector.xres == F2F5(aes, a.ki, rand, a.opc).0
    && x.vector.kasme == UsimKasme(aes, kdf, a.ki, a.opc, plmn, rand, x.vector.autn)
  }

  /** One of the n numbers from `sqn` on does not print as bytes. */
  ghost predicate SomeFails(sqn: nat, n: nat) {
    exists i: nat :: i < n && OddlyLong(Nth(sqn, i))
  }

  /** `stop` is the first that does not. */
  ghost predicate FirstFails(sqn: nat, n: nat, stop: nat) {
    exists i: nat ::
      && i < n && stop == Nth(sqn, i) && OddlyLong(stop)
      && forall j: nat :: j < i ==> !OddlyLong(Nth(sqn, j))
  }

  lemma NoneFails(sqn: nat)
    ensures !SomeFails(sqn, 0)
  {
  }

  lemma FailsHere(sqn: nat, n: nat)
    requires n > 0 && OddlyLong(sqn)
    ensures SomeFails(sqn, n) && FirstFails(sqn, n, sqn)
  {
    hide OddlyLong;
    assert Nth(sqn, 0) == sqn;
  }

  lemma FailsLater(sqn: nat, next: nat, stop: nat, n: nat)
    requires n > 0 && !OddlyLong(sqn) && next == sqn + 100
    ensures SomeFails(sqn, n) <==> SomeFails(next, n - 1)
    ensures FirstFails(next, n - 1, stop) ==> FirstFails(sqn, n, stop)
  {
    hide OddlyLong;
    forall i: nat
      ensures Nth(next, i) == Nth(sqn, i + 1) && Nth(sqn, 0) == sqn
    {
      NthNext(sqn, i);
    }
    hide Nth;
    if SomeFails(sqn, n) {
      var i: nat :| i < n && OddlyLong(Nth(sqn, i));
      assert Nth(next, i - 1) == Nth(sqn, i);
    }
    if FirstFails(next, n - 1, stop) {
      var i: nat :| i < n - 1 && stop == Nth(next, i) && forall j: nat :: j < i ==> !OddlyLong(Nth(next, j));
      forall j: nat | j < i + 1
        ensures !OddlyLong(Nth(sqn, j))
      {
        if j > 0 {
          assert Nth(sqn, j) == Nth(next, j - 1);
        }
      }
      assert stop == Nth(sqn, i + 1);
    }
  }

  /** When every number asked for prints as bytes, issuing n vectors makes exactly n, for the
      numbers s, s + 100, s + 200 and so on, and leaves the stored one at s + 100 n. */
  lemma {:induction false} IssueExact(aes: Cipher, kdf: Kdf, a: Auc, plmn: Bytes, rands: nat -> Block, k: nat, n: nat)
    requires |a.amf| == 2 && !SomeFails(a.sqn, n)
    ensures var (after, answer) := Issue(aes, kdf, a, plmn, rands, k, n);
            && after == a.(sqn := a.sqn + 100 * n)
            && answer.Some? && |answer.value| == n
            && forall i :: 0 <= i < n ==> Carries(aes, kdf, a, plmn, answer.value[i], n - i, rands(k + i), Seen(Nth(a.sqn, i)))
    decreases n
  {
    hide Carries, Air, OddlyLong, Seen;
    if n > 0 {
      var v := Air(aes, kdf, a, plmn, rands(k));
      NthNext(a.sqn, 0);
      assert !OddlyLong(Nth(a.sqn, 0));
      VectorCarries(aes, kdf, a, plmn, rands(k), n);
      var b := a.(sqn := a.sqn + 100);
      FailsLater(a.sqn, b.sqn, 0, n);
      IssueExact(aes, kdf, b, plmn, rands, k + 1, n - 1);
      var rest := Issue(aes, kdf, b, plmn, rands, k + 1, n - 1).1.value;
      var all := [Issued(n, v.value)] + rest;
      assert Issue(aes, kdf, a, plmn, rands, k, n).1 == Some(all);
      forall i | 0 <= i < n
        ensures Carries(aes, kdf, a, plmn, all[i], n - i, rands(k + i), Seen(Nth(a.sqn, i)))
      {
        if i > 0 {
          assert Carries(aes, kdf, b, plmn, rest[i - 1], (n - 1) - (i - 1), rands((k + 1) + (i - 1)), Seen(Nth(b.sqn, i - 1)));
          NthNext(a.sqn, i - 1);
          SameKeys(aes, kdf, a, b, plmn, rest[i - 1], n - i, rands(k + i), Seen(Nth(a.sqn, i)));
        }
      }
    }
  }

  /** One vector: there is none exactly when the stored number does not print as bytes. */
  lemma VectorCarries(aes: Cipher, kdf: Kdf, a: Auc, plmn: Bytes, rand: Block, item: nat)
    requires |a.amf| == 2
    ensures var v := Air(aes, kdf, a, plmn, rand);
            && (v.None? <==> OddlyLong(a.sqn))
            && (v.Some? ==> Carries(aes, kdf, a, plmn, Issued(item, v.value), item, rand, Seen(a.sqn)))
  {
    hide UsimCheck, F1, F2F5, F3, F4, UsimKasme, SqnBytes, OddlyLong, GenerateAutn, Xor;
    SqnBytesRaises(a.sqn);
    if SqnBytes(a.sqn).Some? {
      UsimAcceptsAny(aes, kdf, a.ki, a.opc, a.amf, a.sqn, plmn, rand);
    }
  }

  lemma SameKeys(aes: Cipher, kdf: Kdf, a: Auc, b: Auc, plmn: Bytes, x: Issued, item: nat, rand: Block, sqn: nat)
    requires a.ki == b.ki && a.opc == b.opc && a.amf == b.amf && Carries(aes, kdf, b, plmn, x, item, rand, sqn)
    ensures Carries(aes, kdf, a, plmn, x, item, rand, sqn)
  {
    hide UsimCheck, F2F5, UsimKasme;
  }

  /** There is no answer at all exactly when one of the numbers asked for does not print as
      bytes; the stored number is then left at the first such number, from which no vector can
      be made any more. */
  lemma {:induction false} IssueRaises(aes: Cipher, kdf: Kdf, a: Auc, plmn: Bytes, rands: nat -> Block, k: nat, n: nat)
    requires |a.amf| == 2
    ensures var (after, answer) := Issue(aes, kdf, a, plmn, rands, k, n);
            && (answer.None? <==> SomeFails(a.sqn, n))
            && (answer.None? ==> FirstFails(a.sqn, n, after.sqn))
    decreases n
  {
    hide Air, Carries, OddlyLong, Seen, FirstFails, SomeFails;
    if n == 0 {
      NoneFails(a.sqn);
    } else {
      VectorCarries(aes, kdf, a, plmn, rands(k), n);
      if OddlyLong(a.sqn) {
        FailsHere(a.sqn, n);
      } else {
        var b := a.(sqn := a.sqn + 100);
        IssueRaises(aes, kdf, b, plmn, rands, k + 1, n - 1);
        FailsLater(a.sqn, b.sqn, Issue(aes, kdf, b, plmn, rands, k + 1, n - 1).0.sqn, n);
      }
    }
  }

  /** Within a request's reach of 48 bits, the numbers that do not print are those past them. */
  lemma NearLimit(sqn: nat, n: nat)
    requires sqn < SQN_LIMIT + 100 && n <= 32
    ensures SomeFails(sqn, n) <==> n > 0 && Nth(sqn, n - 1) >= SQN_LIMIT
  {
    hide OddlyLong;
    if n > 0 && Nth(sqn, n - 1) >= SQN_LIMIT {
      ThirteenDigits(Nth(sqn, n - 1));
    }
    forall i: nat | i < n && Nth(sqn, i) < SQN_LIMIT
      ensures !OddlyLong(Nth(sqn, i))
    {
      SeenWhole(Nth(sqn, i));
    }
  }

  lemma ThirteenDigits(sqn: nat)
    requires SQN_LIMIT <= sqn < 16 * SQN_LIMIT
    ensures OddlyLong(sqn)
  {
    Pow16Of12();
    assert Pow16(13) == 16 * Pow16(12);
    assert HasDigits(sqn, 13);
  }

  // ------------------------------------------------------------ the request

  function LastResync(infos: seq<AuthInfo>): Option<Bytes> {
    if infos == [] then None
    else if infos[|infos| - 1].Resync? then Some(infos[|infos| - 1].payload)
    else LastResync(infos[..|infos| - 1])
  }

  function LastRequested(infos: seq<AuthInfo>): Option<Bytes> {
    if infos == [] then None
    else if infos[|infos| - 1].Requested? then Some(infos[|infos| - 1].data)
    else LastRequested(infos[..|infos| - 1])
  }

  /** How many vectors a request asks for: one by default, 32 at most. */
  function Asked(infos: seq<AuthInfo>): nat {
    match LastRequested(infos)
    case None => 1
    case Some(data) => if FromBytes(data) < 32 then FromBytes(data) else 32
  }

  /** Every member is long enough to be read. */
  predicate Readable(infos: seq<AuthInfo>) {
    forall i :: 0 <= i < |infos| ==>
      (infos[i].Resync? ==> infos[i].payload == [] || |infos[i].payload| >= 22) && (infos[i].Requested? ==> infos[i].data != [])
  }

  lemma {:induction false} ReadInfosConcat(aes: Cipher, a: Auc, infos: seq<AuthInfo>, last: AuthInfo, n: nat)
    requires |a.amf| >= 2
    ensures var r := ReadInfos(aes, a, infos, n);
            ReadInfos(aes, a, infos + [last], n) == if r.1.None? then r else ReadInfo(aes, r.0, last, r.1.value)
    decreases |infos|
  {
    hide ReadInfo;
    var all := infos + [last];
    if infos == [] {
      assert all == [last] && all[1..] == [];
    } else {
      assert all[0] == infos[0] && all[1..] == infos[1..] + [last];
      var (b, m) := ReadInfo(aes, a, infos[0], n);
      if m.Some? {
        ReadInfosConcat(aes, b, infos[1..], last, m.value);
      }
    }
  }

  /** The pass over a readable request succeeds; the last Re-Synchronization-Info decides the
      stored number, which becomes the SIM's plus 100, and the last number of vectors, at most
      32 and by default one, decides how many are made. */
  lemma {:induction false} ReadInfosMeans(aes: Cipher, a: Auc, infos: seq<AuthInfo>)
    requires |a.amf| >= 2 && Readable(infos)
    ensures var (after, n) := ReadInfos(aes, a, infos, 1);
            && n == Some(match LastRequested(infos)
                         case None => 1
                         case Some(data) => if FromBytes(data) < 32 then FromBytes(data) else 32)
            && Some(after) == match LastResync(infos) case None => Some(a) case Some(p) => Resynced(aes, a, p)
    decreases |infos|
  {
    hide GenerateResync, FromBytes;
    if infos != [] {
      var init, last := infos[..|infos| - 1], infos[|infos| - 1];
      assert infos == init + [last];
      ReadInfosMeans(aes, a, init);
      ReadInfosConcat(aes, a, init, last, 1);
    }
  }

  /** The pass ends at the first member that cannot be read: there is no answer, and the record
      is left as the members before it made it. */
  lemma UnreadableStops(aes: Cipher, a: Auc, good: seq<AuthInfo>, bad: AuthInfo, rest: seq<AuthInfo>)
    requires |a.amf| >= 2 && Readable(good)
    requires (bad.Resync? && 0 < |bad.payload| < 22) || bad == Requested([])
    ensures var (after, n) := ReadInfos(aes, a, (good + [bad]) + rest, 1);
            && n.None?
            && Some(after) == match LastResync(good) case None => Some(a) case Some(p) => Resynced(aes, a, p)
  {
    hide ReadInfos, LastResync, Readable;
    ReadInfosMeans(aes, a, good);
    ReadInfosConcat(aes, a, good, bad, 1);
    assert ReadInfos(aes, a, good + [bad], 1).1.None?;
    ReadInfosStays(aes, a, good + [bad], rest, 1);
  }

  lemma {:induction false} ReadInfosStays(aes: Cipher, a: Auc, front: seq<AuthInfo>, rest: seq<AuthInfo>, n: nat)
    requires |a.amf| >= 2 && ReadInfos(aes, a, front, n).1.None?
    ensures ReadInfos(aes, a, front + rest, n) == ReadInfos(aes, a, front, n)
    decreases |front|
  {
    hide ReadInfo;
    assert front != [];
    var all := front + rest;
    assert all[0] == front[0] && all[1..] == front[1..] + rest;
    var (b, m) := ReadInfo(aes, a, front[0], n);
    if m.Some? {
      ReadInfosStays(aes, b, front[1..], rest, m.value);
    }
  }

  /** However the pass ends, a number of vectors it comes up with is the one asked for last. */
  lemma {:induction false} ReadInfosCount(aes: Cipher, a: Auc, infos: seq<AuthInfo>)
    requires |a.amf| >= 2
    ensures var n := ReadInfos(aes, a, infos, 1).1; n.None? || n == Some(Asked(infos))
    decreases |infos|
  {
    hide Resynced, FromBytes;
    if infos != [] {
      var init, last := infos[..|infos| - 1], infos[|infos| - 1];
      assert infos == init + [last];
      ReadInfosCount(aes, a, init);
      ReadInfosConcat(aes, a, init, last, 1);
    }
  }

  /** An answer that is completed has as many vectors as the request's last number says, at most
      32, and one when the request has no number. */
  lemma AnswerCount(aes: Cipher, kdf: Kdf, a: Auc, infos: seq<AuthInfo>, plmn: Bytes, rands: nat -> Block)
    requires |a.amf| == 2
    ensures var answer := Answer(aes, kdf, a, infos, plmn, rands).1;
            answer.Some? ==> |answer.value| == match LastRequested(infos)
                                               case None => 1
                                               case Some(data) => if FromBytes(data) < 32 then FromBytes(data) else 32
  {
    hide Issue, ReadInfos, LastRequested, FromBytes, Carries, SomeFails, FirstFails;
    ReadInfosCount(aes, a, infos);
    var (read, n) := ReadInfos(aes, a, infos, 1);
    if n.Some? {
      IssueRaises(aes, kdf, read, plmn, rands, 0, n.value);
      if Issue(aes, kdf, read, plmn, rands, 0, n.value).1.Some? {
        IssueExact(aes, kdf, read, plmn, rands, 0, n.value);
      }
    }
  }

  // ------------------------------------------------- resynchronisation and MAC-S

  /** The number a token conceals, MAC-S aside. */
  function Concealed(aes: Cipher, a: Auc, payload: Bytes): (sqn: nat)
    requires |payload| >= 22
  {
    FromBytes(Xor(payload[16..22], F5Star(aes, a.ki, payload[..16], a.opc)))
  }

  /** The check of MAC-S (section 6.3.5 of TS 33.102): the token ends in f1* of the concealed
      number under the all-zero AMF that a USIM takes. */
  predicate TokenVerifies(aes: Cipher, a: Auc, payload: Bytes)
    requires |payload| >= 22
  {
    payload[22..] == F1(aes, a.ki, Xor(payload[16..22], F5Star(aes, a.ki, payload[..16], a.opc)), payload[..16], a.opc, [0, 0]).1
  }

  lemma ResyncedMeans(aes: Cipher, a: Auc, payload: Bytes)
    requires |a.amf| >= 2 && |payload| >= 22
    ensures Resynced(aes, a, payload) == Some(a.(sqn := Concealed(aes, a, payload) + 100))
    ensures Concealed(aes, a, payload) < SQN_LIMIT
  {
    hide F1, F5Star, FromBytes, Xor;
    assert payload[16..][..6] == payload[16..22];
    var sqnMs := Xor(payload[16..22], F5Star(aes, a.ki, payload[..16], a.opc));
    FromBytesBelow(sqnMs, 6);
    Pow16Of12();
  }

  /** Tokens that hold no whole sequence number: an empty one starts again from 100, and the
      others raise. */
  lemma ShortTokens(aes: Cipher, a: Auc, payload: Bytes)
    requires |a.amf| >= 2
    ensures Resynced(aes, a, payload).None? <==> 0 < |payload| < 22
    ensures Resynced(aes, a, []) == Some(a.(sqn := 100))
  {
    hide GenerateResync;
  }

  /** What stands in the place of MAC-S never matters. */
  lemma MacNeverMatters(aes: Cipher, a: Auc, p: Bytes, q: Bytes)
    requires |a.amf| >= 2 && |p| >= 22 && |q| >= 22 && p[..22] == q[..22]
    ensures Resynced(aes, a, p) == Resynced(aes, a, q)
  {
    hide Resynced, F5Star, FromBytes, Xor;
    ResyncedMeans(aes, a, p);
    ResyncedMeans(aes, a, q);
    assert p[..16] == p[..22][..16] && q[..16] == q[..22][..16];
    assert p[16..22] == p[..22][16..22] && q[16..22] == q[..22][16..22];
  }

  /** The record is safe from tokens no SIM sent: it is unchanged or the token verifies. */
  predicate OnlyVerifiedMoves(aes: Cipher, a: Auc, payload: Bytes)
    requires |a.amf| >= 2 && |payload| >= 22
  {
    Resynced(aes, a, payload) == Some(a) || TokenVerifies(aes, a, payload)
  }

  /** Exactly when that holds: the MAC-S is right, or the number is already the one stored. */
  lemma OnlyVerifiedMovesExactly(aes: Cipher, a: Auc, payload: Bytes)
    requires |a.amf| >= 2 && |payload| >= 22
    ensures OnlyVerifiedMoves(aes, a, payload)
       <==> TokenVerifies(aes, a, payload) || a.sqn == Concealed(aes, a, payload) + 100
  {
    hide Resynced, TokenVerifies, Concealed;
    ResyncedMeans(aes, a, payload);
  }

  /** A token as a SIM makes it, with MAC-S under an AMF of its own. */
  function SimToken(aes: Cipher, a: Auc, simAmf: Bytes, rand: Block, simSqn: nat): (p: Bytes)
    requires |simAmf| >= 2 && simSqn < SQN_LIMIT
    ensures |p| == 30 && p[..16] == rand
  {
    SqnRoundTrip(simSqn);
    rand + GenerateAuts(aes, a.ki, a.opc, simAmf, rand, simSqn).value
  }

  lemma SimTokenConceals(aes: Cipher, a: Auc, simAmf: Bytes, rand: Block, simSqn: nat)
    requires |simAmf| >= 2 && simSqn < SQN_LIMIT
    ensures var p := SimToken(aes, a, simAmf, rand, simSqn);
            && SqnBytes(simSqn).Some? && |SqnBytes(simSqn).value| == 6
            && Xor(p[16..22], F5Star(aes, a.ki, rand, a.opc)) == SqnBytes(simSqn).value
            && Concealed(aes, a, p) == simSqn
            && p[22..] == F1(aes, a.ki, SqnBytes(simSqn).value, rand, a.opc, simAmf).1
  {
    hide F1, F5Star, FromBytes, Xor, SqnBytes;
    SqnRoundTrip(simSqn);
    var p := SimToken(aes, a, simAmf, rand, simSqn);
    var auts := GenerateAuts(aes, a.ki, a.opc, simAmf, rand, simSqn).value;
    assert p[16..22] == auts[..6] && p[22..] == auts[6..];
    var b, ak := SqnBytes(simSqn).value, F5Star(aes, a.ki, rand, a.opc);
    assert auts[..6] == Xor(b, ak) && auts[6..] == F1(aes, a.ki, b, rand, a.opc, simAmf).1;
    XorCancels(b, ak);
  }

  /** The token of a conforming SIM verifies; the same token with its last byte changed does
      not, and moves the stored number all the same. */
  lemma ForgedTokenMoves(aes: Cipher, a: Auc, rand: Block, simSqn: nat, last: byte)
    requires |a.amf| >= 2 && simSqn < SQN_LIMIT
    requires last != SimToken(aes, a, [0, 0], rand, simSqn)[29]
    ensures var p := SimToken(aes, a, [0, 0], rand, simSqn);
            var forged := p[29 := last];
            && TokenVerifies(aes, a, p) && !TokenVerifies(aes, a, forged)
            && Resynced(aes, a, forged) == Resynced(aes, a, p) == Some(a.(sqn := simSqn + 100))
            && (OnlyVerifiedMoves(aes, a, forged) <==> a.sqn == simSqn + 100)
  {
    hide F1, F5Star, Concealed, Xor, SqnBytes, Resynced, SimToken;
    var p := SimToken(aes, a, [0, 0], rand, simSqn);
    var forged := p[29 := last];
    SimTokenConceals(aes, a, [0, 0], rand, simSqn);
    assert forged[..22] == p[..22] && forged[16..22] == p[16..22] && forged[..16] == p[..16];
    assert forged[22..][7] == last != p[22..][7];
    MacNeverMatters(aes, a, p, forged);
    ResyncedMeans(aes, a, p);
  }

  // ------------------------------------------------------------ whole answers

  /** The i-th of the vectors an answer holds, of n, the first made for the number `first`. */
  ghost predicate AnswerCarries(aes: Cipher, kdf: Kdf, a: Auc, plmn: Bytes, rands: nat -> Block, vectors: seq<Issued>, first: nat, n: nat) {
    && |vectors| == n
    && forall i :: 0 <= i < n ==> Carries(aes, kdf, a, plmn, vectors[i], n - i, rands(i), Seen(Nth(first, i)))
  }

  /** The answer to any readable request: the numbers start from the stored one, or anew from
      what the last resynchronisation makes of it. */
  lemma AnswerMeans(aes: Cipher, kdf: Kdf, a: Auc, infos: seq<AuthInfo>, plmn: Bytes, rands: nat -> Block, read: Auc)
    requires |a.amf| == 2 && Readable(infos)
    requires Some(read) == match LastResync(infos) case None => Some(a) case Some(p) => Resynced(aes, a, p)
    ensures var n := Asked(infos);
            var (after, answer) := Answer(aes, kdf, a, infos, plmn, rands);
            && (answer.None? <==> SomeFails(read.sqn, n))
            && (answer.Some? ==> after == a.(sqn := read.sqn + 100 * n)
                                 && AnswerCarries(aes, kdf, a, plmn, rands, answer.value, read.sqn, n))
  {
    hide Resynced, Issue, ReadInfos, FromBytes, LastRequested, Carries, OddlyLong, Seen, Nth;
    ReadInfosMeans(aes, a, infos);
    var n := Asked(infos);
    IssueRaises(aes, kdf, read, plmn, rands, 0, n);
    if Issue(aes, kdf, read, plmn, rands, 0, n).1.Some? {
      IssueExact(aes, kdf, read, plmn, rands, 0, n);
      var answer := Issue(aes, kdf, read, plmn, rands, 0, n).1.value;
      forall i | 0 <= i < n
        ensures Carries(aes, kdf, a, plmn, answer[i], n - i, rands(i), Seen(Nth(read.sqn, i)))
      {
        assert Carries(aes, kdf, read, plmn, answer[i], n - i, rands(0 + i), Seen(Nth(read.sqn, i)));
        SameKeys(aes, kdf, a, read, plmn, answer[i], n - i, rands(i), Seen(Nth(read.sqn, i)));
      }
    }
  }

  /** The numbers below 2^48 are seen whole. */
  lemma AnswerSeesAll(aes: Cipher, kdf: Kdf, a: Auc, plmn: Bytes, rands: nat -> Block, vectors: seq<Issued>, first: nat, n: nat)
    requires AnswerCarries(aes, kdf, a, plmn, rands, vectors, first, n)
    requires n > 0 ==> Nth(first, n - 1) < SQN_LIMIT
    ensures forall i :: 0 <= i < n ==> Carries(aes, kdf, a, plmn, vectors[i], n - i, rands(i), first + 100 * i)
  {
    hide Carries, Seen;
    forall i | 0 <= i < n
      ensures Carries(aes, kdf, a, plmn, vectors[i], n - i, rands(i), first + 100 * i)
    {
      SeenWhole(Nth(first, i));
    }
  }

  /** The whole answer to a request in which a SIM asks for resynchronisation, whatever AMF it
      took for its MAC-S and whatever number was stored: the first vector carries the SIM's own
      number plus 100, so every vector is ahead of the SIM, and the stored number ends up ahead
      of all of them.  There is no answer exactly when the last vector would pass 48 bits. */
  lemma ResyncedAnswer(aes: Cipher, kdf: Kdf, a: Auc, infos: seq<AuthInfo>, plmn: Bytes, rands: nat -> Block,
                       rand: Block, simSqn: nat, simAmf: Bytes)
    requires |a.amf| == 2 && |simAmf| >= 2 && Readable(infos) && simSqn < SQN_LIMIT
    requires LastResync(infos) == Some(SimToken(aes, a, simAmf, rand, simSqn))
    ensures var n := Asked(infos);
            var (after, answer) := Answer(aes, kdf, a, infos, plmn, rands);
            && (answer.Some? <==> n == 0 || simSqn + 100 * n < SQN_LIMIT)
            && (answer.Some? ==>
                  && after == a.(sqn := simSqn + 100 * (n + 1)) && |answer.value| == n
                  && forall i :: 0 <= i < n ==> Carries(aes, kdf, a, plmn, answer.value[i], n - i, rands(i), simSqn + 100 * (i + 1)))
  {
    hide Resynced, SimToken, Concealed, Answer, Carries, OddlyLong, AnswerCarries, Asked;
    AskedAtMost(infos);
    var p := SimToken(aes, a, simAmf, rand, simSqn);
    SimTokenConceals(aes, a, simAmf, rand, simSqn);
    ResyncedMeans(aes, a, p);
    var read := a.(sqn := simSqn + 100);
    AnswerMeans(aes, kdf, a, infos, plmn, rands, read);
    var n := Asked(infos);
    NearLimit(read.sqn, n);
    var answer := Answer(aes, kdf, a, infos, plmn, rands).1;
    if answer.Some? {
      AnswerSeesAll(aes, kdf, a, plmn, rands, answer.value, read.sqn, n);
      assert |answer.value| == n by { AnswerLength(aes, kdf, a, plmn, rands, answer.value, read.sqn, n); }
      forall i | 0 <= i < n
        ensures Carries(aes, kdf, a, plmn, answer.value[i], n - i, rands(i), simSqn + 100 * (i + 1))
      {
        assert Carries(aes, kdf, a, plmn, answer.value[i], n - i, rands(i), read.sqn + 100 * i);
      }
    }
  }

  lemma AnswerLength(aes: Cipher, kdf: Kdf, a: Auc, plmn: Bytes, rands: nat -> Block, vectors: seq<Issued>, first: nat, n: nat)
    requires AnswerCarries(aes, kdf, a, plmn, rands, vectors, first, n)
    ensures |vectors| == n
  {
    hide Carries, Seen;
  }

  lemma {:induction false} AskedAtMost(infos: seq<AuthInfo>)
    ensures Asked(infos) <= 32
  {
    hide FromBytes, LastRequested;
  }

  /** The same without resynchronisation: the vectors continue from the stored number, and there
      is no answer exactly when one of their numbers does not print as bytes. */
  lemma PlainAnswer(aes: Cipher, kdf: Kdf, a: Auc, infos: seq<AuthInfo>, plmn: Bytes, rands: nat -> Block)
    requires |a.amf| == 2 && Readable(infos) && LastResync(infos).None?
    ensures var n := Asked(infos);
            var (after, answer) := Answer(aes, kdf, a, infos, plmn, rands);
            && (answer.None? <==> SomeFails(a.sqn, n))
            && (answer.Some? ==> after == a.(sqn := a.sqn + 100 * n) && |answer.value| == n)
            && (n == 0 || a.sqn + 100 * (n - 1) < SQN_LIMIT ==>
                  && answer.Some?
                  && forall i :: 0 <= i < n ==> Carries(aes, kdf, a, plmn, answer.value[i], n - i, rands(i), a.sqn + 100 * i))
  {
    hide Resynced, Answer, Carries, OddlyLong, AnswerCarries, Asked, Readable, LastResync;
    AnswerMeans(aes, kdf, a, infos, plmn, rands, a);
    var n := Asked(infos);
    var answer := Answer(aes, kdf, a, infos, plmn, rands).1;
    if n == 0 || a.sqn + 100 * (n - 1) < SQN_LIMIT {
      AskedAtMost(infos);
      NearLimit(if n == 0 then 0 else a.sqn, n);
      AnswerSeesAll(aes, kdf, a, plmn, rands, answer.value, a.sqn, n);
    }
    if answer.Some? {
      AnswerLength(aes, kdf, a, plmn, rands, answer.value, a.sqn, n);
    }
  }
}

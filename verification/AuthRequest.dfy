/**
  From the text of an Authentication-Information-Request to its answer: how the members of its
  Requested-EUTRAN-Authentication-Info (1408) reach the vector loop, and which
  resynchronisation tokens the decoder takes for groups on the way.
 */
module AuthRequest {
  import opened PyText
  import opened AvpCodec
  import opened AvpTree
  import opened AvpLookup
  import T = AvpText
  import opened Milenage
  import opened AuthVectors

  const AUTHENTICATION_INFO := 1408
  const REQUESTED_VECTORS := 1410
  const RESYNCHRONIZATION := 1411

  /** The text of some bytes, as `bytes.hex()` writes it. */
  predicate OfBytes(s: string) {
    |s| % 2 == 0 && forall i :: 0 <= i < |s| ==> '0' <= s[i] <= '9' || 'a' <= s[i] <= 'f'
  }

  lemma OfBytesIsHex(s: string)
    requires OfBytes(s)
    ensures HexText(s)
  {
  }

  predicate SubsOfBytes(subs: seq<SubAvp>) {
    forall i :: 0 <= i < |subs| ==> OfBytes(subs[i].data)
  }

  predicate AvpsOfBytes(avps: seq<Avp>) {
    forall i :: 0 <= i < |avps| ==> OfBytes(avps[i].head.data) && SubsOfBytes(avps[i].subs)
  }

  // ---------------------------------------------------- the members of a request

  function InfoOf(sub: SubAvp): AuthInfo
    requires OfBytes(sub.data)
  {
    OfBytesIsHex(sub.data);
    if sub.code == RESYNCHRONIZATION then Resync(Unhex(sub.data))
    else if sub.code == REQUESTED_VECTORS then Requested(Unhex(sub.data))
    else OtherInfo
  }

  function InfosOf(subs: seq<SubAvp>): (infos: seq<AuthInfo>)
    requires SubsOfBytes(subs)
    ensures |infos| == |subs| && forall i :: 0 <= i < |subs| ==> infos[i] == InfoOf(subs[i])
  {
    seq(|subs|, i requires 0 <= i < |subs| => InfoOf(subs[i]))
  }

  lemma {:induction false} LookupOfBytes(avps: seq<Avp>, code: int)
    requires AvpsOfBytes(avps)
    ensures forall i :: 0 <= i < |Lookup(avps, code)| && Lookup(avps, code)[i].Subs? ==> SubsOfBytes(Lookup(avps, code)[i].list)
    decreases |avps|
  {
    hide OfBytes;
    if avps != [] {
      LookupOfBytes(avps[1..], code);
      TextsOnly(avps[0].subs, code);
    }
  }

  lemma {:induction false} TextsOnly(subs: seq<SubAvp>, code: int)
    ensures forall i :: 0 <= i < |LookupSubs(subs, code)| ==> LookupSubs(subs, code)[i].Text?
  {
    if subs != [] {
      TextsOnly(subs[1..], code);
    }
  }

  /** What the loop over the first 1408 goes through: nothing without one, or when it was found
      blank inside another group; an exception when its payload was not taken apart and is still
      text. */
  function InfosIn(avps: seq<Avp>): Option<seq<AuthInfo>>
    requires AvpsOfBytes(avps)
  {
    var found := Lookup(avps, AUTHENTICATION_INFO);
    LookupOfBytes(avps, AUTHENTICATION_INFO);
    if found == [] then Some([])
    else if found[0].Subs? then Some(InfosOf(found[0].list))
    else if found[0].data == "" then Some([])
    else None
  }

  /** The part of the answer to the AVPs of a request that is about vectors. */
  ghost function AnswerPacket(aes: Cipher, kdf: Kdf, a: Auc, packet: string, plmn: Bytes, rands: nat -> Block): (Auc, Option<seq<Issued>>)
    requires OfBytes(packet) && |a.amf| >= 2
  {
    DecodedOfBytes(packet);
    var infos := InfosIn(Decode(packet));
    if infos.None? then (a, None) else Answer(aes, kdf, a, infos.value, plmn, rands)
  }

  // ------------------------------------------------------- all packets of bytes

  lemma ClampEven(i: int, n: nat)
    requires i % 2 == 0 && n % 2 == 0
    ensures Clamp(i, n) % 2 == 0
  {
  }

  lemma PartOfBytes(s: string, i: nat, j: nat)
    requires OfBytes(s) && i <= j <= |s| && i % 2 == 0 && j % 2 == 0
    ensures OfBytes(s[i..j])
  {
    var part := s[i..j];
    assert |part| % 2 == 0;
    forall k | 0 <= k < |part|
      ensures '0' <= part[k] <= '9' || 'a' <= part[k] <= 'f'
    {
      assert part[k] == s[i + k];
    }
  }

  lemma SliceOfBytes(s: string, lo: int, hi: int)
    requires OfBytes(s) && lo % 2 == 0 && hi % 2 == 0
    ensures OfBytes(Slice(s, lo, hi)) && OfBytes(From(s, lo))
  {
    hide Clamp;
    ClampEven(lo, |s|);
    ClampEven(hi, |s|);
    assert |s| % 2 == 0;
    PartOfBytes(s, Clamp(lo, |s|), |s|);
    PartOfBytes(s, 0, 0);
    assert s[0..0] == [];
    hide OfBytes;
    assert s[Clamp(lo, |s|)..] == s[Clamp(lo, |s|)..|s|];
    if Clamp(lo, |s|) <= Clamp(hi, |s|) {
      PartOfBytes(s, Clamp(lo, |s|), Clamp(hi, |s|));
    }
  }

  lemma Doubled(a: int, b: int)
    ensures (a * 2) % 2 == 0 && (a * 2 + b * 2) % 2 == 0
  {
  }

  lemma ReadOfBytes(data: string)
    requires OfBytes(data)
    ensures var a := ReadAvp(data); a.Some? ==> OfBytes(a.value.data) && OfBytes(After(data, a.value.length))
  {
    hide OfBytes, ParseInt, Slice, From, RoundUp4;
    var a := ReadAvp(data);
    if a.Some? {
      var n := a.value.length;
      Doubled(n, RoundUp4(n) - n);
      SliceOfBytes(data, 24, n * 2);
      SliceOfBytes(data, 16, n * 2);
      SliceOfBytes(data, n * 2 + (RoundUp4(n) - n) * 2, 0);
    }
  }

  predicate StackOfBytes(stack: seq<string>) {
    forall i :: 0 <= i < |stack| ==> OfBytes(stack[i])
  }

  /** A record whose data the guess would not take apart. */
  predicate Settled(a: SubAvp) {
    !LooksLikeAvp(a.data)
  }

  lemma BlankedIsSettled(a: SubAvp)
    ensures Settled(Blanked(a))
    ensures OfBytes(a.data) ==> OfBytes(Blanked(a).data)
  {
    NothingLooksLikeAvp();
  }

  lemma PushedOfBytes(below: seq<string>, a: SubAvp, data: string)
    requires StackOfBytes(below) && OfBytes(a.data) && OfBytes(After(data, a.length))
    ensures StackOfBytes(PushBoth(below, a, data))
  {
    hide OfBytes, After, LooksLikeAvp;
  }

  lemma TopOfBytes(stack: seq<string>)
    requires StackOfBytes(stack) && stack != []
    ensures OfBytes(stack[|stack| - 1]) && StackOfBytes(stack[..|stack| - 1])
  {
    hide OfBytes;
  }

  predicate AllSettled(subs: seq<SubAvp>) {
    forall i :: 0 <= i < |subs| ==> Settled(subs[i])
  }

  lemma OneMoreSub(a: SubAvp, subs: seq<SubAvp>)
    ensures Settled(a) && AllSettled(subs) ==> AllSettled([a] + subs)
    ensures OfBytes(a.data) && SubsOfBytes(subs) ==> SubsOfBytes([a] + subs)
  {
    hide OfBytes, Settled;
    assert forall i :: 0 < i < |[a] + subs| ==> ([a] + subs)[i] == subs[i - 1];
  }

  lemma {:induction false} UnpackedSubs(stack: seq<string>, failsafe: nat)
    requires failsafe <= FAILSAFE_LIMIT
    ensures var u := UnpackSpec(stack, failsafe);
            AllSettled(u.subs) && (StackOfBytes(stack) ==> SubsOfBytes(u.subs) && StackOfBytes(u.stack))
    decreases FAILSAFE_LIMIT - failsafe
  {
    hide OfBytes, Settled, ReadAvp, After, LooksLikeAvp, Blanked, PushBoth, StackOfBytes;
    if stack != [] && failsafe < FAILSAFE_LIMIT {
      hide AllSettled, SubsOfBytes;
      var data, below := stack[|stack| - 1], stack[..|stack| - 1];
      var a := ReadAvp(data);
      if StackOfBytes(stack) {
        TopOfBytes(stack);
      }
      NoSubs();
      if a.Some? {
        BlankedIsSettled(a.value);
        if StackOfBytes(stack) {
          ReadOfBytes(data);
          PushedOfBytes(below, a.value, data);
        }
        UnpackedSubs(PushBoth(below, a.value, data), failsafe + 1);
        OneMoreSub(Blanked(a.value), UnpackSpec(PushBoth(below, a.value, data), failsafe + 1).subs);
      }
    }
  }

  lemma NoSubs()
    ensures AllSettled([]) && SubsOfBytes([])
  {
  }

  lemma {:induction false} DecodedRecords(data: string, stack: seq<string>, failsafe: nat)
    requires failsafe <= FAILSAFE_LIMIT + 1
    ensures var avps := DecodeSpec(data, stack, failsafe);
            && (forall i :: 0 <= i < |avps| ==> Settled(avps[i].head) && AllSettled(avps[i].subs))
            && (OfBytes(data) && StackOfBytes(stack) ==> AvpsOfBytes(avps))
    decreases FAILSAFE_LIMIT + 1 - failsafe
  {
    hide OfBytes, ReadAvp, After, LooksLikeAvp, UnpackSpec;
    if |data| > 16 && failsafe < FAILSAFE_LIMIT {
      var a := ReadAvp(data);
      if OfBytes(data) {
        ReadOfBytes(data);
      }
      if a.None? {
        DecodedRecords(data, stack, failsafe + 1);
      } else if !LooksLikeAvp(a.value.data) {
        DecodedRecords(After(data, a.value.length), stack, failsafe + 1);
      } else {
        BlankedIsSettled(a.value);
        var u := UnpackSpec(stack + [a.value.data], failsafe + 1);
        UnpackedSubs(stack + [a.value.data], failsafe + 1);
        DecodedRecords(if u.raised then data else After(data, a.value.length), u.stack, u.failsafe);
      }
    }
  }

  /** Whatever the decoder cuts out of received bytes is whole bytes. */
  lemma DecodedOfBytes(packet: string)
    requires OfBytes(packet)
    ensures AvpsOfBytes(Decode(packet))
  {
    DecodedRecords(packet, [], 0);
  }

  /** No record of any decoded text, at either level, still holds data that looks like an AVP. */
  lemma DecodedIsSettled(packet: string)
    ensures forall a :: a in Decode(packet) ==> Settled(a.head) && forall s :: s in a.subs ==> Settled(s)
  {
    hide Settled;
    DecodedRecords(packet, [], 0);
    var avps := Decode(packet);
    forall a, s | a in avps && s in a.subs
      ensures Settled(s)
    {
      var i :| 0 <= i < |avps| && avps[i] == a;
      var j :| 0 <= j < |a.subs| && a.subs[j] == s;
      assert Settled(avps[i].subs[j]);
    }
  }

  // ------------------------------------------------------------ hexadecimal text

  lemma FrontOfBytes(s: string)
    requires OfBytes(s) && s != ""
    ensures |s| >= 2 && OfBytes(s[..|s| - 2])
    ensures DigitChar(Hexadecimal, DigitValue(Hexadecimal, s[|s| - 2])) == s[|s| - 2]
    ensures DigitChar(Hexadecimal, DigitValue(Hexadecimal, s[|s| - 1])) == s[|s| - 1]
    ensures s == s[..|s| - 2] + [s[|s| - 2], s[|s| - 1]]
  {
    hide DigitValue, DigitChar;
    var n := |s|;
    PartOfBytes(s, 0, n - 2);
    assert s[0..n - 2] == s[..n - 2];
    OneChar(s[n - 2]);
    OneChar(s[n - 1]);
  }

  lemma NoHex()
    ensures T.Hex([]) == "" && HexText("") && Unhex("") == []
  {
  }

  lemma {:induction false} HexOfUnhex(s: string)
    requires OfBytes(s)
    ensures HexText(s) && T.Hex(Unhex(s)) == s
    decreases |s|
  {
    hide OfBytes, AllDigits, DigitValue, DigitChar, Unhex, T.Hex;
    OfBytesIsHex(s);
    EvenLength(s);
    if s == "" {
      NoHex();
    } else {
      var n := |s|;
      FrontOfBytes(s);
      HexOfUnhex(s[..n - 2]);
      UnhexLast(s);
      var high: nat, low: nat := DigitValue(Hexadecimal, s[n - 2]), DigitValue(Hexadecimal, s[n - 1]);
      Halves(high, low);
      HexSnoc(Unhex(s[..n - 2]), 16 * high + low);
    }
  }

  lemma EvenLength(s: string)
    requires OfBytes(s)
    ensures |s| % 2 == 0
  {
  }

  lemma Halves(high: nat, low: nat)
    requires high < 16 && low < 16
    ensures 16 * high + low < 256 && (16 * high + low) / 16 == high && (16 * high + low) % 16 == low
  {
  }

  lemma OneChar(c: char)
    requires '0' <= c <= '9' || 'a' <= c <= 'f'
    ensures DigitChar(Hexadecimal, DigitValue(Hexadecimal, c)) == c
  {
  }

  lemma HexSnoc(front: Bytes, b: byte)
    ensures T.Hex(front + [b]) == T.Hex(front) + [DigitChar(Hexadecimal, b / 16), DigitChar(Hexadecimal, b % 16)]
  {
    assert (front + [b])[..|front|] == front;
  }

  lemma OfBytesSnoc(s: string, c: char, d: char)
    requires OfBytes(s) && ('0' <= c <= '9' || 'a' <= c <= 'f') && ('0' <= d <= '9' || 'a' <= d <= 'f')
    ensures OfBytes(s + [c, d])
    ensures (s + [c, d])[..|s|] == s
  {
  }

  lemma {:induction false} HexIsOfBytes(bs: Bytes)
    ensures OfBytes(T.Hex(bs)) && Unhex(T.Hex(bs)) == bs
    decreases |bs|
  {
    if bs != [] {
      hide OfBytes, Unhex, T.Hex, AllDigits;
      var front, b := bs[..|bs| - 1], bs[|bs| - 1];
      HexIsOfBytes(front);
      assert bs == front + [b];
      HexSnoc(front, b);
      var c, d := DigitChar(Hexadecimal, b / 16), DigitChar(Hexadecimal, b % 16);
      OfBytesSnoc(T.Hex(front), c, d);
      var s := T.Hex(bs);
      assert s == T.Hex(front) + [c, d];
      UnhexLast(s);
      assert b == 16 * (b / 16) + b % 16;
    } else {
      assert T.Hex([]) == "";
    }
  }

  /** The number of requested vectors, `int(misc_data, 16)`, is that of the bytes. */
  lemma RequestedNumber(data: string)
    requires OfBytes(data) && data != ""
    ensures HexText(data) && ParseInt(Hexadecimal, data) == Some(FromBytes(Unhex(data)))
  {
    hide ParseInt, Value;
    OfBytesIsHex(data);
    FromUnhex(data);
    ParseIntOfDigits(Hexadecimal, data);
  }

  // --------------------------------------------------- tokens taken for groups

  /** The loop gets to see the token. */
  ghost predicate Reaches(packet: string, token: Bytes)
    requires OfBytes(packet)
  {
    DecodedOfBytes(packet);
    var infos := InfosIn(Decode(packet));
    infos.Some? && Resync(token) in infos.value
  }

  /** A token that is taken for a group reaches the loop in no packet whatsoever. */
  lemma TakenTokenIsLost(packet: string, token: Bytes)
    requires OfBytes(packet) && T.TakenForGroup(token)
    ensures !Reaches(packet, token)
  {
    hide LooksLikeAvp, Decode, LookupSubs, OfBytes;
    DecodedOfBytes(packet);
    DecodedIsSettled(packet);
    var avps := Decode(packet);
    var found := Lookup(avps, 1408);
    LookupOfBytes(avps, 1408);
    if found != [] && found[0].Subs? {
      LookupFinds(avps, 1408);
      var a :| a in avps && found[0].list == a.subs;
      forall i | 0 <= i < |a.subs|
        ensures InfosOf(a.subs)[i] != Resync(token)
      {
        assert a.subs[i] in a.subs;
        HexOfUnhex(a.subs[i].data);
        T.GuessOnBytes(token);
      }
    }
  }

  lemma {:induction false} LookupFinds(avps: seq<Avp>, code: int)
    ensures forall i :: 0 <= i < |Lookup(avps, code)| && Lookup(avps, code)[i].Subs?
                        ==> exists a :: a in avps && Lookup(avps, code)[i].list == a.subs
    decreases |avps|
  {
    if avps != [] {
      var found := Lookup(avps, code);
      LookupFinds(avps[1..], code);
      TextsOnly(avps[0].subs, code);
      forall i | 0 <= i < |found| && found[i].Subs?
        ensures exists a :: a in avps && found[i].list == a.subs
      {
        var own := (if avps[0].head.code == code then [FoundAt(avps[0])] else []) + LookupSubs(avps[0].subs, code);
        var rest := Lookup(avps[1..], code);
        assert found == own + rest;
        if i < |own| {
          assert avps[0] in avps;
        } else {
          assert found[i] == rest[i - |own|];
          var a :| a in avps[1..] && rest[i - |own|].list == a.subs;
          assert a in avps;
        }
      }
    }
  }

  /** A request with one 1408, a group. */
  predicate HasInfo(f: Forest, members: Forest) {
    && Fits(f, false) && Size(f) <= 100 && !BareTail(f) && OfBytes(Print(f))
    && Expected(f, 1408, true) == multiset{Subs(Flatten(members))}
  }

  /** And in the group one AVP, at any depth, that is the token. */
  predicate Requests(f: Forest, members: Forest, token: Bytes) {
    HasInfo(f, members) && Expected(members, 1411, false) == multiset{Text(T.Hex(token))}
  }

  /** The members that the loop goes through are the flattened members of the group. */
  lemma GroupInfos(f: Forest, members: Forest)
    requires HasInfo(f, members) && NoFalseGroup(f)
    ensures SubsOfBytes(Flatten(members)) && AvpsOfBytes(Decode(Print(f)))
    ensures InfosIn(Decode(Print(f))) == Some(InfosOf(Flatten(members)))
  {
    hide OfBytes, Fits, NoFalseGroup, Size, BareTail, Print, Decode, Lookup, LookupSubs, Expected, Flatten, ForestOk, InfoOf, Unhex;
    DecodedOfBytes(Print(f));
    OkIsNoFalseGroup(f);
    LookupUnique(f, 1408, Subs(Flatten(members)));
    LookupOfBytes(Decode(Print(f)), 1408);
    assert Lookup(Decode(Print(f)), 1408)[0] == Subs(Flatten(members));
  }

  /** Among them is the token, the last there is. */
  lemma RequestInfos(f: Forest, members: Forest, token: Bytes)
    requires Requests(f, members, token) && NoFalseGroup(f)
    ensures SubsOfBytes(Flatten(members)) && AvpsOfBytes(Decode(Print(f)))
    ensures InfosIn(Decode(Print(f))) == Some(InfosOf(Flatten(members)))
    ensures LastResync(InfosOf(Flatten(members))) == Some(token) && Resync(token) in InfosOf(Flatten(members))
  {
    hide HasInfo, OfBytes, NoFalseGroup, Print, Decode, Lookup, LookupSubs, Expected, Flatten, LastResync, InfosIn, InfoOf, Unhex;
    GroupInfos(f, members);
    var subs := Flatten(members);
    LookupFlattened(members, 1411);
    OrderCounts(members, 1411, false);
    Single(LookupSubs(subs, 1411), Text(T.Hex(token)));
    LastResyncOf(subs);
    HexIsOfBytes(token);
    LastResyncIsIn(InfosOf(subs));
  }

  lemma Single<X>(s: seq<X>, x: X)
    requires multiset(s) == multiset{x}
    ensures s == [x]
  {
    assert |multiset(s)| == 1;
    assert s[0] in multiset(s);
  }

  lemma {:induction false} LastResyncIsIn(infos: seq<AuthInfo>)
    ensures LastResync(infos).Some? ==> Resync(LastResync(infos).value) in infos
    decreases |infos|
  {
    if infos != [] {
      LastResyncIsIn(infos[..|infos| - 1]);
    }
  }

  /** The last resynchronisation is the last entry that looking up its code finds. */
  lemma {:induction false} LastResyncOf(subs: seq<SubAvp>)
    requires SubsOfBytes(subs)
    ensures var found := LookupSubs(subs, 1411);
            && (found == [] ==> LastResync(InfosOf(subs)).None?)
            && (found != [] ==>
                  var d := found[|found| - 1];
                  d.Text? && OfBytes(d.data) && HexText(d.data) && LastResync(InfosOf(subs)) == Some(Unhex(d.data)))
    decreases |subs|
  {
    hide OfBytes, LookupSubs, Unhex;
    if subs == [] {
      LookupNothing(1411);
    } else {
      var n := |subs| - 1;
      LastResyncOf(subs[..n]);
      LookupSubsNext(subs, n, 1411);
      assert subs[..n + 1] == subs;
      assert InfosOf(subs)[..n] == InfosOf(subs[..n]);
      OfBytesIsHex(subs[n].data);
      if subs[n].code != 1411 {
        assert LookupSubs(subs[..n], 1411) + [] == LookupSubs(subs[..n], 1411);
      }
    }
  }

  /** And the last number of vectors the last that looking up 1410 finds. */
  lemma {:induction false} LastRequestedOf(subs: seq<SubAvp>)
    requires SubsOfBytes(subs)
    ensures var found := LookupSubs(subs, 1410);
            && (found == [] ==> LastRequested(InfosOf(subs)).None?)
            && (found != [] ==>
                  var d := found[|found| - 1];
                  d.Text? && OfBytes(d.data) && HexText(d.data) && LastRequested(InfosOf(subs)) == Some(Unhex(d.data)))
    decreases |subs|
  {
    hide OfBytes, LookupSubs, Unhex;
    if subs == [] {
      LookupNothing(1410);
    } else {
      var n := |subs| - 1;
      LastRequestedOf(subs[..n]);
      LookupSubsNext(subs, n, 1410);
      assert subs[..n + 1] == subs;
      assert InfosOf(subs)[..n] == InfosOf(subs[..n]);
      OfBytesIsHex(subs[n].data);
      if subs[n].code != 1410 {
        assert LookupSubs(subs[..n], 1410) + [] == LookupSubs(subs[..n], 1410);
      }
    }
  }

  /** In a request in which nothing else is mistaken, the token reaches the loop exactly when it
      is not taken for a group. */
  lemma TokenReaches(f: Forest, members: Forest, token: Bytes)
    requires Requests(f, members, token)
    requires T.TakenForGroup(token) || NoFalseGroup(f)
    ensures Reaches(Print(f), token) <==> !T.TakenForGroup(token)
  {
    hide Requests, NoFalseGroup, Decode, Print, InfosIn, OfBytes;
    assert OfBytes(Print(f)) by { RequestPrints(f, members, token); }
    if T.TakenForGroup(token) {
      TakenTokenIsLost(Print(f), token);
    } else {
      RequestInfos(f, members, token);
    }
  }

  lemma RequestPrints(f: Forest, members: Forest, token: Bytes)
    requires Requests(f, members, token)
    ensures OfBytes(Print(f))
  {
  }

  /** The sixth to eighth byte as a number. */
  function LengthInRand(rand: Block): nat {
    var x: int, y: int, z: int := rand[5], rand[6], rand[7];
    65536 * x + 256 * y + z
  }

  /** Of a token of RAND and AUTS, that depends on four bytes of RAND only. */
  lemma TakenByRand(rand: Block, auts: Bytes)
    requires |auts| == 14
    ensures T.TakenForGroup(rand + auts) <==> T.KnownFlagsByte(rand[4]) && LengthInRand(rand) <= 30
  {
    hide T.KnownFlagsByte;
    var p := rand + auts;
    assert p[4] == rand[4] && p[5..8] == [rand[5], rand[6], rand[7]];
    BigEndianOfThree(rand[5], rand[6], rand[7]);
  }

  lemma BigEndianOfThree(x: byte, y: byte, z: byte)
    ensures T.BigEndian([x, y, z]) == 65536 * x + 256 * y + z
  {
    assert [x, y, z][..2] == [x, y] && [x, y][..1] == [x] && [x][..0] == [];
    assert T.BigEndian([x]) == x && T.BigEndian([x, y]) == 256 * x + y;
  }

  /** From the packet to the vectors: a request with the token of a SIM, not taken for a group,
      is answered ahead of the SIM's number, whatever was stored. */
  lemma PacketResynced(aes: Cipher, kdf: Kdf, a: Auc, f: Forest, members: Forest, plmn: Bytes, rands: nat -> Block,
                       rand: Block, simSqn: nat, simAmf: Bytes)
    requires |a.amf| == 2 && |simAmf| >= 2 && simSqn < SQN_LIMIT
    requires var token := SimToken(aes, a, simAmf, rand, simSqn);
             && Requests(f, members, token) && NoFalseGroup(f)
             && SubsOfBytes(Flatten(members)) && Readable(InfosOf(Flatten(members)))
    ensures OfBytes(Print(f))
    ensures var n := Asked(InfosOf(Flatten(members)));
            var (after, answer) := AnswerPacket(aes, kdf, a, Print(f), plmn, rands);
            && (answer.Some? <==> n == 0 || simSqn + 100 * n < SQN_LIMIT)
            && (answer.Some? ==>
                  && after == a.(sqn := simSqn + 100 * (n + 1)) && |answer.value| == n
                  && forall i :: 0 <= i < n ==> Carries(aes, kdf, a, plmn, answer.value[i], n - i, rands(i), simSqn + 100 * (i + 1)))
  {
    hide Requests, NoFalseGroup, Decode, Print, InfosIn, OfBytes, SimToken, Answer, Asked, Readable, Carries, Flatten, LastResync;
    var token := SimToken(aes, a, simAmf, rand, simSqn);
    RequestPrints(f, members, token);
    RequestInfos(f, members, token);
    ResyncedAnswer(aes, kdf, a, InfosOf(Flatten(members)), plmn, rands, rand, simSqn, simAmf);
  }

  // ------------------------------------------------------- how many vectors

  /** From the packet to the number of vectors: an answer that is completed has as many as the one
      1410 in the 1408 says, at any depth, and at most 32. */
  lemma PacketCount(aes: Cipher, kdf: Kdf, a: Auc, f: Forest, members: Forest, plmn: Bytes, rands: nat -> Block, data: Bytes)
    requires |a.amf| == 2 && HasInfo(f, members) && NoFalseGroup(f)
    requires Expected(members, 1410, false) == multiset{Text(T.Hex(data))}
    ensures OfBytes(Print(f))
    ensures var answer := AnswerPacket(aes, kdf, a, Print(f), plmn, rands).1;
            answer.Some? ==> |answer.value| == if FromBytes(data) < 32 then FromBytes(data) else 32
  {
    hide NoFalseGroup, Decode, Print, InfosIn, OfBytes, Answer, Flatten, LastRequested, LookupSubs, Expected, Unhex, FromBytes, T.Hex, InfoOf;
    GroupInfos(f, members);
    var subs := Flatten(members);
    LookupFlattened(members, 1410);
    OrderCounts(members, 1410, false);
    Single(LookupSubs(subs, 1410), Text(T.Hex(data)));
    LastRequestedOf(subs);
    HexIsOfBytes(data);
    AnswerCount(aes, kdf, a, InfosOf(subs), plmn, rands);
  }

  /** Without a 1410 in the 1408 it has one. */
  lemma PacketCountsOne(aes: Cipher, kdf: Kdf, a: Auc, f: Forest, members: Forest, plmn: Bytes, rands: nat -> Block)
    requires |a.amf| == 2 && HasInfo(f, members) && NoFalseGroup(f) && Expected(members, 1410, false) == multiset{}
    ensures OfBytes(Print(f))
    ensures var answer := AnswerPacket(aes, kdf, a, Print(f), plmn, rands).1; answer.Some? ==> |answer.value| == 1
  {
    hide NoFalseGroup, Decode, Print, InfosIn, OfBytes, Answer, Flatten, LastRequested, LookupSubs, Expected, FromBytes, InfoOf;
    GroupInfos(f, members);
    var subs := Flatten(members);
    LookupFlattened(members, 1410);
    OrderCounts(members, 1410, false);
    assert LookupSubs(subs, 1410) == [] by { assert |multiset(LookupSubs(subs, 1410))| == 0; }
    LastRequestedOf(subs);
    AnswerCount(aes, kdf, a, InfosOf(subs), plmn, rands);
  }

  /** Without a 1408, or with an empty one, one vector is made for the stored number; with one that
      holds text there is no answer, and the record stays as it is. */
  lemma PacketWithoutGroup(aes: Cipher, kdf: Kdf, a: Auc, f: Forest, plmn: Bytes, rands: nat -> Block, text: string)
    requires |a.amf| == 2 && ForestOk(f) && Size(f) <= 100 && !BareTail(f) && OfBytes(Print(f))
    ensures Expected(f, 1408, true) == multiset{} || (Expected(f, 1408, true) == multiset{Text(text)} && text == "") ==>
              var (after, answer) := AnswerPacket(aes, kdf, a, Print(f), plmn, rands);
              && (answer.None? <==> OddlyLong(a.sqn))
              && (answer.Some? ==> after == a.(sqn := a.sqn + 100) && |answer.value| == 1
                                   && Carries(aes, kdf, a, plmn, answer.value[0], 1, rands(0), Seen(a.sqn)))
    ensures Expected(f, 1408, true) == multiset{Text(text)} && text != "" ==>
              AnswerPacket(aes, kdf, a, Print(f), plmn, rands) == (a, None)
  {
    hide ForestOk, Size, BareTail, Decode, Print, OfBytes, Issue, Lookup, Expected, OddlyLong, Seen, Carries, Air, InfosOf;
    LookupPrinted(f, 1408);
    DecodedOfBytes(Print(f));
    var found := Lookup(Decode(Print(f)), 1408);
    if Expected(f, 1408, true) == multiset{} {
      assert found == [] by { assert |multiset(found)| == 0; }
      IssueOne(aes, kdf, a, plmn, rands);
    } else if Expected(f, 1408, true) == multiset{Text(text)} {
      Single(found, Text(text));
      IssueOne(aes, kdf, a, plmn, rands);
    }
  }

  lemma IssueOne(aes: Cipher, kdf: Kdf, a: Auc, plmn: Bytes, rands: nat -> Block)
    requires |a.amf| == 2
    ensures var (after, answer) := Issue(aes, kdf, a, plmn, rands, 0, 1);
            && (answer.None? <==> OddlyLong(a.sqn))
            && (answer.Some? ==> after == a.(sqn := a.sqn + 100) && |answer.value| == 1
                                 && Carries(aes, kdf, a, plmn, answer.value[0], 1, rands(0), Seen(a.sqn)))
  {
    hide OddlyLong, Seen, Carries, Air;
    VectorCarries(aes, kdf, a, plmn, rands(0), 1);
    assert Issue(aes, kdf, a.(sqn := a.sqn + 100), plmn, rands, 1, 0) == (a.(sqn := a.sqn + 100), Some([]));
  }

  // ------------------------------------------------------- the smallest request

  /** A request that holds nothing but a token. */
  function TokenRequest(token: Bytes): Forest {
    var t := Leaf(Header(1411, "c0", Some(10415)), T.Hex(token));
    More(Group(Header(1408, "c0", Some(10415)), More(t, Empty)), Empty)
  }

  lemma SmallFields(t: Tree)
    requires t.head.code < 65536 && t.head.flags == "c0" && t.head.vendor == Some(10415)
    requires |Content(t)| % 2 == 0 && |Content(t)| < 65536
    ensures FieldsOk(t)
  {
    hide Content;
    assert Pow16(4) == 65536;
    assert Pow16(8) == 65536 * 65536 && Pow16(6) == 256 * 65536;
  }

  lemma TokenFits(token: Bytes)
    requires |token| == 30
    ensures var t := TokenRequest(token).first.members.first;
            && FieldsOk(t) && Content(t) == T.Hex(token) && LengthOf(t) == 42
            && OfBytes(PrintAvp(t.head, Content(t))) && |PrintAvp(t.head, Content(t))| == 88
  {
    hide PrintAvp, OfBytes, T.Hex, FieldsOk;
    var t := TokenRequest(token).first.members.first;
    HexIsOfBytes(token);
    SmallFields(t);
    FlagsOfBytes();
    PrintsBytes(t);
    ReadPrinted(t, "");
  }

  lemma FlagsOfBytes()
    ensures OfBytes("c0")
  {
  }

  lemma TokenRequestFits(token: Bytes)
    requires |token| == 30
    ensures var f := TokenRequest(token);
            && Fits(f, false) && OfBytes(Print(f)) && FieldsOk(f.first)
            && |Print(f.first.members)| == 88 && |Print(f)| == 112
  {
    hide PrintAvp, OfBytes, T.Hex, FieldsOk, Print, Content, LengthOf, Fits;
    TokenFits(token);
    OneMember(TokenRequest(token).first, TokenRequest(token).first.members.first);
  }

  lemma OneMember(g: Tree, t: Tree)
    requires g.Group? && g.members == More(t, Empty)
    requires g.head.code < 65536 && g.head.flags == "c0" && g.head.vendor == Some(10415)
    requires t.Leaf? && FieldsOk(t) && t.head.flags == "c0"
    requires OfBytes(PrintAvp(t.head, Content(t))) && |PrintAvp(t.head, Content(t))| == 88
    ensures var f := More(g, Empty);
            && Fits(f, false) && OfBytes(Print(f)) && FieldsOk(g) && |Print(g.members)| == 88 && |Print(f)| == 112
  {
    hide PrintAvp, OfBytes, FieldsOk, Print, Content, LengthOf, Fits;
    GroupOfOne(g, t);
    var text := PrintAvp(g.head, Content(g));
    assert text + "" == text;
    FitsNone(true);
    FitsOne(t, true);
    FitsOne(g, false);
  }

  lemma GroupOfOne(g: Tree, t: Tree)
    requires g.Group? && g.members == More(t, Empty)
    requires g.head.code < 65536 && g.head.flags == "c0" && g.head.vendor == Some(10415)
    requires OfBytes(PrintAvp(t.head, Content(t))) && |PrintAvp(t.head, Content(t))| == 88
    ensures FieldsOk(g) && OfBytes(Print(More(g, Empty))) && |Print(g.members)| == 88 && |Print(More(g, Empty))| == 112
  {
    hide PrintAvp, OfBytes, FieldsOk, Print, Content, LengthOf, ReadAvp, After;
    PrintOne(t);
    ContentOfGroup(g);
    SmallFields(g);
    FlagsOfBytes();
    PrintsBytes(g);
    PrintOne(g);
    ReadPrinted(g, "");
    VendorLength(g);
  }

  lemma ContentOfGroup(t: Tree)
    requires t.Group?
    ensures Content(t) == Print(t.members)
  {
  }

  lemma VendorLength(t: Tree)
    requires t.head.vendor.Some?
    ensures LengthOf(t) == 12 + |Content(t)| / 2
  {
  }

  lemma FitsOne(t: Tree, inside: bool)
    requires FieldsOk(t) && t.head.flags == "c0" && Fits(Inside(t), true)
    ensures Fits(More(t, Empty), inside) && Fits(Empty, inside)
  {
    hide FieldsOk;
    assert "c0" in KNOWN_FLAGS;
    assert Fits(Empty, inside);
  }

  lemma FitsNone(inside: bool)
    ensures Fits(Empty, inside)
  {
  }

  lemma PrintOne(t: Tree)
    ensures Print(More(t, Empty)) == PrintAvp(t.head, Content(t)) == PrintAvp(t.head, Content(t)) + ""
  {
    hide PrintAvp;
    assert Print(Empty) == "";
  }

  lemma ConcatOfBytes(a: string, b: string)
    requires OfBytes(a) && OfBytes(b)
    ensures OfBytes(a + b)
  {
  }

  lemma FixedHexOfBytes(n: nat, w: nat)
    requires |FixedHex(n, w)| % 2 == 0
    ensures OfBytes(FixedHex(n, w))
  {
    hide Digits;
    var d, s := Digits(Hexadecimal, n), FixedHex(n, w);
    if |d| < w {
      assert forall i :: 0 <= i < |s| ==> s[i] == if i < w - |d| then '0' else d[i - (w - |d|)];
    }
  }

  lemma ZerosOfBytes(n: nat)
    ensures OfBytes(Zeros(2 * n))
  {
  }

  /** An AVP with a content of bytes prints as bytes. */
  lemma PrintsBytes(t: Tree)
    requires FieldsOk(t) && OfBytes(Content(t)) && OfBytes(t.head.flags)
    ensures OfBytes(PrintAvp(t.head, Content(t)))
  {
    hide FixedHex, PrintAvp, Content, Zeros, OfBytes, Pow16, VENDOR_FLAGS;
    PrintAvpFields(t);
    var n := LengthOf(t);
    var head := FixedHex(t.head.code, 8) + t.head.flags;
    FixedHexOfBytes(t.head.code, 8);
    ConcatOfBytes(FixedHex(t.head.code, 8), t.head.flags);
    FixedHexOfBytes(n, 6);
    ConcatOfBytes(head, FixedHex(n, 6));
    head := head + FixedHex(n, 6);
    if t.head.vendor.Some? {
      FixedHexOfBytes(t.head.vendor.value, 8);
      ConcatOfBytes(head, FixedHex(t.head.vendor.value, 8));
      head := head + FixedHex(t.head.vendor.value, 8);
    } else {
      assert head + "" == head;
    }
    ConcatOfBytes(head, Content(t));
    ZerosOfBytes(RoundUp4(n) - n);
    ConcatOfBytes(head + Content(t), Zeros((RoundUp4(n) - n) * 2));
  }

  lemma TokenRequestIsRequest(token: Bytes)
    requires |token| == 30
    ensures var f := TokenRequest(token);
            && Requests(f, f.first.members, token)
            && (NoFalseGroup(f) <==> !T.TakenForGroup(token))
  {
    hide PrintAvp, OfBytes, T.Hex, FieldsOk, LooksLikeAvp, Print, T.TakenForGroup;
    var f := TokenRequest(token);
    var g, t := f.first, f.first.members.first;
    TokenRequestFits(token);
    T.GuessOnBytes(token);
    assert LengthOf(g) == 56;
    assert NoFalseGroup(Empty);
    assert NoFalseGroup(g.members) <==> !LooksLikeAvp(t.payload);
    assert Expected(Empty, 1408, true) == multiset{} == Expected(Empty, 1408, false);
    assert Expected(g.members, 1408, false) == multiset{};
    assert Expected(f, 1408, true) == multiset{Subs(Flatten(g.members))};
    assert Expected(Empty, 1411, false) == multiset{};
    assert Expected(g.members, 1411, false) == multiset{Text(T.Hex(token))};
    assert Size(Empty) == 0 && Size(g.members) == 1;
  }

  /** Every token of thirty bytes, sent alone: it reaches the loop exactly when it is not taken
      for a group. */
  lemma TokenAloneReaches(token: Bytes)
    requires |token| == 30
    ensures var packet := Print(TokenRequest(token));
            OfBytes(packet) && (Reaches(packet, token) <==> !T.TakenForGroup(token))
  {
    hide Requests, NoFalseGroup, Print, OfBytes, T.TakenForGroup;
    TokenRequestFits(token);
    TokenRequestIsRequest(token);
    TokenReaches(TokenRequest(token), TokenRequest(token).first.members, token);
  }

  /** And then the SIM is heard: the one vector carries its number plus 100. */
  lemma TokenAloneAnswered(aes: Cipher, kdf: Kdf, a: Auc, plmn: Bytes, rands: nat -> Block, rand: Block, simSqn: nat, simAmf: Bytes)
    requires |a.amf| == 2 && |simAmf| >= 2 && simSqn + 100 < SQN_LIMIT
    requires !T.TakenForGroup(SimToken(aes, a, simAmf, rand, simSqn))
    ensures var packet := Print(TokenRequest(SimToken(aes, a, simAmf, rand, simSqn)));
            && OfBytes(packet)
            && var (after, answer) := AnswerPacket(aes, kdf, a, packet, plmn, rands);
               && after == a.(sqn := simSqn + 200)
               && answer.Some? && |answer.value| == 1
               && Carries(aes, kdf, a, plmn, answer.value[0], 1, rands(0), simSqn + 100)
  {
    hide Requests, NoFalseGroup, Print, OfBytes, T.TakenForGroup, SimToken, Carries, AnswerPacket, Readable, Asked;
    var token := SimToken(aes, a, simAmf, rand, simSqn);
    var f := TokenRequest(token);
    TokenRequestFits(token);
    TokenRequestIsRequest(token);
    TokenAloneInfos(token);
    PacketResynced(aes, kdf, a, f, f.first.members, plmn, rands, rand, simSqn, simAmf);
    var answer := AnswerPacket(aes, kdf, a, Print(f), plmn, rands).1.value;
    assert Carries(aes, kdf, a, plmn, answer[0], 1 - 0, rands(0), simSqn + 100 * (0 + 1));
  }

  lemma TokenAloneInfos(token: Bytes)
    requires |token| == 30
    ensures var subs := Flatten(TokenRequest(token).first.members);
            SubsOfBytes(subs) && Readable(InfosOf(subs)) && Asked(InfosOf(subs)) == 1
  {
    hide T.Hex, OfBytes, Unhex, LengthOf;
    HexIsOfBytes(token);
    var t := TokenRequest(token).first.members.first;
    var subs := Flatten(TokenRequest(token).first.members);
    EmptyFlattens();
    assert subs == [RecordOf(t)];
    assert InfosOf(subs) == [Resync(token)];
    assert LastRequested([]).None? && [Resync(token)][..0] == [];
  }

  // ------------------------------------------------------- a challenge that is lost

  /** A challenge whose fifth byte is a flags byte and whose next three make a length of 30. */
  const LOST_RAND: Block := [0, 0, 0, 0, 0, 0, 0, 30, 0, 0, 0, 0, 255, 0, 0, 0]

  /** What the decoder makes of it: the token blank, and RAND read as an AVP of code 0. */
  function LostRecords(auts: Bytes): seq<SubAvp> {
    [SubAvp(1411, "c0", 42, Some(10415), ""),
     SubAvp(0, "00", 30, None, T.Hex(LOST_RAND[8..] + auts))]
  }

  lemma LostTokenRead(auts: Bytes)
    requires |auts| == 14
    ensures var s := T.Hex(LOST_RAND + auts);
            && LooksLikeAvp(s) && |s| == 60
            && ReadAvp(s) == Some(LostRecords(auts)[1]) && !LooksLikeAvp(LostRecords(auts)[1].data)
            && After(s, 30) == ""
  {
    hide T.Hex, ParseInt, T.BigEndian;
    var p := LOST_RAND + auts;
    var s := T.Hex(p);
    TakenByRand(LOST_RAND, auts);
    T.GuessOnBytes(p);
    T.HexSlice(p, 0, 4);
    T.HexSlice(p, 4, 5);
    T.HexSlice(p, 5, 8);
    T.HexSlice(p, 8, 30);
    T.ParseHex(p[..4]);
    T.ParseHex(p[5..8]);
    assert p[..4] == [0, 0, 0, 0] && p[4..5] == [0] && p[5..8] == [0, 0, 30] && p[8..30] == LOST_RAND[8..] + auts;
    BigEndianOfThree(0, 0, 30);
    FourZeros();
    assert Slice(s, 0, 8) == s[0..8] == T.Hex(p[0..4]) && p[0..4] == p[..4];
    var rest := LOST_RAND[8..] + auts;
    assert rest[4] == 255;
    T.GuessOnBytes(rest);
  }

  lemma FourZeros()
    ensures T.BigEndian([0, 0, 0, 0]) == 0 && T.Hex([0]) == "00"
  {
    BigEndianOfThree(0, 0, 0);
    assert [0, 0, 0, 0][..3] == [0, 0, 0] && [0][..0] == [];
    assert T.Hex([]) == "";
  }

  /** The decoder's two steps on that request. */
  lemma LostRequestDecodes(auts: Bytes)
    requires |auts| == 14
    ensures var f := TokenRequest(LOST_RAND + auts);
            Decode(Print(f)) == [Avp(SubAvp(1408, "c0", LengthOf(f.first), Some(10415), ""), LostRecords(auts))]
  {
    hide LooksLikeAvp, ReadAvp, After, PrintAvp, T.Hex;
    var f := TokenRequest(LOST_RAND + auts);
    var t := f.first.members.first;
    TokenRequestFits(LOST_RAND + auts);
    LostTokenRead(auts);
    hide FieldsOk;
    PrintOne(f.first);
    ReadPrinted(f.first, "");
    InsideLooks(f.first.members);
    NothingLooksLikeAvp();
    assert Print(f.first.members) == Content(f.first) && Print(Empty) == "";
    LostUnpacks(auts, Content(f.first));
    hide UnpackSpec;
    var u := UnpackSpec([Content(f.first)], 1);
    assert [] + [Content(f.first)] == [Content(f.first)];
    assert DecodeSpec("", [], u.failsafe) == [];
    var first := Avp(Blanked(ReadAvp(Print(f)).value), u.subs);
    assert DecodeSpec(Print(f), [], 0) == [first] + DecodeSpec("", [], u.failsafe);
  }

  lemma LostUnpacks(auts: Bytes, content: string)
    requires |auts| == 14 && content == Print(TokenRequest(LOST_RAND + auts).first.members)
    ensures UnpackSpec([content], 1) == Unpacked(LostRecords(auts), [], 3, false)
  {
    hide LooksLikeAvp, ReadAvp, After, PrintAvp, T.Hex;
    var t := TokenRequest(LOST_RAND + auts).first.members.first;
    TokenFits(LOST_RAND + auts);
    LostTokenRead(auts);
    var s := T.Hex(LOST_RAND + auts);
    hide FieldsOk, Print;
    PrintOne(t);
    ReadPrinted(t, "");
    NothingLooksLikeAvp();
    var records := LostRecords(auts);
    var a := ReadAvp(content).value;
    assert Blanked(a) == records[0];
    assert PushBoth([], a, content) == [s] by { assert [] + [s] == [s]; }
    assert Blanked(records[1]) == records[1] && PushBoth([], records[1], s) == [];
    assert UnpackSpec([], 3) == Unpacked([], [], 3, false);
    assert UnpackSpec([s], 2) == Unpacked([records[1]], [], 3, false);
    assert [content][..0] == [] && [s][..0] == [];
  }

  /** A SIM that was sent this challenge and answers with whatever AUTS is not heard: the stored
      number starts again from 100, and that is what the one vector carries. */
  lemma LostTokenStartsAgain(aes: Cipher, kdf: Kdf, a: Auc, auts: Bytes, plmn: Bytes, rands: nat -> Block)
    requires |a.amf| == 2 && |auts| == 14
    ensures OfBytes(Print(TokenRequest(LOST_RAND + auts))) && !Reaches(Print(TokenRequest(LOST_RAND + auts)), LOST_RAND + auts)
    ensures var (after, answer) := AnswerPacket(aes, kdf, a, Print(TokenRequest(LOST_RAND + auts)), plmn, rands);
            && after == a.(sqn := 200)
            && answer.Some? && |answer.value| == 1 && Carries(aes, kdf, a, plmn, answer.value[0], 1, rands(0), 100)
  {
    hide T.Hex, Carries, Decode, Print, OfBytes, Answer, AnswerCarries, OddlyLong, T.TakenForGroup;
    TokenRequestFits(LOST_RAND + auts);
    LostTokenRead(auts);
    TakenByRand(LOST_RAND, auts);
    var packet := Print(TokenRequest(LOST_RAND + auts));
    TakenTokenIsLost(packet, LOST_RAND + auts);
    LostRequestDecodes(auts);
    DecodedOfBytes(packet);
    var infos := InfosIn(Decode(packet)).value;
    LostInfos(auts, Decode(packet));
    var read := a.(sqn := 100);
    AnswerMeans(aes, kdf, a, infos, plmn, rands, read);
    NearLimit(100, 1);
    var answer := Answer(aes, kdf, a, infos, plmn, rands).1;
    AnswerLength(aes, kdf, a, plmn, rands, answer.value, 100, 1);
    AnswerSeesAll(aes, kdf, a, plmn, rands, answer.value, 100, 1);
    assert Carries(aes, kdf, a, plmn, answer.value[0], 1 - 0, rands(0), 100 + 100 * 0);
  }

  lemma LostInfos(auts: Bytes, avps: seq<Avp>)
    requires |auts| == 14 && AvpsOfBytes(avps) && |avps| == 1 && avps[0].head.data == ""
    requires avps[0].head.code == 1408 && avps[0].subs == LostRecords(auts)
    ensures var infos := InfosIn(avps);
            && infos == Some([Resync([]), OtherInfo])
            && LastResync(infos.value) == Some([]) && Asked(infos.value) == 1 && Readable(infos.value)
  {
    hide T.Hex, OfBytes;
    var subs := LostRecords(auts);
    assert LookupSubs(subs, 1408) == [] by {
      assert subs[1..] == [subs[1]] && subs[1..][1..] == [];
      assert LookupSubs(subs[1..], 1408) == [];
    }
    assert Lookup(avps, 1408) == [Subs(subs)] by { assert avps[1..] == []; }
    assert SubsOfBytes(subs);
    assert InfosOf(subs) == [Resync([]), OtherInfo];
    var infos := [Resync([]), OtherInfo];
    assert infos[..1] == [Resync([])] && infos[..1][..0] == [];
    assert LastResync(infos[..1]) == Some([]) && LastRequested(infos[..1]).None?;
  }
}

/**
  The second decoder, lib/diameterAsync.py, which the peer validation uses, and its
  agreement with the first one on lists of ungrouped AVPs and of groups it can take apart.
 */
module AsyncCodec {
  import opened PyText
  import opened AvpCodec
  import opened AvpTree
  import opened AvpLookup
  import T = AvpText

  const VENDOR_ID := 266

  /** This decoder never takes a vendor field off the payload; it only parses one, in
      place, for code 266. */
  function ReadAsync(data: string): Option<SubAvp> {
    var code :- ParseInt(Hexadecimal, Slice(data, 0, 8));
    var length :- ParseInt(Hexadecimal, Slice(data, 10, 16));
    if code == VENDOR_ID then
      var vendor :- ParseInt(Hexadecimal, Slice(data, 16, 24));
      Some(SubAvp(code, Slice(data, 8, 10), length, Some(vendor), Slice(data, 16, length * 2)))
    else
      Some(SubAvp(code, Slice(data, 8, 10), length, None, Slice(data, 16, length * 2)))
  }

  datatype Inner = Inner(subs: seq<SubAvp>, rest: string, failsafe: nat, raised: bool)

  /** The inner loop: siblings one after the other, without skipping their padding. */
  ghost function InnerSpec(data: string, failsafe: nat): (r: Inner)
    requires failsafe <= FAILSAFE_LIMIT
    ensures failsafe <= r.failsafe <= FAILSAFE_LIMIT + 1
    decreases FAILSAFE_LIMIT - failsafe
  {
    if !LooksLikeAvp(data) then Inner([], data, failsafe, false)
    else if failsafe == FAILSAFE_LIMIT then Inner([], data, failsafe + 1, false)
    else
      var a := ReadAsync(data);
      if a.None? then Inner([], data, failsafe + 1, true)
      else
        var r := InnerSpec(From(data, a.value.length * 2), failsafe + 1);
        r.(subs := [a.value] + r.subs)
  }

  ghost function AsyncSpec(data: string, failsafe: nat): seq<Avp>
    requires failsafe <= FAILSAFE_LIMIT + 1
    decreases FAILSAFE_LIMIT + 1 - failsafe
  {
    if |data| <= 16 || failsafe >= FAILSAFE_LIMIT then []
    else
      var a := ReadAsync(data);
      if a.None? then AsyncSpec(data, failsafe + 1)
      else
        var r := InnerSpec(a.value.data, failsafe + 1);
        if r.raised then AsyncSpec(data, r.failsafe)
        else [Avp(a.value.(data := r.rest), r.subs)] + AsyncSpec(After(data, a.value.length), r.failsafe)
  }

  method UnpackSiblings(misc: string, counter: nat)
    returns (subs: seq<SubAvp>, rest: string, failsafe: nat, raised: bool)
    requires counter <= FAILSAFE_LIMIT
    ensures Inner(subs, rest, failsafe, raised) == InnerSpec(misc, counter)
  {
    hide ReadAsync, LooksLikeAvp, From;
    subs, rest, failsafe, raised := [], misc, counter, false;
    var subData := misc;
    while LooksLikeAvp(subData)
      invariant counter <= failsafe <= FAILSAFE_LIMIT && rest == subData
      invariant var r := InnerSpec(subData, failsafe);
                InnerSpec(misc, counter) == r.(subs := subs + r.subs)
      decreases FAILSAFE_LIMIT - failsafe
    {
      failsafe := failsafe + 1;
      if failsafe > FAILSAFE_LIMIT {
        return;
      }
      var read := ReadAsync(subData);
      if read.None? {
        raised := true;
        return;
      }
      ghost var before := subs;
      subs := subs + [read.value];
      subData := From(subData, read.value.length * 2);
      rest := From(rest, read.value.length * 2);
      ghost var r := InnerSpec(subData, failsafe);
      assert before + ([read.value] + r.subs) == subs + r.subs;
    }
  }

  method DecodeAsync(packet: string) returns (avps: seq<Avp>)
    ensures avps == AsyncSpec(packet, 0)
  {
    hide ReadAsync, LooksLikeAvp, After, InnerSpec;
    avps := [];
    if |packet| < 16 {
      return;
    }
    var data, failsafe := packet, 0;
    while |data| > 16
      invariant 0 <= failsafe <= FAILSAFE_LIMIT + 1
      invariant AsyncSpec(packet, 0) == avps + AsyncSpec(data, failsafe)
      decreases FAILSAFE_LIMIT + 1 - failsafe
    {
      ghost var before := avps;
      failsafe := failsafe + 1;
      if failsafe > FAILSAFE_LIMIT {
        break;
      }
      var read := ReadAsync(data);
      if read.None? {
        continue;
      }
      var avp := read.value;
      var subs, raised;
      var misc := avp.data;
      subs, misc, failsafe, raised := UnpackSiblings(misc, failsafe);
      if raised {
        continue;
      }
      avps := avps + [Avp(avp.(data := misc), subs)];
      data := After(data, avp.length);
      assert before + ([Avp(avp.(data := misc), subs)] + AsyncSpec(data, failsafe)) == avps + AsyncSpec(data, failsafe);
    }
  }

  // ------------------------------------------------------------ agreement

  function VendorText(v: Option<nat>): string {
    if v.Some? then FixedHex(v.value, 8) else ""
  }

  /** The payload as this decoder sees it: the vendor field is still in front. */
  function AsyncData(t: Tree): string {
    VendorText(t.head.vendor) + Content(t)
  }

  function AsyncRecord(t: Tree): SubAvp {
    SubAvp(t.head.code, t.head.flags, LengthOf(t),
           if t.head.code == VENDOR_ID then ParseInt(Hexadecimal, AsyncData(t)[..if |AsyncData(t)| < 8 then |AsyncData(t)| else 8]) else None,
           AsyncData(t))
  }

  /** Well formed, and a Vendor-Id carries a number. */
  predicate Readable(t: Tree) {
    && TreeOk(t)
    && (t.head.code == VENDOR_ID ==>
          |AsyncData(t)| >= 8 && ParseInt(Hexadecimal, AsyncData(t)[..8]).Some?)
  }

  /** Members that this decoder finds one behind the other: nothing inside them, and no padding
      between them, which it does not skip. */
  predicate Lined(f: Forest) {
    f.More? ==>
      && Readable(f.first) && f.first.head.flags in KNOWN_FLAGS
      && Inside(f.first).Empty? && (f.rest.More? ==> LengthOf(f.first) % 4 == 0)
      && Lined(f.rest)
  }

  /** What both decoders take apart alike: AVPs that neither takes for a group, and groups
      without a vendor whose members stand in line, such as Vendor-Specific-Application-Id (260). */
  predicate SeenAlike(t: Tree) {
    && Readable(t)
    && if Inside(t).More? then t.head.vendor.None? && Lined(Inside(t)) else !LooksLikeAvp(AsyncData(t))
  }

  predicate AllSeenAlike(f: Forest) {
    f.More? ==> SeenAlike(f.first) && AllSeenAlike(f.rest)
  }

  function AsyncMembers(f: Forest): seq<SubAvp> {
    if f.Empty? then [] else [AsyncRecord(f.first)] + AsyncMembers(f.rest)
  }

  /** Where the fields of a printed AVP lie for this decoder. */
  lemma AsyncFields(t: Tree, after: string)
    requires Readable(t)
    ensures var data := PrintAvp(t.head, Content(t)) + after;
            var n := LengthOf(t);
            && 2 * n <= |data| && |AsyncData(t)| == 2 * n - 16
            && data[..8] == FixedHex(t.head.code, 8) && data[8..10] == t.head.flags && data[10..16] == FixedHex(n, 6)
            && data[16..2 * n] == AsyncData(t)
  {
    hide FixedHex, Zeros, Content, ParseInt, PrintAvp, Pow16, LooksLikeAvp;
    var n, content := LengthOf(t), Content(t);
    var vendor := VendorText(t.head.vendor);
    var padding := Zeros((RoundUp4(n) - n) * 2);
    PrintAvpFields(t);
    FieldsLie(FixedHex(t.head.code, 8), t.head.flags, FixedHex(n, 6), "", vendor + content, padding + after);
    Reassociated(FixedHex(t.head.code, 8) + t.head.flags + FixedHex(n, 6), vendor, content, padding, after);
  }

  lemma Reassociated(a: string, b: string, c: string, d: string, e: string)
    ensures (a + b + c + d) + e == a + "" + (b + c) + (d + e)
  {
  }

  lemma AsyncReadPrinted(t: Tree, after: string)
    requires Readable(t)
    ensures var data := PrintAvp(t.head, Content(t)) + after;
            && ReadAsync(data) == Some(AsyncRecord(t))
            && After(data, LengthOf(t)) == after
            && |data| == 2 * RoundUp4(LengthOf(t)) + |after|
  {
    hide FixedHex, Content, ParseInt, PrintAvp, Pow16, LooksLikeAvp, AsyncData, After, ReadAvp;
    var n := LengthOf(t);
    ReadPrinted(t, after);
    FixedHexRoundTrip(t.head.code, 8);
    FixedHexRoundTrip(n, 6);
    AsyncFields(t, after);
    var data := PrintAvp(t.head, Content(t)) + after;
    if t.head.code == VENDOR_ID {
      assert data[16..24] == AsyncData(t)[..8];
    }
  }

  lemma ShortIsNoAvp(data: string)
    requires |data| <= 8
    ensures !LooksLikeAvp(data)
  {
    assert Slice(data, 8, 10) == "";
  }

  /** Where this decoder goes on behind a member: on the next one, or on padding. */
  lemma BehindMember(t: Tree, rest: Forest)
    requires Readable(t)
    ensures var data, n := Print(More(t, rest)), LengthOf(t);
            && ReadAsync(data) == Some(AsyncRecord(t)) && AsyncRecord(t).length == n
            && From(data, n * 2) == Zeros((RoundUp4(n) - n) * 2) + Print(rest)
  {
    hide LooksLikeAvp, ReadAsync, After, PrintAvp, TreeOk, AsyncRecord, Content, LengthOf, Zeros;
    AsyncReadPrinted(t, Print(rest));
    AsyncRecordFields(t);
    PaddingBehind(t, Print(rest));
  }

  lemma PaddingBehind(t: Tree, after: string)
    requires TreeOk(t)
    ensures var data, n := PrintAvp(t.head, Content(t)) + after, LengthOf(t);
            From(data, n * 2) == Zeros((RoundUp4(n) - n) * 2) + after
  {
    hide FixedHex, Content, PrintAvp, Pow16, LooksLikeAvp;
    PrintAvpFields(t);
    var n := LengthOf(t);
    var vendor := if t.head.vendor.Some? then FixedHex(t.head.vendor.value, 8) else "";
    var front := FixedHex(t.head.code, 8) + t.head.flags + FixedHex(n, 6) + vendor + Content(t);
    var padding := Zeros((RoundUp4(n) - n) * 2);
    assert |front| == 2 * n;
    assert PrintAvp(t.head, Content(t)) + after == front + (padding + after);
  }

  /** One turn of the inner loop on a printed member. */
  lemma InnerNext(t: Tree, rest: Forest, failsafe: nat)
    requires failsafe <= FAILSAFE_LIMIT && Readable(t) && t.head.flags in KNOWN_FLAGS
    ensures var n := LengthOf(t);
            var behind := Zeros((RoundUp4(n) - n) * 2) + Print(rest);
            InnerSpec(Print(More(t, rest)), failsafe)
            == if failsafe == FAILSAFE_LIMIT then Inner([], Print(More(t, rest)), failsafe + 1, false)
               else var r := InnerSpec(behind, failsafe + 1); r.(subs := [AsyncRecord(t)] + r.subs)
    ensures |LastPadding(t)| <= 6 && (LengthOf(t) % 4 == 0 ==> LastPadding(t) + Print(rest) == Print(rest))
  {
    hide LooksLikeAvp, ReadAsync, After, PrintAvp, TreeOk, AsyncRecord, Content, From, LengthOf, Zeros;
    PrintedLooksLikeAvp(t, Print(rest));
    BehindMember(t, rest);
    if LengthOf(t) % 4 == 0 {
      assert LastPadding(t) == "" && LastPadding(t) + Print(rest) == Print(rest);
    }
  }

  function LastPadding(t: Tree): string {
    Zeros((RoundUp4(LengthOf(t)) - LengthOf(t)) * 2)
  }

  lemma NothingBehind(t: Tree, failsafe: nat)
    requires failsafe <= FAILSAFE_LIMIT
    ensures InnerSpec(LastPadding(t) + Print(Empty), failsafe) == Inner([], LastPadding(t), failsafe, false)
  {
    hide LooksLikeAvp, LengthOf, InnerSpec, Zeros;
    assert LastPadding(t) + "" == LastPadding(t);
    ShortIsNoAvp(LastPadding(t));
    InnerStops(LastPadding(t), failsafe);
  }

  /** The inner loop on the content of a group whose members stand in line. */
  lemma {:induction false} InnerPrinted(f: Forest, failsafe: nat)
    requires failsafe <= FAILSAFE_LIMIT && Lined(f)
    ensures var r := InnerSpec(Print(f), failsafe);
            var all := AsyncMembers(f);
            && !r.raised
            && (failsafe + |all| <= FAILSAFE_LIMIT ==> r.subs == all && r.failsafe == failsafe + |all|)
            && (failsafe + |all| > FAILSAFE_LIMIT ==>
                  && r.subs == all[..FAILSAFE_LIMIT - failsafe] && r.failsafe == FAILSAFE_LIMIT + 1
                  && (r.subs != [] || r.rest == Print(f)))
    decreases f
  {
    hide LooksLikeAvp, TreeOk, AsyncRecord, LengthOf, Zeros, InnerSpec, Print, Readable;
    if f.Empty? {
      InnerOfNothing(failsafe);
    } else {
      var t, rest := f.first, f.rest;
      InnerNext(t, rest, failsafe);
      if failsafe < FAILSAFE_LIMIT {
        if rest.Empty? {
          NothingBehind(t, failsafe + 1);
          assert AsyncMembers(rest) == [];
        } else {
          InnerPrinted(rest, failsafe + 1);
        }
      }
    }
  }

  lemma InnerOfNothing(failsafe: nat)
    requires failsafe <= FAILSAFE_LIMIT
    ensures InnerSpec(Print(Empty), failsafe) == Inner([], "", failsafe, false)
  {
    NothingLooksLikeAvp();
  }

  /** One turn of this decoder's outer loop on a printed list. */
  lemma AsyncOne(t: Tree, rest: Forest, failsafe: nat)
    requires SeenAlike(t) && failsafe < FAILSAFE_LIMIT && |Print(More(t, rest))| > 16
    ensures var all := AsyncMembers(Inside(t));
            var budget := FAILSAFE_LIMIT - failsafe;
            var r := AsyncSpec(Print(More(t, rest)), failsafe);
            && r != [] && r[0].head == AsyncRecord(t).(data := r[0].head.data)
            && (r[0].subs == [] ==> r[0].head.data == AsyncData(t))
            && r[0].subs == (if |all| >= budget then all[..budget - 1] else all)
            && r[1..] == if |all| >= budget then [] else AsyncSpec(Print(rest), failsafe + 1 + |all|)
  {
    hide LooksLikeAvp, ReadAsync, After, PrintAvp, TreeOk, LengthOf, AsyncRecord, Content, Lined, AsyncMembers;
    hide Print, AsyncSpec, InnerSpec, AsyncData;
    AsyncStep(t, rest, failsafe);
    AsyncRecordFields(t);
    NoMembers();
    if Inside(t).More? {
      GroupText(t);
      InnerPrinted(t.members, failsafe + 1);
      assert AsyncMembers(t.members) != [] by { SomeMembers(t.members); }
    } else {
      InnerStops(AsyncData(t), failsafe + 1);
    }
    var r := InnerSpec(AsyncData(t), failsafe + 1);
    var avps := AsyncSpec(Print(More(t, rest)), failsafe);
    assert avps[1..] == AsyncSpec(Print(rest), r.failsafe);
    if r.failsafe >= FAILSAFE_LIMIT {
      AsyncEnds(Print(rest), r.failsafe);
    }
  }

  lemma NoMembers()
    ensures AsyncMembers(Empty) == [] && Flatten(Empty) == []
  {
  }

  lemma SomeMembers(f: Forest)
    requires f.More?
    ensures AsyncMembers(f) != [] && AsyncMembers(f)[0] == AsyncRecord(f.first)
    ensures Flatten(f) != [] && Flatten(f)[0] == RecordOf(f.first)
  {
  }

  lemma AsyncEnds(data: string, failsafe: nat)
    requires FAILSAFE_LIMIT <= failsafe <= FAILSAFE_LIMIT + 1
    ensures AsyncSpec(data, failsafe) == []
  {
  }

  lemma InnerStops(data: string, failsafe: nat)
    requires failsafe <= FAILSAFE_LIMIT && !LooksLikeAvp(data)
    ensures InnerSpec(data, failsafe) == Inner([], data, failsafe, false)
  {
    hide LooksLikeAvp;
  }

  /** The outer loop's body on a printed AVP. */
  lemma AsyncStep(t: Tree, rest: Forest, failsafe: nat)
    requires Readable(t) && failsafe < FAILSAFE_LIMIT && |Print(More(t, rest))| > 16
    ensures var r := InnerSpec(AsyncData(t), failsafe + 1);
            AsyncSpec(Print(More(t, rest)), failsafe)
            == if r.raised then AsyncSpec(Print(More(t, rest)), r.failsafe)
               else [Avp(AsyncRecord(t).(data := r.rest), r.subs)] + AsyncSpec(Print(rest), r.failsafe)
  {
    hide LooksLikeAvp, ReadAsync, After, PrintAvp, TreeOk, LengthOf, AsyncRecord, Content, InnerSpec, AsyncData;
    AsyncReadPrinted(t, Print(rest));
    AsyncRecordFields(t);
  }

  lemma GroupText(t: Tree)
    requires t.Group? && t.head.vendor.None?
    ensures AsyncData(t) == Print(t.members)
  {
  }

  lemma AsyncRecordFields(t: Tree)
    ensures AsyncRecord(t).data == AsyncData(t) && AsyncRecord(t).length == LengthOf(t)
    ensures AsyncRecord(t).code == t.head.code && AsyncRecord(t).flags == t.head.flags
  {
  }

  lemma {:induction false} SeenAlikeIsOk(f: Forest)
    requires AllSeenAlike(f)
    ensures ForestOk(f)
    decreases f
  {
    hide TreeOk, Lined;
    if f.More? {
      SeenAlikeIsOk(f.rest);
    }
  }

  /** Two records of the same ungrouped AVP: equal but for the vendor field, which the second
      decoder leaves in front of the payload. */
  predicate SameRecord(a: SubAvp, b: SubAvp) {
    && a.code == b.code && a.flags == b.flags && a.length == b.length
    && match a.vendor
       case None => b.data == a.data
       case Some(v) => v >= 0 && b.data == FixedHex(v, 8) + a.data
  }

  predicate SameSubs(a: seq<SubAvp>, b: seq<SubAvp>) {
    |a| == |b| && forall i :: 0 <= i < |a| ==> SameRecord(a[i], b[i])
  }

  /** The same with members; the data of a group is blank in the first decoder's record, and
      what was not yet unpacked in the second one's. */
  predicate SameAvp(a: Avp, b: Avp) {
    && a.head.code == b.head.code && a.head.flags == b.head.flags && a.head.length == b.head.length
    && SameSubs(a.subs, b.subs)
    && (SameRecord(a.head, b.head) || (a.head.data == "" && (b.subs != [] || LooksLikeAvp(b.head.data))))
  }

  predicate SameList(a: seq<Avp>, b: seq<Avp>) {
    |a| == |b| && forall i :: 0 <= i < |a| ==> SameAvp(a[i], b[i])
  }

  lemma FlatRecordsAgree(t: Tree)
    requires Inside(t).Empty?
    ensures SameRecord(RecordOf(t), AsyncRecord(t))
  {
    hide FixedHex, ParseInt, LengthOf;
    assert t.Group? ==> Content(t) == "" by { assert Print(Empty) == ""; }
  }

  lemma SubsSplit(a: SubAvp, b: SubAvp, more: seq<SubAvp>, others: seq<SubAvp>)
    ensures SameSubs([a] + more, [b] + others) <==> SameRecord(a, b) && SameSubs(more, others)
  {
    hide SameRecord;
    var s, t := [a] + more, [b] + others;
    assert s[0] == a && t[0] == b;
    assert forall i :: 0 <= i < |more| ==> s[i + 1] == more[i];
    assert forall i :: 0 <= i < |others| ==> t[i + 1] == others[i];
    if SameSubs(s, t) {
      forall i | 0 <= i < |more|
        ensures SameRecord(more[i], others[i])
      {
        assert SameRecord(s[i + 1], t[i + 1]);
      }
    }
  }

  lemma {:induction false} MembersAgree(f: Forest)
    requires Lined(f)
    ensures SameSubs(Flatten(f), AsyncMembers(f))
    decreases f
  {
    hide TreeOk, LengthOf, LooksLikeAvp, SameRecord, SameSubs, RecordOf, AsyncRecord, AsyncData;
    if f.More? {
      MembersAgree(f.rest);
      FlatRecordsAgree(f.first);
      EmptyFlattens();
      assert Flatten(f) == [RecordOf(f.first)] + Flatten(f.rest);
      SubsSplit(RecordOf(f.first), AsyncRecord(f.first), Flatten(f.rest), AsyncMembers(f.rest));
    } else {
      NoneSame();
    }
  }

  lemma NoneSame()
    ensures SameSubs([], []) && AsyncMembers(Empty) == [] && Flatten(Empty) == []
  {
  }

  lemma SubsFront(a: seq<SubAvp>, b: seq<SubAvp>, n: nat)
    requires SameSubs(a, b) && n <= |a|
    ensures SameSubs(a[..n], b[..n])
  {
    hide SameRecord;
  }

  lemma SameSplit(a: seq<Avp>, b: seq<Avp>)
    requires a != [] && b != []
    ensures SameList(a, b) <==> SameAvp(a[0], b[0]) && SameList(a[1..], b[1..])
  {
    hide SameAvp;
    assert forall i :: 0 < i < |a| ==> a[i] == a[1..][i - 1];
    assert forall i :: 0 < i < |b| ==> b[i] == b[1..][i - 1];
    if SameList(a, b) {
      forall i | 0 <= i < |a[1..]|
        ensures SameAvp(a[1..][i], b[1..][i])
      {
        assert SameAvp(a[i + 1], b[i + 1]);
      }
    }
  }

  lemma GroupsAgree(t: Tree, n: nat, data: string)
    requires SeenAlike(t) && Inside(t).More? && n <= |AsyncMembers(t.members)|
    requires n > 0 || data == AsyncData(t)
    ensures n <= |Flatten(t.members)| == |AsyncMembers(t.members)|
    ensures SameAvp(Avp(RecordOf(t), Flatten(t.members)[..n]), Avp(AsyncRecord(t).(data := data), AsyncMembers(t.members)[..n]))
  {
    hide TreeOk, SameRecord, LooksLikeAvp, Lined, Flatten, AsyncMembers, ParseInt, LengthOf;
    MembersAgree(t.members);
    SubsFront(Flatten(t.members), AsyncMembers(t.members), n);
    GroupText(t);
    assert LooksLikeAvp(AsyncData(t)) by { GuessIsRight(t); }
  }

  lemma {:induction false} DecodersAgreeFrom(f: Forest, failsafe: nat)
    requires failsafe <= FAILSAFE_LIMIT && AllSeenAlike(f)
    ensures SameList(DecodeSpec(Print(f), [], failsafe), AsyncSpec(Print(f), failsafe))
    decreases f
  {
    hide TreeOk, LengthOf, LooksLikeAvp, SameAvp, RecordOf, AsyncRecord, AsyncData, Content, PrintAvp, ReadAvp, ReadAsync, After, Lined;
    SeenAlikeIsOk(f);
    if f.More? {
      var t, rest := f.first, f.rest;
      PrintIsLong(f);
      if |Print(f)| > 16 && failsafe < FAILSAFE_LIMIT {
        hide DecodeSpec, AsyncSpec, InnerSpec, UnpackSpec;
        FirstAgrees(t, rest, failsafe);
        var flat := Flatten(Inside(t));
        var a, b := DecodeSpec(Print(f), [], failsafe), AsyncSpec(Print(f), failsafe);
        if |flat| < FAILSAFE_LIMIT - failsafe {
          DecodersAgreeFrom(rest, failsafe + 1 + |flat|);
        }
        SameSplit(a, b);
      }
    }
  }

  /** What the two outer loops make of the first AVP agrees, and so does where they go on. */
  lemma FirstAgrees(t: Tree, rest: Forest, failsafe: nat)
    requires SeenAlike(t) && failsafe < FAILSAFE_LIMIT && |Print(More(t, rest))| > 16
    ensures var text := Print(More(t, rest));
            var a, b := DecodeSpec(text, [], failsafe), AsyncSpec(text, failsafe);
            var n := |Flatten(Inside(t))|;
            && a != [] && b != [] && SameAvp(a[0], b[0])
            && if n >= FAILSAFE_LIMIT - failsafe then a[1..] == [] == b[1..]
               else a[1..] == DecodeSpec(Print(rest), [], failsafe + 1 + n)
                    && b[1..] == AsyncSpec(Print(rest), failsafe + 1 + n)
  {
    hide TreeOk, LengthOf, LooksLikeAvp, SameAvp, RecordOf, AsyncRecord, AsyncData, Content, Lined, Print, Flatten, AsyncMembers,
         DecodeSpec, AsyncSpec, InnerSpec, UnpackSpec, SameRecord;
    DecodeOne(t, rest, failsafe);
    AsyncOne(t, rest, failsafe);
    NoMembers();
    var text, budget := Print(More(t, rest)), FAILSAFE_LIMIT - failsafe;
    var b := AsyncSpec(text, failsafe);
    if Inside(t).More? {
      var n := |AsyncMembers(t.members)|;
      var k := if n >= budget then budget - 1 else n;
      assert AsyncMembers(t.members)[..n] == AsyncMembers(t.members);
      SomeMembers(t.members);
      GroupsAgree(t, k, b[0].head.data);
      assert |Flatten(t.members)| == n && Flatten(t.members)[..n] == Flatten(t.members);
    } else {
      FlatAgrees(t);
    }
  }

  lemma FlatAgrees(t: Tree)
    requires Inside(t).Empty?
    ensures SameAvp(Avp(RecordOf(t), []), Avp(AsyncRecord(t).(data := AsyncData(t)), []))
  {
    hide SameRecord, RecordOf, ParseInt, LooksLikeAvp;
    FlatRecordsAgree(t);
    NoneSame();
    hide AsyncData;
    assert AsyncRecord(t).(data := AsyncData(t)) == AsyncRecord(t);
    RecordsAgreeOnFields(t);
  }

  lemma RecordsAgreeOnFields(t: Tree)
    ensures RecordOf(t).code == AsyncRecord(t).code && RecordOf(t).flags == AsyncRecord(t).flags
         && RecordOf(t).length == AsyncRecord(t).length
  {
  }

  /** The two decoders agree on every printed list of AVPs that they see alike, however long,
      including where the failsafe stops them. */
  lemma DecodersAgree(f: Forest)
    requires AllSeenAlike(f)
    ensures SameList(Decode(Print(f)), AsyncSpec(Print(f), 0))
  {
    hide AllSeenAlike, SameList, DecodeSpec, AsyncSpec, Print;
    DecodersAgreeFrom(f, 0);
    DecodeStarts(Print(f));
  }

  lemma DecodeStarts(data: string)
    ensures Decode(data) == DecodeSpec(data, [], 0)
  {
  }

  lemma {:induction false} SameNodes(a: seq<Avp>, b: seq<Avp>)
    requires SameList(a, b)
    ensures Nodes(a) == Nodes(b)
    decreases |a|
  {
    hide SameRecord, LooksLikeAvp;
    if a != [] {
      SameSplit(a, b);
      SameNodes(a[1..], b[1..]);
    }
  }

  /** This decoder too reads a hundred AVPs, nested ones counted, and no more. */
  lemma SecondReadsAHundred(f: Forest)
    requires AllSeenAlike(f) && !BareTail(f)
    ensures Nodes(AsyncSpec(Print(f), 0)) == if Size(f) <= 100 then Size(f) else 100
  {
    hide AllSeenAlike, SameList, Decode, AsyncSpec, Print, BareTail, Size, Records, Cut, Nodes, ForestOk, WithoutBareTail;
    SeenAlikeIsOk(f);
    DecodersAgree(f);
    SameNodes(Decode(Print(f)), AsyncSpec(Print(f), 0));
    DecodePrinted(f);
    BareTailSize(f);
    RecordsSize(f);
    CutNodes(Records(f), 100);
  }

  /** Of a printed AVP this decoder parses the vendor in place, for Vendor-Id (266) only, and
      leaves it in front of the payload. */
  lemma OnlyVendorIdIsParsed(t: Tree, after: string)
    requires Readable(t)
    ensures var a := ReadAsync(PrintAvp(t.head, Content(t)) + after);
            && a.Some? && (a.value.vendor.Some? <==> t.head.code == 266)
            && (t.head.code == 266 ==> |AsyncData(t)| >= 8 && a.value.vendor == ParseInt(Hexadecimal, AsyncData(t)[..8]))
            && a.value.data == AsyncData(t)
  {
    hide ReadAsync, PrintAvp, TreeOk, LengthOf, Content, ParseInt, AsyncData;
    AsyncReadPrinted(t, after);
  }

  // --------------------------------------------------- exactly where they agree

  /** Every AVP this decoder looks at is readable. */
  predicate MembersReadable(f: Forest) {
    f.More? ==> Readable(f.first) && MembersReadable(f.rest)
  }

  lemma {:induction false} FrontIsSmaller(s: string, k: nat)
    requires AllDigits(Hexadecimal, s) && 1 <= k <= |s|
    ensures AllDigits(Hexadecimal, s[..|s| - k]) && 16 * Value(Hexadecimal, s[..|s| - k]) <= Value(Hexadecimal, s)
    decreases k
  {
    hide DigitValue;
    var init := s[..|s| - 1];
    assert DigitValue(Hexadecimal, s[|s| - 1]) >= 0;
    assert Value(Hexadecimal, s) == 16 * Value(Hexadecimal, init) + DigitValue(Hexadecimal, s[|s| - 1]);
    if k > 1 {
      FrontIsSmaller(init, k - 1);
      assert init[..|init| - (k - 1)] == s[..|s| - k];
    }
  }

  lemma FieldValue(n: nat, w: nat)
    requires w >= 1 && n < Pow16(w)
    ensures |FixedHex(n, w)| == w && Value(Hexadecimal, FixedHex(n, w)) == n
  {
    hide ParseInt, Value;
    FixedHexRoundTrip(n, w);
    ParseIntOfDigits(Hexadecimal, FixedHex(n, w));
  }

  lemma PaddedValue(k: nat, s: string)
    requires AllDigits(Hexadecimal, s) && k + |s| > 0
    ensures ParseInt(Hexadecimal, Zeros(k) + s) == Some(Value(Hexadecimal, s))
  {
    hide ParseInt;
    ValueOfZeros(Hexadecimal, k, s);
    ParseIntOfDigits(Hexadecimal, Zeros(k) + s);
  }

  lemma ZeroField(w: nat)
    requires w >= 1
    ensures FixedHex(0, w) == Zeros(w)
  {
    assert Digits(Hexadecimal, 0) == "0";
  }

  lemma HeadRead(data: string)
    ensures var a := ReadAsync(data);
            a.Some? ==> && ParseInt(Hexadecimal, Slice(data, 0, 8)) == Some(a.value.code) && a.value.flags == Slice(data, 8, 10)
                        && ParseInt(Hexadecimal, Slice(data, 10, 16)) == Some(a.value.length)
  {
    hide ParseInt, Slice;
  }

  /** Behind padding that was not skipped, the fields of the next member are never read as what
      they are: with its code and flags as they are, its length would be too short. */
  lemma ShiftedDiffers(p: nat, u: Tree, after: string)
    requires TreeOk(u) && 1 <= p <= 3
    ensures var a := ReadAsync(Zeros(2 * p) + (PrintAvp(u.head, Content(u)) + after));
            a.Some? ==> !(a.value.code == u.head.code && a.value.flags == u.head.flags && a.value.length == LengthOf(u))
  {
    hide FixedHex, Content, ParseInt, PrintAvp, Pow16, LooksLikeAvp, Zeros, Value, ReadAsync, Slice;
    var n := LengthOf(u);
    PrintAvpFields(u);
    FieldValue(u.head.code, 8);
    FieldValue(n, 6);
    var code, length := FixedHex(u.head.code, 8), FixedHex(n, 6);
    var vendor := if u.head.vendor.Some? then FixedHex(u.head.vendor.value, 8) else "";
    var tail := vendor + Content(u) + Zeros((RoundUp4(n) - n) * 2) + after;
    assert PrintAvp(u.head, Content(u)) + after == code + u.head.flags + length + tail;
    var data := Zeros(2 * p) + (code + u.head.flags + length + tail);
    HeadRead(data);
    ShiftedFields(p, code, u.head.flags, length, tail);
    FrontIsSmaller(code, 2 * p);
    FrontIsSmaller(length, 2 * p);
    PaddedValue(2 * p, code[..8 - 2 * p]);
    PaddedValue(2 * p, length[..6 - 2 * p]);
    ZeroField(8);
  }

  lemma ShiftedFields(p: nat, code: string, flags: string, length: string, tail: string)
    requires 1 <= p <= 3 && |code| == 8 && |flags| == 2 && |length| == 6
    ensures var data := Zeros(2 * p) + (code + flags + length + tail);
            && Slice(data, 0, 8) == Zeros(2 * p) + code[..8 - 2 * p]
            && (code == Zeros(8) ==> Slice(data, 8, 10) == "00")
            && (code == Zeros(8) && flags == "00" ==> Slice(data, 10, 16) == Zeros(2 * p) + length[..6 - 2 * p])
  {
    var data := Zeros(2 * p) + (code + flags + length + tail);
    assert data[0..8] == Zeros(2 * p) + code[..8 - 2 * p];
    if code == Zeros(8) {
      assert data[8..10] == "00";
      if flags == "00" {
        assert data[10..16] == Zeros(2 * p) + length[..6 - 2 * p];
      }
    }
  }

  /** Where the members of a group do not stand in line, this decoder's inner loop never yields
      their flattening, wherever the failsafe is. */
  lemma {:induction false} MembersDiffer(f: Forest, failsafe: nat)
    requires failsafe <= FAILSAFE_LIMIT && InsideOk(f) && MembersReadable(f) && !Lined(f)
    ensures var r := InnerSpec(Print(f), failsafe); r.raised || !SameSubs(Flatten(f), r.subs)
    decreases f
  {
    hide LooksLikeAvp, ReadAsync, After, PrintAvp, TreeOk, AsyncRecord, RecordOf, Content, From, LengthOf, Zeros, SameRecord, InnerSpec, Print;
    var t, rest := f.first, f.rest;
    SomeMembers(f);
    InnerNext(t, rest, failsafe);
    if failsafe < FAILSAFE_LIMIT {
      var n := LengthOf(t);
      var next := InnerSpec(LastPadding(t) + Print(rest), failsafe + 1);
      var r := InnerSpec(Print(f), failsafe);
      assert !r.raised ==> r.subs == [AsyncRecord(t)] + next.subs && !next.raised;
      if Inside(t).More? {
        assert !SameRecord(RecordOf(t), AsyncRecord(t)) by { GroupRecordDiffers(t); }
        assert Flatten(f)[0] == RecordOf(t) && (!r.raised ==> r.subs[0] == AsyncRecord(t));
      } else {
        EmptyFlattens();
        assert Flatten(f) == [RecordOf(t)] + Flatten(rest);
        hide SameSubs;
        SubsSplit(RecordOf(t), AsyncRecord(t), Flatten(rest), next.subs);
        if rest.More? && n % 4 != 0 {
          NextDiffers(RoundUp4(n) - n, rest, failsafe + 1);
        } else if rest.More? {
          MembersDiffer(rest, failsafe + 1);
        }
      }
    }
  }

  lemma GroupRecordDiffers(t: Tree)
    requires TreeOk(t) && Inside(t).More?
    ensures !SameRecord(RecordOf(t), AsyncRecord(t))
  {
    hide FixedHex, LooksLikeAvp, LengthOf, PrintAvp, ParseInt, Pow16, HeaderOk;
    assert Content(t) != "" by { GuessIsRight(t); NothingLooksLikeAvp(); }
    hide Content;
  }

  lemma NextDiffers(p: nat, rest: Forest, failsafe: nat)
    requires failsafe <= FAILSAFE_LIMIT && 1 <= p <= 3 && rest.More? && TreeOk(rest.first)
    ensures var r := InnerSpec(Zeros(p * 2) + Print(rest), failsafe); r.raised || !SameSubs(Flatten(rest), r.subs)
  {
    hide LooksLikeAvp, ReadAsync, PrintAvp, TreeOk, Content, From, LengthOf, Zeros, FixedHex;
    var u := rest.first;
    SomeMembers(rest);
    ShiftedDiffers(p, u, Print(rest.rest));
    RecordFields(u);
    hide RecordOf, Flatten;
    var data := Zeros(p * 2) + Print(rest);
    assert data == Zeros(2 * p) + (PrintAvp(u.head, Content(u)) + Print(rest.rest));
    var r := InnerSpec(data, failsafe);
    var a := ReadAsync(data);
    if r.subs != [] && !r.raised {
      assert r.subs[0] == a.value;
      assert !SameRecord(Flatten(rest)[0], r.subs[0]);
    }
  }

  lemma RecordFields(t: Tree)
    ensures RecordOf(t).code == t.head.code && RecordOf(t).flags == t.head.flags && RecordOf(t).length == LengthOf(t)
  {
  }

  /** A group with a vendor whose number is not also the code of its first member. */
  predicate NoEcho(t: Tree) {
    t.head.vendor.Some? && Inside(t).More? ==> t.head.vendor.value != Inside(t).first.head.code
  }

  /** A group that the decoders do not see alike is never unpacked alike. */
  lemma GroupDiffers(t: Tree, failsafe: nat)
    requires failsafe <= FAILSAFE_LIMIT && Readable(t) && Inside(t).More? && MembersReadable(Inside(t)) && NoEcho(t) && !SeenAlike(t)
    ensures var r := InnerSpec(AsyncData(t), failsafe); r.raised || !SameSubs(Flatten(Inside(t)), r.subs)
  {
    hide LooksLikeAvp, ReadAsync, PrintAvp, LengthOf, Flatten, RecordOf, Lined, From, Print;
    if t.head.vendor.None? {
      GroupText(t);
      MembersDiffer(t.members, failsafe);
    } else {
      SomeMembers(t.members);
      RecordFields(t.members.first);
      VendorReadAsCode(t);
      hide AsyncData;
      var r := InnerSpec(AsyncData(t), failsafe);
      if r.subs != [] && !r.raised {
        assert r.subs[0] == ReadAsync(AsyncData(t)).value;
        assert !SameRecord(Flatten(t.members)[0], r.subs[0]);
      }
    }
  }

  /** In a group with a vendor, this decoder reads the vendor's number as the first code. */
  lemma VendorReadAsCode(t: Tree)
    requires TreeOk(t) && t.head.vendor.Some?
    ensures var a := ReadAsync(AsyncData(t)); a.Some? ==> a.value.code == t.head.vendor.value
  {
    hide ParseInt, FixedHex, Content, LooksLikeAvp, Pow16;
    var v := t.head.vendor.value;
    FixedHexRoundTrip(v, 8);
    assert Slice(AsyncData(t), 0, 8) == FixedHex(v, 8);
  }

  // ------------------------------------------------ retries and the failsafe

  /** What the inner loop makes of an AVP with the whole failsafe before it. */
  ghost function Trial(t: Tree): Inner {
    InnerSpec(AsyncData(t), 0)
  }

  /** The inner loop does the same wherever the failsafe starts, until that runs out. */
  lemma {:induction false} InnerShift(data: string, low: nat, high: nat)
    requires low <= high <= FAILSAFE_LIMIT
    ensures var r, s := InnerSpec(data, low), InnerSpec(data, high);
            if r.failsafe + (high - low) <= FAILSAFE_LIMIT then s == r.(failsafe := r.failsafe + (high - low))
            else !s.raised && s.failsafe == FAILSAFE_LIMIT + 1 && |s.subs| == FAILSAFE_LIMIT - high
    decreases FAILSAFE_LIMIT - high
  {
    hide LooksLikeAvp, ReadAsync, From;
    if LooksLikeAvp(data) && high < FAILSAFE_LIMIT && ReadAsync(data).Some? {
      InnerShift(From(data, ReadAsync(data).value.length * 2), low + 1, high + 1);
    }
  }

  /** Trying again costs `period` each time; whether the counter then stops at the failsafe. */
  predicate HitsExactly(left: nat, period: nat)
    requires period > 0
  {
    left % period == 0
  }

  lemma HitsAgain(left: nat, period: nat)
    requires 0 < period <= left
    ensures HitsExactly(left, period) <==> HitsExactly(left - period, period)
  {
    var q, r := left / period, left % period;
    assert left == q * period + r;
    assert left - period == (q - 1) * period + r by { OneLess(q, period, r); }
    RemainderIs(q - 1, period, r, left - period);
  }

  lemma OneLess(q: int, period: int, r: int)
    ensures q * period + r - period == (q - 1) * period + r
  {
  }

  lemma RemainderIs(q: int, period: int, r: int, n: int)
    requires 0 <= r < period && n == q * period + r
    ensures n % period == r
  {
    var k := n / period;
    assert n == k * period + n % period;
    assert (q - k) * period == n % period - r by { Difference(q, k, period); }
    NoMultiple(q - k, period, n % period - r);
  }

  lemma Difference(q: int, k: int, period: int)
    ensures (q - k) * period == q * period - k * period
  {
  }

  lemma NoMultiple(d: int, period: int, x: int)
    requires period > 0 && -period < x < period && d * period == x
    ensures x == 0
  {
    if d > 0 {
      Difference(d, 1, period);
      NotNegative(d - 1, period);
    } else if d < 0 {
      Difference(0, d, period);
      Difference(-d, 1, period);
      NotNegative(-d - 1, period);
    }
  }

  lemma NotNegative(x: nat, y: nat)
    ensures x * y >= 0
  {
  }

  /** An ungrouped AVP that the inner loop cannot begin on: it comes to it with the failsafe just
      used up, at once or after the exceptions that it raises each time. */
  ghost predicate CutInTime(t: Tree, counter: nat) {
    && Inside(t).Empty? && counter < FAILSAFE_LIMIT
    && (counter == FAILSAFE_LIMIT - 1
        || (Trial(t).raised && HitsExactly(FAILSAFE_LIMIT - 1 - counter, Trial(t).failsafe + 1)))
  }

  /** What the outer loop makes of an ungrouped AVP that the inner loop takes for a group: it comes
      out whole if it is cut in time, and then the failsafe is used up. */
  lemma {:induction false} FalseGroupComesOut(t: Tree, rest: Forest, counter: nat)
    requires counter <= FAILSAFE_LIMIT && Readable(t) && Inside(t).Empty? && LooksLikeAvp(AsyncData(t))
    requires |Print(More(t, rest))| > 16
    ensures var b := AsyncSpec(Print(More(t, rest)), counter);
            if CutInTime(t, counter) then b == [Avp(AsyncRecord(t), [])]
            else b != [] ==> b[0].subs != []
    decreases FAILSAFE_LIMIT - counter
  {
    hide LooksLikeAvp, TreeOk, AsyncData, Print, InnerSpec, Readable, AsyncRecord, HitsExactly, AsyncSpec;
    if counter == FAILSAFE_LIMIT {
      AsyncEnds(Print(More(t, rest)), counter);
    } else {
      AsyncStep(t, rest, counter);
      InnerShift(AsyncData(t), 0, counter + 1);
      var r, trial := InnerSpec(AsyncData(t), counter + 1), Trial(t);
      InnerBegins(AsyncData(t), counter + 1);
      if counter + 1 == FAILSAFE_LIMIT {
        AsyncEnds(Print(rest), FAILSAFE_LIMIT + 1);
        AsyncRecordFields(t);
        assert AsyncRecord(t).(data := AsyncData(t)) == AsyncRecord(t);
        assert [Avp(AsyncRecord(t), [])] + [] == [Avp(AsyncRecord(t), [])];
      } else if r.raised {
        assert r.failsafe == counter + 1 + trial.failsafe;
        TrialRaises(AsyncData(t));
        FalseGroupComesOut(t, rest, r.failsafe);
        NextTry(t, counter, r.failsafe);
      } else {
        NotCut(t, counter);
      }
    }
  }

  /** On a text that looks like an AVP the inner loop reads one, raises or is cut. */
  lemma InnerBegins(data: string, counter: nat)
    requires counter <= FAILSAFE_LIMIT && LooksLikeAvp(data)
    ensures var r := InnerSpec(data, counter);
            && (counter == FAILSAFE_LIMIT ==> r == Inner([], data, counter + 1, false))
            && (counter < FAILSAFE_LIMIT && !r.raised ==> r.subs != [])
  {
    hide LooksLikeAvp, ReadAsync;
  }

  lemma TrialRaises(data: string)
    ensures InnerSpec(data, 0).raised ==> 1 <= InnerSpec(data, 0).failsafe <= FAILSAFE_LIMIT
  {
    hide LooksLikeAvp, ReadAsync, From;
    RaisedWithin(data, 0);
  }

  lemma {:induction false} RaisedWithin(data: string, counter: nat)
    requires counter <= FAILSAFE_LIMIT
    ensures InnerSpec(data, counter).raised ==> counter < InnerSpec(data, counter).failsafe <= FAILSAFE_LIMIT
    decreases FAILSAFE_LIMIT - counter
  {
    hide LooksLikeAvp, ReadAsync, From;
    if LooksLikeAvp(data) && counter < FAILSAFE_LIMIT && ReadAsync(data).Some? {
      RaisedWithin(From(data, ReadAsync(data).value.length * 2), counter + 1);
    }
  }

  lemma NextTry(t: Tree, counter: nat, next: nat)
    requires counter < FAILSAFE_LIMIT - 1 && Trial(t).raised && next == counter + Trial(t).failsafe + 1 <= FAILSAFE_LIMIT
    ensures CutInTime(t, counter) <==> CutInTime(t, next)
  {
    hide InnerSpec, HitsExactly;
    var period, left := Trial(t).failsafe + 1, FAILSAFE_LIMIT - 1 - counter;
    if period <= left {
      HitsAgain(left, period);
      HitsNone(period);
    } else {
      TooShort(left, period);
    }
  }

  lemma HitsNone(period: nat)
    requires period > 0
    ensures HitsExactly(0, period)
  {
  }

  lemma TooShort(left: nat, period: nat)
    requires 0 < left < period
    ensures !HitsExactly(left, period)
  {
  }

  /** Without an exception, or with one past the failsafe, it is cut too late. */
  lemma NotCut(t: Tree, counter: nat)
    requires counter < FAILSAFE_LIMIT - 1 && !InnerSpec(AsyncData(t), counter + 1).raised
    ensures !CutInTime(t, counter)
  {
    hide InnerSpec, HitsExactly;
    InnerShift(AsyncData(t), 0, counter + 1);
    if Trial(t).raised {
      TooShort(FAILSAFE_LIMIT - 1 - counter, Trial(t).failsafe + 1);
    }
  }

  // --------------------------------------------------------- exact agreement

  /** Readable at both levels, and no vendor's number is the code of its group's first member. */
  predicate Comparable(f: Forest) {
    f.More? ==>
      && Readable(f.first) && MembersReadable(Inside(f.first)) && NoEcho(f.first)
      && Comparable(f.rest)
  }

  /** All AVPs are seen alike, or all but a last one that is no group and is cut in time. */
  ghost predicate ComeOutAlike(f: Forest, counter: nat) {
    f.More? ==>
      if SeenAlike(f.first) then ComeOutAlike(f.rest, counter + 1 + Size(Inside(f.first)))
      else CutInTime(f.first, counter) && |Print(f.rest)| <= 16
  }

  lemma {:induction false} ComparableIsOk(f: Forest)
    requires Comparable(f)
    ensures ForestOk(f)
    decreases f
  {
    hide TreeOk, MembersReadable, NoEcho;
    if f.More? {
      ComparableIsOk(f.rest);
    }
  }

  /** However often an exception makes the loop try it again, a group that is not seen alike does
      not come out alike. */
  lemma {:induction false} AsyncFirstDiffers(t: Tree, rest: Forest, failsafe: nat)
    requires failsafe <= FAILSAFE_LIMIT + 1 && Comparable(More(t, Empty)) && !SeenAlike(t) && Inside(t).More?
    ensures var b := AsyncSpec(Print(More(t, rest)), failsafe);
            b != [] ==> !SameAvp(Avp(RecordOf(t), Flatten(Inside(t))), b[0])
    decreases FAILSAFE_LIMIT + 1 - failsafe
  {
    hide LooksLikeAvp, TreeOk, AsyncData, RecordOf, Flatten, Print, InnerSpec, SameSubs, Lined, MembersReadable, NoEcho, Readable, AsyncRecord, SeenAlike;
    if |Print(More(t, rest))| > 16 && failsafe < FAILSAFE_LIMIT {
      AsyncStep(t, rest, failsafe);
      GroupDiffers(t, failsafe + 1);
      var r := InnerSpec(AsyncData(t), failsafe + 1);
      if r.raised {
        AsyncFirstDiffers(t, rest, r.failsafe);
      }
    }
  }

  lemma {:induction false} AgreeExactlyFrom(f: Forest, failsafe: nat)
    requires failsafe + Size(f) <= FAILSAFE_LIMIT && Comparable(f)
    ensures SameList(DecodeSpec(Print(f), [], failsafe), AsyncSpec(Print(f), failsafe)) <==> ComeOutAlike(f, failsafe)
    decreases f
  {
    hide TreeOk, LengthOf, LooksLikeAvp, SameAvp, RecordOf, AsyncRecord, AsyncData, Content, PrintAvp, ReadAvp, ReadAsync, After, Lined,
         MembersReadable, NoEcho, Readable, SeenAlike, DecodeSpec, AsyncSpec, Flatten, Print, CutInTime;
    ComparableIsOk(f);
    if f.Empty? {
      NothingDecoded(failsafe, failsafe);
    } else {
      var t, rest := f.first, f.rest;
      PrintIsLong(f);
      InsideSize(t);
      var a, b := DecodeSpec(Print(f), [], failsafe), AsyncSpec(Print(f), failsafe);
      if |Print(f)| <= 16 {
        ShortDecodesNothing(Print(f), failsafe, failsafe);
        BareIsSeenAlike(f);
      } else if SeenAlike(t) {
        FirstAgrees(t, rest, failsafe);
        AgreeExactlyFrom(rest, failsafe + 1 + |Flatten(Inside(t))|);
        SameSplit(a, b);
      } else if Inside(t).More? {
        DecodeOne(t, rest, failsafe);
        AsyncFirstDiffers(t, rest, failsafe);
        if b != [] {
          SameSplit(a, b);
        }
        GroupsAreNotCut(t, failsafe);
      } else {
        LastComesOut(t, rest, failsafe);
      }
    }
  }

  lemma GroupsAreNotCut(t: Tree, counter: nat)
    requires Inside(t).More?
    ensures !CutInTime(t, counter)
  {
    hide InnerSpec;
  }

  /** A bare header is seen alike. */
  lemma BareIsSeenAlike(f: Forest)
    requires Comparable(f) && f.More? && |Print(f)| <= 16
    ensures f.rest.Empty? && SeenAlike(f.first)
  {
    hide LooksLikeAvp, PrintAvp, HeaderOk, Pow16, FixedHex, ParseInt, Print;
    ComparableIsOk(f);
    PrintIsLong(f);
    var t := f.first;
    assert LengthOf(t) == 8;
    assert t.head.vendor.None? && Content(t) == "";
    assert Inside(t).Empty? by { GuessIsRight(t); NothingLooksLikeAvp(); }
    NothingLooksLikeAvp();
    assert AsyncData(t) == "";
  }

  /** An ungrouped AVP that the second decoder takes for a group: the lists agree if it is cut in
      time and nothing follows. */
  lemma LastComesOut(t: Tree, rest: Forest, failsafe: nat)
    requires failsafe + Size(More(t, rest)) <= FAILSAFE_LIMIT && Comparable(More(t, rest)) && |Print(More(t, rest))| > 16
    requires Inside(t).Empty? && !SeenAlike(t)
    ensures SameList(DecodeSpec(Print(More(t, rest)), [], failsafe), AsyncSpec(Print(More(t, rest)), failsafe))
       <==> CutInTime(t, failsafe) && |Print(rest)| <= 16
  {
    hide TreeOk, LengthOf, SameAvp, RecordOf, AsyncRecord, AsyncData, Content, Lined, MembersReadable, NoEcho, DecodeSpec,
         AsyncSpec, Flatten, Print, CutInTime, LooksLikeAvp, SameList;
    ComparableIsOk(More(t, rest));
    InsideSize(t);
    EmptyFlattens();
    DecodeOne(t, rest, failsafe);
    FalseGroupComesOut(t, rest, failsafe);
    var text := Print(More(t, rest));
    var a, b := DecodeSpec(text, [], failsafe), AsyncSpec(text, failsafe);
    var more := DecodeSpec(Print(rest), [], failsafe + 1);
    assert Flatten(Inside(t)) == [];
    assert a == [Avp(RecordOf(t), [])] + more;
    assert more == [] <==> |Print(rest)| <= 16 by { RestDecodes(rest, failsafe + 1); }
    if CutInTime(t, failsafe) {
      FlatAgrees(t);
      AsyncRecordFields(t);
      assert AsyncRecord(t).(data := AsyncData(t)) == AsyncRecord(t);
      SameSplit(a, b);
      assert a[1..] == more && b[1..] == [];
      SameAsNone(more);
    } else if b != [] {
      SameSplit(a, b);
      SubsTell(a[0], b[0]);
    } else {
      NotAsNone(a);
    }
  }

  lemma SameAsNone(a: seq<Avp>)
    ensures SameList(a, []) <==> a == []
  {
  }

  lemma NotAsNone(a: seq<Avp>)
    requires a != []
    ensures !SameList(a, [])
  {
  }

  lemma SubsTell(a: Avp, b: Avp)
    requires a.subs == [] != b.subs
    ensures !SameAvp(a, b)
  {
    hide SameRecord, LooksLikeAvp;
  }

  lemma RestDecodes(rest: Forest, failsafe: nat)
    requires ForestOk(rest) && failsafe + Size(rest) <= FAILSAFE_LIMIT
    ensures DecodeSpec(Print(rest), [], failsafe) == [] <==> |Print(rest)| <= 16
  {
    hide TreeOk, DecodeSpec, RecordOf, Flatten, PrintAvp;
    if |Print(rest)| <= 16 {
      ShortDecodesNothing(Print(rest), failsafe, failsafe);
    } else {
      assert Print(Empty) == "";
      assert rest.More?;
      DecodeOne(rest.first, rest.rest, failsafe);
    }
  }

  lemma InsideSize(t: Tree)
    ensures |Flatten(Inside(t))| == Size(Inside(t))
    ensures forall rest: Forest :: Size(More(t, rest)) == 1 + Size(Inside(t)) + Size(rest)
  {
    FlattenSize(Inside(t));
  }

  lemma ShortDecodesNothing(data: string, failsafe: nat, counter: nat)
    requires |data| <= 16 && failsafe <= FAILSAFE_LIMIT + 1 && counter <= FAILSAFE_LIMIT + 1
    ensures DecodeSpec(data, [], failsafe) == [] && AsyncSpec(data, counter) == []
  {
  }

  lemma NothingDecoded(failsafe: nat, counter: nat)
    requires failsafe <= FAILSAFE_LIMIT + 1 && counter <= FAILSAFE_LIMIT + 1
    ensures DecodeSpec(Print(Empty), [], failsafe) == [] && AsyncSpec(Print(Empty), counter) == []
  {
  }

  /** Of the lists within the failsafe in which no vendor's number is the code of its group's first
      member, the decoders agree on exactly those whose AVPs are all seen alike, or all but a last
      ungrouped one to which the second decoder comes with the failsafe just used up. */
  lemma DecodersAgreeExactly(f: Forest)
    requires Comparable(f) && Size(f) <= 100
    ensures SameList(Decode(Print(f)), AsyncSpec(Print(f), 0)) <==> ComeOutAlike(f, 0)
  {
    hide ComeOutAlike, SameList, DecodeSpec, AsyncSpec, Print, Comparable, Size;
    DecodeStarts(Print(f));
    AgreeExactlyFrom(f, 0);
  }

  /** No ungrouped AVP makes the second decoder raise. */
  ghost predicate NoneRaises(f: Forest) {
    f.More? ==> !Trial(f.first).raised && NoneRaises(f.rest)
  }

  lemma {:induction false} ComeOutAlikeQuietly(f: Forest, counter: nat)
    requires NoneRaises(f) && counter + Size(f) < FAILSAFE_LIMIT
    ensures ComeOutAlike(f, counter) <==> AllSeenAlike(f)
    decreases f
  {
    hide SeenAlike, InnerSpec, AsyncData, HitsExactly;
    if f.More? {
      InsideSize(f.first);
      if SeenAlike(f.first) {
        ComeOutAlikeQuietly(f.rest, counter + 1 + Size(Inside(f.first)));
      }
    }
  }

  /** With one AVP to spare and no exception, they agree exactly on the lists seen alike. */
  lemma DecodersAgreeQuietly(f: Forest)
    requires Comparable(f) && NoneRaises(f) && Size(f) < 100
    ensures SameList(Decode(Print(f)), AsyncSpec(Print(f), 0)) <==> AllSeenAlike(f)
  {
    hide ComeOutAlike, AllSeenAlike, SameList, DecodeSpec, AsyncSpec, Print, Comparable, NoneRaises, Size;
    DecodersAgreeExactly(f);
    ComeOutAlikeQuietly(f, 0);
  }

  // ---------------------------------------------------------------- lookup

  function AsyncLookup(avps: seq<Avp>, code: int): seq<string> {
    if avps == [] then []
    else AsyncLookup(avps[..|avps| - 1], code)
         + (if avps[|avps| - 1].head.code == code then [avps[|avps| - 1].head.data] else [])
  }

  method GetAvpDataAsync(avps: seq<Avp>, code: int) returns (found: seq<string>)
    ensures found == AsyncLookup(avps, code)
  {
    found := [];
    for i := 0 to |avps|
      invariant found == AsyncLookup(avps[..i], code)
    {
      assert avps[..i + 1][..i] == avps[..i];
      if avps[i].head.code == code {
        found := found + [avps[i].head.data];
      }
    }
    assert avps[..|avps|] == avps;
  }

  function Texts(s: seq<string>): (r: seq<Found>)
    ensures |r| == |s| && forall i :: 0 <= i < |s| ==> r[i] == Text(s[i])
  {
    seq(|s|, i requires 0 <= i < |s| => Text(s[i]))
  }

  // ----------------------------------------------- how many AVPs are read

  predicate AllReadable(f: Forest) {
    f.More? ==> Readable(f.first) && AllReadable(f.rest)
  }

  lemma {:induction false} ReadableIsOk(f: Forest)
    requires AllReadable(f)
    ensures ForestOk(f)
    decreases f
  {
    hide TreeOk;
    if f.More? {
      ReadableIsOk(f.rest);
    }
  }

  /** How many AVPs of a printed list the first decoder reads before it has its hundred nodes. */
  function FirstReads(f: Forest, counter: nat): nat {
    if f.Empty? || |Print(f)| <= 16 || counter >= FAILSAFE_LIMIT then 0
    else 1 + FirstReads(f.rest, counter + 1 + Size(Inside(f.first)))
  }

  /** How many the second one reads: an AVP costs it what its inner loop takes, and is tried again
      as long as that raises. */
  ghost function SecondReads(f: Forest, counter: nat): nat
    decreases f, FAILSAFE_LIMIT + 1 - counter
  {
    if f.Empty? || |Print(f)| <= 16 || counter >= FAILSAFE_LIMIT then 0
    else
      var r := InnerSpec(AsyncData(f.first), counter + 1);
      if r.raised then SecondReads(f, r.failsafe) else 1 + SecondReads(f.rest, r.failsafe)
  }

  function Drop(f: Forest, p: nat): Forest {
    if p == 0 || f.Empty? then f else Drop(f.rest, p - 1)
  }

  /** The nodes of the first `p` AVPs. */
  function NodesBefore(f: Forest, p: nat): nat {
    if p == 0 || f.Empty? then 0 else 1 + Size(Inside(f.first)) + NodesBefore(f.rest, p - 1)
  }

  /** What the first `p` AVPs cost the second decoder. */
  ghost function CostBefore(f: Forest, p: nat): nat {
    if p == 0 || f.Empty? then 0 else 1 + Trial(f.first).failsafe + CostBefore(f.rest, p - 1)
  }

  /** None of the first `p` AVPs raises. */
  ghost predicate QuietBefore(f: Forest, p: nat) {
    p > 0 && f.More? ==> !Trial(f.first).raised && QuietBefore(f.rest, p - 1)
  }

  /** The first decoder reads an AVP exactly when it is no bare header at the end and the nodes
      before it are fewer than a hundred. */
  lemma {:induction false} FirstReadsExactly(f: Forest, counter: nat, p: nat)
    requires ForestOk(f)
    ensures p < FirstReads(f, counter) <==> |Print(Drop(f, p))| > 16 && counter + NodesBefore(f, p) < 100
    decreases f
  {
    hide TreeOk, Size, Inside, PrintAvp, Print;
    assert Print(Empty) == "" by { PrintNothing(); }
    if f.More? {
      PrintShrinks(f);
      if p > 0 {
        FirstReadsExactly(f.rest, counter + 1 + Size(Inside(f.first)), p - 1);
        DropShrinks(f.rest, p - 1);
      }
    }
  }

  lemma PrintNothing()
    ensures Print(Empty) == ""
  {
  }

  lemma PrintShrinks(f: Forest)
    requires f.More?
    ensures |Print(f.rest)| <= |Print(f)|
  {
    hide PrintAvp;
  }

  lemma {:induction false} DropShrinks(f: Forest, p: nat)
    ensures |Print(Drop(f, p))| <= |Print(f)|
    decreases p
  {
    hide Print;
    if p > 0 && f.More? {
      PrintShrinks(f);
      DropShrinks(f.rest, p - 1);
    }
  }

  /** What one AVP leaves of the failsafe. */
  lemma TurnCosts(t: Tree, counter: nat)
    requires counter < FAILSAFE_LIMIT
    ensures var r, trial := InnerSpec(AsyncData(t), counter + 1), Trial(t);
            && (counter + 1 + trial.failsafe <= FAILSAFE_LIMIT ==> r.raised == trial.raised && r.failsafe == counter + 1 + trial.failsafe)
            && (counter + 1 + trial.failsafe > FAILSAFE_LIMIT ==> !r.raised && r.failsafe == FAILSAFE_LIMIT + 1)
            && (trial.raised ==> 1 <= trial.failsafe <= FAILSAFE_LIMIT)
  {
    hide InnerSpec, AsyncData;
    InnerShift(AsyncData(t), 0, counter + 1);
    TrialRaises(AsyncData(t));
  }

  /** Tried again and again, an AVP that raises is read in the end unless the counter stops at the
      failsafe exactly; nothing behind it is. */
  lemma {:induction false} RaisingReads(f: Forest, counter: nat)
    requires f.More? && |Print(f)| > 16 && counter <= FAILSAFE_LIMIT && Trial(f.first).raised
    ensures SecondReads(f, counter) == if HitsExactly(FAILSAFE_LIMIT - counter, Trial(f.first).failsafe + 1) then 0 else 1
    decreases FAILSAFE_LIMIT - counter
  {
    hide InnerSpec, AsyncData, HitsExactly, Print;
    var period := Trial(f.first).failsafe + 1;
    if counter == FAILSAFE_LIMIT {
      HitsNone(period);
    } else {
      TurnCosts(f.first, counter);
      if counter + period <= FAILSAFE_LIMIT {
        RaisingReads(f, counter + period);
        HitsAgain(FAILSAFE_LIMIT - counter, period);
      } else {
        TooShort(FAILSAFE_LIMIT - counter, period);
        assert SecondReads(f.rest, FAILSAFE_LIMIT + 1) == 0;
      }
    }
  }

  /** The second decoder reads an AVP exactly when it is no bare header at the end, nothing before
      it raises, what is before it costs less than a hundred, and, if it raises itself, its retries
      do not stop at the failsafe exactly. */
  lemma {:induction false} SecondReadsExactly(f: Forest, counter: nat, p: nat)
    requires ForestOk(f)
    ensures p < SecondReads(f, counter)
       <==> && |Print(Drop(f, p))| > 16 && QuietBefore(f, p) && counter + CostBefore(f, p) < 100
            && Drop(f, p).More?
            && (Trial(Drop(f, p).first).raised ==>
                  !HitsExactly(100 - (counter + CostBefore(f, p)), Trial(Drop(f, p).first).failsafe + 1))
    decreases f
  {
    hide TreeOk, InnerSpec, AsyncData, HitsExactly, PrintAvp, Print;
    PrintNothing();
    if f.More? {
      PrintShrinks(f);
      DropShrinks(f, p);
      if counter < FAILSAFE_LIMIT && |Print(f)| > 16 {
        TurnCosts(f.first, counter);
        if Trial(f.first).raised {
          RaisingReads(f, counter);
        } else if counter + 1 + Trial(f.first).failsafe > FAILSAFE_LIMIT {
          assert SecondReads(f.rest, FAILSAFE_LIMIT + 1) == 0;
        } else if p > 0 {
          SecondReadsExactly(f.rest, counter + 1 + Trial(f.first).failsafe, p - 1);
        }
      }
    }
  }

  // ------------------------------------------------------- what the lookups find

  predicate NotAmong(subs: seq<SubAvp>, code: int) {
    forall i :: 0 <= i < |subs| ==> subs[i].code != code
  }

  lemma {:induction false} NoneAmong(subs: seq<SubAvp>, code: int)
    requires NotAmong(subs, code)
    ensures LookupSubs(subs, code) == []
    decreases |subs|
  {
    if subs != [] {
      NoneAmong(subs[1..], code);
    }
  }

  /** No AVP of the forest has the code, at any depth. */
  predicate NotInside(f: Forest, code: int) {
    f.More? ==>
      && f.first.head.code != code && (f.first.Group? ==> NotInside(f.first.members, code))
      && NotInside(f.rest, code)
  }

  /** The code is used plainly: by no vendor AVP, no empty AVP, no group and no member of one. */
  predicate UsedPlainly(f: Forest, code: int) {
    f.More? ==>
      && (f.first.head.code == code ==> f.first.Leaf? && f.first.head.vendor.None? && Content(f.first) != "")
      && NotInside(Inside(f.first), code)
      && UsedPlainly(f.rest, code)
  }

  lemma {:induction false} NotInsideFlat(f: Forest, code: int)
    requires NotInside(f, code)
    ensures NotAmong(Flatten(f), code)
    decreases f
  {
    hide LengthOf, WidenVendor;
    if f.More? {
      NotInsideFlat(f.rest, code);
      if f.first.Group? {
        NotInsideFlat(f.first.members, code);
      }
    }
  }

  function PayloadIf(t: Tree, code: int): seq<string> {
    if t.head.code == code then [Content(t)] else []
  }

  /** The payloads with the code among the first `n` AVPs of a list. */
  function PayloadsIn(f: Forest, code: int, n: nat): seq<string> {
    if f.Empty? || n == 0 then [] else PayloadIf(f.first, code) + PayloadsIn(f.rest, code, n - 1)
  }

  lemma TextsConcat(a: seq<string>, b: seq<string>)
    ensures Texts(a + b) == Texts(a) + Texts(b)
    ensures Texts([]) == []
  {
  }

  lemma TextsTell(a: seq<string>, b: seq<string>)
    ensures Texts(a) == Texts(b) <==> a == b
  {
    if Texts(a) == Texts(b) {
      assert |a| == |Texts(a)| == |b|;
      forall i | 0 <= i < |a|
        ensures a[i] == b[i]
      {
        assert Texts(a)[i] == Texts(b)[i];
      }
    }
  }

  lemma LookupFirst(a: Avp, rest: seq<Avp>, code: int)
    ensures Lookup([a] + rest, code) == Hit(a.head.code == code, FoundAt(a)) + LookupSubs(a.subs, code) + Lookup(rest, code)
  {
    hide LookupSubs, FoundAt;
    assert ([a] + rest)[1..] == rest;
  }

  lemma {:induction false} AsyncLookupFirst(a: Avp, rest: seq<Avp>, code: int)
    ensures AsyncLookup([a] + rest, code) == (if a.head.code == code then [a.head.data] else []) + AsyncLookup(rest, code)
    decreases |rest|
  {
    var all, n := [a] + rest, |rest|;
    if rest == [] {
      assert all == [a] && all[..0] == [];
    } else {
      assert all[..|all| - 1] == [a] + rest[..n - 1] && all[|all| - 1] == rest[n - 1];
      AsyncLookupFirst(a, rest[..n - 1], code);
    }
  }

  /** The first lookup finds the payloads of the AVPs the first decoder reads. */
  lemma {:induction false} FirstFinds(f: Forest, counter: nat, code: int)
    requires ForestOk(f) && UsedPlainly(f, code) && counter <= FAILSAFE_LIMIT + 1
    ensures Lookup(DecodeSpec(Print(f), [], counter), code) == Texts(PayloadsIn(f, code, FirstReads(f, counter)))
    decreases f
  {
    hide TreeOk, RecordOf, Flatten, Print, DecodeSpec, NotInside, Lookup, LookupSubs, FoundAt, Content, Texts, PayloadIf;
    TextsConcat([], []);
    NoLookup(code);
    PrintNothing();
    if f.Empty? || |Print(f)| <= 16 {
      ShortDecodesNothing(Print(f), counter, counter);
    } else if counter >= FAILSAFE_LIMIT {
      SpentDecodesNothing(Print(f), counter);
    } else {
      var t, rest := f.first, f.rest;
      DecodeOne(t, rest, counter);
      InsideSize(t);
      EmptyFlattens();
      NotInsideFlat(Inside(t), code);
      var flat, budget := Flatten(Inside(t)), FAILSAFE_LIMIT - counter;
      var kept := if |flat| >= budget then flat[..budget - 1] else flat;
      var a := Avp(RecordOf(t), kept);
      var more := if |flat| >= budget then [] else DecodeSpec(Print(rest), [], counter + 1 + |flat|);
      assert [a] + [] == [a];
      assert DecodeSpec(Print(f), [], counter) == [a] + more;
      LookupFirst(a, more, code);
      FirstEntry(t, kept, code);
      if |flat| < budget {
        FirstFinds(rest, counter + 1 + |flat|, code);
      } else {
        assert FirstReads(rest, counter + 1 + |flat|) == 0;
      }
      TextsConcat(PayloadIf(t, code), PayloadsIn(rest, code, FirstReads(rest, counter + 1 + |flat|)));
      hide PayloadsIn;
      assert Hit(t.head.code == code, FoundAt(a)) + [] == Hit(t.head.code == code, FoundAt(a));
    }
  }

  lemma NoLookup(code: int)
    ensures Lookup([], code) == []
  {
  }

  lemma SpentDecodesNothing(data: string, counter: nat)
    requires FAILSAFE_LIMIT <= counter <= FAILSAFE_LIMIT + 1
    ensures DecodeSpec(data, [], counter) == [] && AsyncSpec(data, counter) == []
  {
  }

  lemma FirstEntry(t: Tree, subs: seq<SubAvp>, code: int)
    requires t.head.code == code ==> t.Leaf? && Content(t) != ""
    requires subs <= Flatten(Inside(t)) && NotAmong(Flatten(Inside(t)), code)
    ensures RecordOf(t).code == t.head.code
    ensures Hit(t.head.code == code, FoundAt(Avp(RecordOf(t), subs))) == Texts(PayloadIf(t, code))
    ensures LookupSubs(subs, code) == []
  {
    hide LengthOf, WidenVendor, Flatten, LookupSubs;
    assert NotAmong(subs, code);
    NoneAmong(subs, code);
  }

  /** The second lookup finds those of the AVPs the second decoder reads. */
  lemma {:induction false} SecondFinds(f: Forest, counter: nat, code: int)
    requires AllReadable(f) && UsedPlainly(f, code) && counter <= FAILSAFE_LIMIT + 1
    ensures AsyncLookup(AsyncSpec(Print(f), counter), code) == PayloadsIn(f, code, SecondReads(f, counter))
    decreases f, FAILSAFE_LIMIT + 1 - counter
  {
    hide TreeOk, Print, AsyncSpec, NotInside, AsyncLookup, Content, PayloadIf, Readable, InnerSpec, AsyncData, AsyncRecord;
    NoAsyncLookup(code);
    PrintNothing();
    if f.Empty? || |Print(f)| <= 16 {
      ShortDecodesNothing(Print(f), counter, counter);
    } else if counter >= FAILSAFE_LIMIT {
      SpentDecodesNothing(Print(f), counter);
    } else {
      var t, rest := f.first, f.rest;
      AsyncStep(t, rest, counter);
      var r := InnerSpec(AsyncData(t), counter + 1);
      if r.raised {
        SecondFinds(f, r.failsafe, code);
      } else {
        var a := Avp(AsyncRecord(t).(data := r.rest), r.subs);
        AsyncLookupFirst(a, AsyncSpec(Print(rest), r.failsafe), code);
        SecondFinds(rest, r.failsafe, code);
        assert TreeOk(t) by { ReadableTree(t); }
        SecondEntry(t, counter + 1, code);
      }
    }
  }

  lemma ReadableTree(t: Tree)
    requires Readable(t)
    ensures TreeOk(t)
  {
    hide TreeOk;
  }

  lemma NoAsyncLookup(code: int)
    ensures AsyncLookup([], code) == []
  {
  }

  lemma SecondEntry(t: Tree, counter: nat, code: int)
    requires counter <= FAILSAFE_LIMIT && TreeOk(t)
    requires t.head.code == code ==> t.Leaf? && t.head.vendor.None?
    ensures AsyncRecord(t).code == t.head.code
    ensures (if t.head.code == code then [InnerSpec(AsyncData(t), counter).rest] else []) == PayloadIf(t, code)
  {
    hide LooksLikeAvp, LengthOf, ParseInt;
    if t.head.code == code {
      assert AsyncData(t) == "" + t.payload == t.payload;
      InnerStops(AsyncData(t), counter);
    }
  }

  /** No AVP with the code is among those that one decoder reads and the other does not. */
  ghost predicate NoneBetween(f: Forest, code: int, n: nat, m: nat) {
    forall p: nat :: (n <= p < m || m <= p < n) && Drop(f, p).More? ==> Drop(f, p).first.head.code != code
  }

  lemma {:induction false} PayloadsTell(f: Forest, code: int, n: nat, m: nat)
    ensures PayloadsIn(f, code, n) == PayloadsIn(f, code, m) <==> NoneBetween(f, code, n, m)
    decreases f
  {
    hide PayloadIf;
    if f.Empty? {
      NothingToDrop();
    } else if n > 0 && m > 0 {
      PayloadsTell(f.rest, code, n - 1, m - 1);
      BetweenShifts(f, code, n, m);
      hide NoneBetween;
      SameBehind(PayloadIf(f.first, code), PayloadsIn(f.rest, code, n - 1), PayloadsIn(f.rest, code, m - 1));
    } else {
      hide NoneBetween;
      NoPayloads(f, code, if n > m then n else m);
      BetweenAgain(f, code, n, m);
    }
  }

  lemma {:induction false} NothingToDrop()
    ensures forall p: nat :: Drop(Empty, p) == Empty
  {
  }

  lemma SameBehind<X>(a: seq<X>, b: seq<X>, c: seq<X>)
    ensures a + b == a + c <==> b == c
  {
    if a + b == a + c {
      assert b == (a + b)[|a|..] && c == (a + c)[|a|..];
    }
  }

  lemma BetweenAgain(f: Forest, code: int, n: nat, m: nat)
    requires n == 0 || m == 0
    ensures NoneBetween(f, code, n, m) <==> NoneBetween(f, code, 0, if n > m then n else m)
  {
  }

  lemma BetweenShifts(f: Forest, code: int, n: nat, m: nat)
    requires f.More? && n > 0 && m > 0
    ensures NoneBetween(f, code, n, m) <==> NoneBetween(f.rest, code, n - 1, m - 1)
  {
    assert forall p: nat :: Drop(f, p + 1) == Drop(f.rest, p);
    if NoneBetween(f, code, n, m) {
      forall p: nat | (n - 1 <= p < m - 1 || m - 1 <= p < n - 1) && Drop(f.rest, p).More?
        ensures Drop(f.rest, p).first.head.code != code
      {
        assert Drop(f, p + 1) == Drop(f.rest, p);
      }
    }
    if NoneBetween(f.rest, code, n - 1, m - 1) {
      forall p: nat | (n <= p < m || m <= p < n) && Drop(f, p).More?
        ensures Drop(f, p).first.head.code != code
      {
        assert Drop(f, p) == Drop(f.rest, p - 1);
      }
    }
  }

  lemma {:induction false} NoPayloads(f: Forest, code: int, n: nat)
    ensures PayloadsIn(f, code, n) == [] <==> NoneBetween(f, code, 0, n)
    ensures PayloadsIn(f, code, 0) == []
    decreases f
  {
    if f.Empty? {
      NothingToDrop();
    } else if n > 0 {
      NoPayloads(f.rest, code, n - 1);
      assert Drop(f, 0) == f;
      FirstAndRest(f, code, n);
    }
  }

  lemma FirstAndRest(f: Forest, code: int, n: nat)
    requires f.More? && n > 0
    ensures NoneBetween(f, code, 0, n) <==> f.first.head.code != code && NoneBetween(f.rest, code, 0, n - 1)
  {
    assert Drop(f, 0) == f;
    BetweenShifts(f, code, 1, n);
    assert NoneBetween(f, code, 0, n) <==> f.first.head.code != code && NoneBetween(f, code, 1, n);
  }

  /** Peer validation and the answers find the same payloads of a code used plainly, such as
      Origin-Host (264), exactly when no AVP with the code is read by one decoder and not by the
      other. */
  lemma OriginHostAgrees(f: Forest, code: int)
    requires AllReadable(f) && UsedPlainly(f, code)
    ensures Lookup(Decode(Print(f)), code) == Texts(AsyncLookup(AsyncSpec(Print(f), 0), code))
       <==> NoneBetween(f, code, FirstReads(f, 0), SecondReads(f, 0))
  {
    hide AllReadable, UsedPlainly, DecodeSpec, AsyncSpec, Print, Lookup, AsyncLookup, NoneBetween, PayloadsIn, Texts, FirstReads, SecondReads;
    ReadableIsOk(f);
    DecodeStarts(Print(f));
    FirstFinds(f, 0, code);
    SecondFinds(f, 0, code);
    TextsTell(PayloadsIn(f, code, FirstReads(f, 0)), PayloadsIn(f, code, SecondReads(f, 0)));
    PayloadsTell(f, code, FirstReads(f, 0), SecondReads(f, 0));
  }

  // ------------------------------------------------- lists that both read whole

  /** What the whole list costs the second decoder. */
  ghost function Cost(f: Forest): nat {
    if f.Empty? then 0 else 1 + Trial(f.first).failsafe + Cost(f.rest)
  }

  lemma {:induction false} SecondReadsAll(f: Forest, counter: nat, nodes: nat)
    requires NoneRaises(f) && counter + Cost(f) <= FAILSAFE_LIMIT && nodes + Size(f) <= FAILSAFE_LIMIT
    ensures SecondReads(f, counter) == FirstReads(f, nodes)
    decreases f
  {
    hide InnerSpec, AsyncData, Print;
    if f.More? {
      InsideSize(f.first);
      TurnCosts(f.first, counter);
      SecondReadsAll(f.rest, counter + 1 + Trial(f.first).failsafe, nodes + 1 + Size(Inside(f.first)));
    }
  }

  /** Where nothing raises and neither counter runs out, both lookups agree for every such code. */
  lemma OriginHostAgreesWithin(f: Forest, code: int)
    requires AllReadable(f) && UsedPlainly(f, code)
    requires NoneRaises(f) && Cost(f) <= 100 && Size(f) <= 100
    ensures Lookup(Decode(Print(f)), code) == Texts(AsyncLookup(AsyncSpec(Print(f), 0), code))
  {
    hide AllReadable, UsedPlainly, DecodeSpec, AsyncSpec, Print, Lookup, AsyncLookup, Texts, FirstReads, SecondReads, NoneRaises, Cost, Size;
    SecondReadsAll(f, 0, 0);
    OriginHostAgrees(f, code);
  }

  lemma {:induction false} AlikeReads(f: Forest, counter: nat)
    requires AllSeenAlike(f)
    ensures SecondReads(f, counter) == FirstReads(f, counter) && AllReadable(f)
    decreases f
  {
    hide InnerSpec, AsyncData, Print, TreeOk, Lined, LooksLikeAvp, Readable;
    if f.More? {
      var t := f.first;
      if |Print(f)| > 16 && counter < FAILSAFE_LIMIT {
        InsideSize(t);
        AlikeCosts(t, counter);
        var r := InnerSpec(AsyncData(t), counter + 1);
        if r.failsafe == counter + 1 + Size(Inside(t)) {
          AlikeReads(f.rest, r.failsafe);
        } else {
          assert SecondReads(f.rest, r.failsafe) == 0 == FirstReads(f.rest, counter + 1 + Size(Inside(t)));
          AlikeReads(f.rest, 0);
        }
      } else {
        AlikeReads(f.rest, 0);
      }
    }
  }

  /** An AVP seen alike costs both decoders the same. */
  lemma AlikeCosts(t: Tree, counter: nat)
    requires SeenAlike(t) && counter < FAILSAFE_LIMIT
    ensures var r, n := InnerSpec(AsyncData(t), counter + 1), Size(Inside(t));
            !r.raised && if counter + 1 + n <= FAILSAFE_LIMIT then r.failsafe == counter + 1 + n
                         else r.failsafe == FAILSAFE_LIMIT + 1
  {
    hide InnerSpec, AsyncData, Print, TreeOk, LooksLikeAvp, SameSubs, Flatten, AsyncMembers, Lined, LengthOf;
    NoMembers();
    InsideSize(t);
    if Inside(t).More? {
      GroupText(t);
      InnerPrinted(t.members, counter + 1);
      MembersAgree(t.members);
      SubsLength(Flatten(t.members), AsyncMembers(t.members));
    } else {
      InnerStops(AsyncData(t), counter + 1);
    }
  }

  lemma SubsLength(a: seq<SubAvp>, b: seq<SubAvp>)
    requires SameSubs(a, b)
    ensures |a| == |b|
  {
    hide SameRecord;
  }

  /** On lists that the decoders see alike the lookups agree, however long the lists are. */
  lemma OriginHostAgreesAlike(f: Forest, code: int)
    requires AllSeenAlike(f) && UsedPlainly(f, code)
    ensures Lookup(Decode(Print(f)), code) == Texts(AsyncLookup(AsyncSpec(Print(f), 0), code))
  {
    hide AllReadable, AllSeenAlike, UsedPlainly, DecodeSpec, AsyncSpec, Print, Lookup, AsyncLookup, Texts, FirstReads, SecondReads;
    AlikeReads(f, 0);
    OriginHostAgrees(f, code);
  }

  /** Members that this decoder's inner loop gets past: behind padding that it does not skip,
      nothing looks like an AVP. */
  predicate Passed(f: Forest) {
    f.More? ==>
      && Readable(f.first) && f.first.head.flags in KNOWN_FLAGS
      && if LengthOf(f.first) % 4 == 0 || f.rest.Empty? then Passed(f.rest)
         else !LooksLikeAvp(LastPadding(f.first) + Print(f.rest))
  }

  /** A group without a vendor that has such members costs the second decoder no more than the
      first, and raises nothing. */
  lemma PassedGroupCosts(t: Tree)
    requires t.Group? && t.head.vendor.None? && Passed(t.members) && Size(t.members) <= FAILSAFE_LIMIT
    ensures !Trial(t).raised && Trial(t).failsafe <= Size(t.members)
  {
    hide Passed, InnerSpec, AsyncData, Print, Size;
    GroupText(t);
    InnerPasses(t.members, 0);
  }

  /** An AVP that it leaves whole costs it nothing more. */
  lemma WholeCosts(t: Tree)
    requires !LooksLikeAvp(AsyncData(t))
    ensures !Trial(t).raised && Trial(t).failsafe == 0
  {
    hide LooksLikeAvp, AsyncData;
  }

  lemma {:induction false} InnerPasses(f: Forest, failsafe: nat)
    requires Passed(f) && failsafe + Size(f) <= FAILSAFE_LIMIT
    ensures var r := InnerSpec(Print(f), failsafe); !r.raised && r.failsafe <= failsafe + Size(f)
    decreases f
  {
    hide LooksLikeAvp, TreeOk, AsyncRecord, LengthOf, Zeros, InnerSpec, Print, Readable;
    if f.Empty? {
      InnerOfNothing(failsafe);
    } else {
      var t, rest := f.first, f.rest;
      InsideSize(t);
      InnerNext(t, rest, failsafe);
      if rest.Empty? {
        NothingBehind(t, failsafe + 1);
      } else if LengthOf(t) % 4 == 0 {
        InnerPasses(rest, failsafe + 1);
      } else {
        InnerStops(LastPadding(t) + Print(rest), failsafe + 1);
      }
    }
  }

  // ------------------------------------------------------- groups with a vendor

  /** The flags byte and the length that this decoder sees in a group with a vendor are the
      bytes of its first member's code. */
  predicate CodeLooksLikeHeader(code: nat, length: nat) {
    code / 0x100_0000 in {0x80, 0x40, 0x20, 0x00, 0xc0} && code % 0x100_0000 <= length - 8
  }

  lemma ValueOfLast(s: string)
    requires AllDigits(Hexadecimal, s) && s != ""
    ensures var n := |s| - 1;
            && AllDigits(Hexadecimal, s[..n]) && 0 <= DigitValue(Hexadecimal, s[n]) < 16
            && Value(Hexadecimal, s) == 16 * Value(Hexadecimal, s[..n]) + DigitValue(Hexadecimal, s[n])
  {
    hide DigitValue;
  }

  lemma PartsAreDigits(s: string, k: nat)
    requires AllDigits(Hexadecimal, s) && k <= |s|
    ensures AllDigits(Hexadecimal, s[..k]) && AllDigits(Hexadecimal, s[k..])
  {
    hide DigitValue;
  }

  lemma NoValue()
    ensures AllDigits(Hexadecimal, "") && Value(Hexadecimal, "") == 0 && Pow16(0) == 1
  {
  }

  lemma {:induction false} ValueSplits(s: string, k: nat)
    requires AllDigits(Hexadecimal, s) && k <= |s|
    ensures AllDigits(Hexadecimal, s[..k]) && AllDigits(Hexadecimal, s[k..])
    ensures Value(Hexadecimal, s) == Value(Hexadecimal, s[..k]) * Pow16(|s| - k) + Value(Hexadecimal, s[k..])
    ensures Value(Hexadecimal, s[k..]) < Pow16(|s| - k)
    decreases |s| - k
  {
    hide DigitValue, AllDigits, Value, Pow16;
    PartsAreDigits(s, k);
    if k == |s| {
      assert s[..k] == s && s[k..] == [];
      NoValue();
    } else {
      var n := |s| - 1;
      var d := DigitValue(Hexadecimal, s[n]);
      ValueOfLast(s);
      ValueOfLast(s[k..]);
      ValueSplits(s[..n], k);
      assert s[..n][..k] == s[..k] && s[..n][k..] == s[k..][..n - k] && s[k..][n - k] == s[n];
      PowNext(n - k);
      Sixteenfold(Value(Hexadecimal, s[..k]), Pow16(n - k), Value(Hexadecimal, s[..n][k..]), d);
    }
  }

  lemma PowNext(n: nat)
    ensures Pow16(n + 1) == 16 * Pow16(n)
  {
  }

  lemma Sixteenfold(h: nat, p: nat, l: nat, d: nat)
    ensures 16 * (h * p + l) + d == h * (16 * p) + (16 * l + d)
  {
  }

  /** Two lower-case digits that are known flags. */
  lemma FlagsByValue(s: string)
    requires |s| == 2 && forall i :: 0 <= i < 2 ==> '0' <= s[i] <= '9' || 'a' <= s[i] <= 'f'
    ensures AllDigits(Hexadecimal, s)
    ensures s in KNOWN_FLAGS <==> Value(Hexadecimal, s) in {0x80, 0x40, 0x20, 0x00, 0xc0}
  {
    hide DigitValue, AllDigits, Value;
    LowerDigit(s[0]);
    LowerDigit(s[1]);
    FlagsByChar(s);
    ValueOfTwo(s);
  }

  lemma FlagsByChar(s: string)
    requires |s| == 2
    ensures s in KNOWN_FLAGS <==> s[1] == '0' && s[0] in {'8', '4', '2', '0', 'c'}
  {
    assert s == [s[0], s[1]];
  }

  lemma ValueOfTwo(s: string)
    requires |s| == 2 && DigitValue(Hexadecimal, s[0]) >= 0 && DigitValue(Hexadecimal, s[1]) >= 0
    ensures AllDigits(Hexadecimal, s)
    ensures Value(Hexadecimal, s) == 16 * DigitValue(Hexadecimal, s[0]) + DigitValue(Hexadecimal, s[1])
  {
    hide DigitValue;
    assert s[..1] == [s[0]] && s[..1][..0] == [];
    assert AllDigits(Hexadecimal, s) && AllDigits(Hexadecimal, s[..1]);
    ValueOfLast(s);
    ValueOfLast(s[..1]);
    NoValue();
  }

  lemma LowerDigit(c: char)
    requires '0' <= c <= '9' || 'a' <= c <= 'f'
    ensures 0 <= DigitValue(Hexadecimal, c) < 16
    ensures (c == '0' <==> DigitValue(Hexadecimal, c) == 0) && (c == '2' <==> DigitValue(Hexadecimal, c) == 2)
    ensures (c == '4' <==> DigitValue(Hexadecimal, c) == 4) && (c == '8' <==> DigitValue(Hexadecimal, c) == 8)
    ensures c == 'c' <==> DigitValue(Hexadecimal, c) == 12
  {
  }

  /** When this decoder leaves a group with a vendor whole: exactly when the first member's code
      cannot pass for flags and a length.  For codes below 2^24 that is when the code exceeds the
      length of the group less its header; a vendor's members with small codes are taken apart,
      at the wrong places. */
  lemma VendorGroupLooks(t: Tree)
    requires TreeOk(t) && t.head.vendor.Some? && Inside(t).More?
    ensures LooksLikeAvp(AsyncData(t)) <==> CodeLooksLikeHeader(Inside(t).first.head.code, LengthOf(t))
  {
    hide ParseInt, FixedHex, LooksLikeAvp, Pow16, PrintAvp, Value, Digits;
    var u := t.members.first;
    MemberIsOk(t);
    VendorGroupText(t);
    PrintAvpFields(u);
    FieldValue(t.head.vendor.value, 8);
    FieldValue(u.head.code, 8);
    var v, c := FixedHex(t.head.vendor.value, 8), FixedHex(u.head.code, 8);
    LowerHex(u.head.code, 8);
    ValueSplits(c, 2);
    FlagsByValue(c[..2]);
    assert Pow16(6) == 0x100_0000 by { SixDigits(); }
    var rest := AsyncData(t)[16..];
    assert AsyncData(t) == v + c + rest;
    Quotients(Value(Hexadecimal, c[..2]), Value(Hexadecimal, c[2..]));
    HeaderInVendorGroup(v, c, rest);
    assert |AsyncData(t)| == 2 * (LengthOf(t) - 8) by { GroupDataLength(t); }
  }

  lemma MemberIsOk(t: Tree)
    requires TreeOk(t) && Inside(t).More?
    ensures TreeOk(t.members.first) && FieldsOk(t.members.first)
    ensures HeaderOk(t.head) && HeaderOk(t.members.first.head)
  {
    hide LooksLikeAvp, Pow16, Content, LengthOf, HeaderOk;
    assert InsideOk(t.members);
  }

  lemma SixDigits()
    ensures Pow16(6) == 0x100_0000
  {
    assert Pow16(3) == 4096;
  }

  lemma Quotients(h: nat, l: nat)
    requires l < 0x100_0000
    ensures (h * 0x100_0000 + l) / 0x100_0000 == h && (h * 0x100_0000 + l) % 0x100_0000 == l
  {
  }

  lemma LowerHex(n: nat, w: nat)
    ensures forall i :: 0 <= i < |FixedHex(n, w)| ==> '0' <= FixedHex(n, w)[i] <= '9' || 'a' <= FixedHex(n, w)[i] <= 'f'
  {
    var d, s := Digits(Hexadecimal, n), FixedHex(n, w);
    if |d| < w {
      assert forall i :: 0 <= i < |s| ==> s[i] == if i < w - |d| then '0' else d[i - (w - |d|)];
    }
  }

  lemma GroupDataLength(t: Tree)
    requires TreeOk(t) && t.head.vendor.Some?
    ensures |AsyncData(t)| == 2 * (LengthOf(t) - 8)
  {
    hide FixedHex, Content, LooksLikeAvp, Pow16;
    FixedHexRoundTrip(t.head.vendor.value, 8);
  }

  lemma VendorGroupText(t: Tree)
    requires TreeOk(t) && t.head.vendor.Some? && Inside(t).More?
    ensures var v, c := FixedHex(t.head.vendor.value, 8), FixedHex(t.members.first.head.code, 8);
            && |v| == 8 && |c| == 8 && |AsyncData(t)| >= 16 && AsyncData(t) == v + c + AsyncData(t)[16..]
  {
    hide FixedHex, LooksLikeAvp, Pow16, Zeros, PrintAvp;
    var u := t.members.first;
    MemberIsOk(t);
    FixedHexRoundTrip(t.head.vendor.value, 8);
    PrintAvpFields(u);
    var v, c := FixedHex(t.head.vendor.value, 8), FixedHex(u.head.code, 8);
    var more := Print(t.members.rest);
    assert Content(t) == PrintAvp(u.head, Content(u)) + more;
    hide Content;
    assert Content(t)[..8] == c;
  }

  lemma HeaderInVendorGroup(v: string, c: string, rest: string)
    requires |v| == 8 && |c| == 8 && AllDigits(Hexadecimal, v) && AllDigits(Hexadecimal, c[2..])
    ensures LooksLikeAvp(v + c + rest) <==> c[..2] in KNOWN_FLAGS && |rest| / 2 >= Value(Hexadecimal, c[2..]) - 8
  {
    hide ParseInt, Value;
    var data := v + c + rest;
    assert data[0..8] == v && data[8..10] == c[..2] && data[10..16] == c[2..] && data[16..] == rest;
    ParseIntOfDigits(Hexadecimal, v);
    ParseIntOfDigits(Hexadecimal, c[2..]);
  }

  // ------------------------------------------------------- leaves with a vendor

  /** The four bytes of a vendor's number. */
  function VendorBytes(v: nat): (b: seq<byte>)
    requires v < 0x1_0000_0000
    ensures |b| == 4
  {
    [v / 0x100_0000, v / 0x1_0000 % 256, v / 256 % 256, v % 256]
  }

  lemma BigEndianOfFour(w: byte, x: byte, y: byte, z: byte)
    ensures T.BigEndian([w, x, y, z]) == ((256 * w as nat + x) * 256 + y) * 256 + z
  {
    var b := [w, x, y, z];
    assert b[..3] == [w, x, y] && b[..3][..2] == [w, x] && [w, x][..1] == [w] && [w][..0] == [];
    assert T.BigEndian([w]) == w;
    assert T.BigEndian([w, x]) == 256 * w as nat + x;
  }

  lemma FourDigits(v: nat)
    ensures ((256 * (v / 0x100_0000) + v / 0x1_0000 % 256) * 256 + v / 256 % 256) * 256 + v % 256 == v
  {
    assert v / 256 / 256 == v / 0x1_0000 && v / 0x1_0000 / 256 == v / 0x100_0000;
  }

  lemma VendorBytesValue(v: nat)
    requires v < 0x1_0000_0000
    ensures T.BigEndian(VendorBytes(v)) == v
  {
    hide T.BigEndian;
    var b := VendorBytes(v);
    BigEndianOfFour(b[0], b[1], b[2], b[3]);
    FourDigits(v);
  }

  lemma {:induction false} SameValueSameText(a: string, b: string)
    requires |a| == |b| && LowerHexText(a) && LowerHexText(b)
    requires HexText(a) && HexText(b) && Value(Hexadecimal, a) == Value(Hexadecimal, b)
    ensures a == b
    decreases |a|
  {
    hide DigitValue, Value, AllDigits;
    if a != "" {
      var n := |a| - 1;
      ValueOfLast(a);
      ValueOfLast(b);
      SameValueSameText(a[..n], b[..n]);
      SameDigit(a[n], b[n]);
      assert a == a[..n] + [a[n]] && b == b[..n] + [b[n]];
    }
  }

  predicate LowerHexText(s: string) {
    forall i :: 0 <= i < |s| ==> '0' <= s[i] <= '9' || 'a' <= s[i] <= 'f'
  }

  lemma SameDigit(c: char, d: char)
    requires ('0' <= c <= '9' || 'a' <= c <= 'f') && ('0' <= d <= '9' || 'a' <= d <= 'f')
    requires DigitValue(Hexadecimal, c) == DigitValue(Hexadecimal, d)
    ensures c == d
  {
  }

  lemma {:induction false} HexIsLower(bs: seq<byte>)
    ensures LowerHexText(T.Hex(bs))
  {
    if bs != [] {
      HexIsLower(bs[..|bs| - 1]);
    }
  }

  /** A vendor's field is the text of its bytes. */
  lemma VendorField(v: nat)
    requires v < 0x1_0000_0000
    ensures FixedHex(v, 8) == T.Hex(VendorBytes(v))
  {
    hide FixedHex, T.Hex, Value, VendorBytes, Pow16, T.BigEndian;
    EightDigits();
    FieldValue(v, 8);
    LowerHex(v, 8);
    VendorBytesValue(v);
    T.HexValue(VendorBytes(v));
    HexIsLower(VendorBytes(v));
    SameValueSameText(FixedHex(v, 8), T.Hex(VendorBytes(v)));
  }

  lemma EightDigits()
    ensures Pow16(8) == 0x1_0000_0000
  {
    assert Pow16(4) == 0x1_0000;
  }

  /** When this decoder takes a leaf with a vendor for a group: when the vendor's bytes and the
      payload together pass for one, which its vendor field does for a code. */
  lemma VendorLeafLooks(t: Tree, payload: seq<byte>)
    requires TreeOk(t) && t.Leaf? && t.head.vendor.Some? && t.payload == T.Hex(payload)
    ensures t.head.vendor.value < 0x1_0000_0000
    ensures LooksLikeAvp(AsyncData(t)) <==> T.TakenForGroup(VendorBytes(t.head.vendor.value) + payload)
  {
    hide FixedHex, T.Hex, LooksLikeAvp, VendorBytes, T.TakenForGroup;
    EightDigits();
    hide Pow16;
    var v := t.head.vendor.value;
    VendorField(v);
    T.HexConcat(VendorBytes(v), payload);
    T.GuessOnBytes(VendorBytes(v) + payload);
    assert AsyncData(t) == T.Hex(VendorBytes(v)) + T.Hex(payload);
  }

  /** The number in a four-byte payload: with a zero first byte, those up to eight are taken for a
      group. */
  lemma VendorNumberLooks(t: Tree, n: nat)
    requires TreeOk(t) && t.Leaf? && t.head.vendor.Some? && n < 0x1_0000_0000 && t.payload == FixedHex(n, 8)
    ensures LooksLikeAvp(AsyncData(t)) <==> n / 0x100_0000 in {0x80, 0x40, 0x20, 0x00, 0xc0} && n % 0x100_0000 <= 8
  {
    hide ParseInt, FixedHex, LooksLikeAvp, Value, Digits;
    EightDigits();
    SixDigits();
    hide Pow16;
    FieldValue(t.head.vendor.value, 8);
    FieldValue(n, 8);
    var v, c := FixedHex(t.head.vendor.value, 8), FixedHex(n, 8);
    LowerHex(n, 8);
    ValueSplits(c, 2);
    FlagsByValue(c[..2]);
    Quotients(Value(Hexadecimal, c[..2]), Value(Hexadecimal, c[2..]));
    HeaderInVendorGroup(v, c, "");
    assert AsyncData(t) == v + c + "" by { assert v + c + "" == v + c; }
  }

  // ------------------------------------------------------------ AVPs that never end

  /** A text that looks like an AVP of length zero: known flags and three zero bytes behind the
      code, which is not that of a Vendor-Id. */
  predicate Stuck(data: string) {
    LooksLikeAvp(data) && ReadAsync(data).Some? && ReadAsync(data).value.length == 0
  }

  /** The inner loop never gets past it: it uses up the failsafe. */
  lemma {:induction false} StuckForever(data: string, counter: nat)
    requires Stuck(data) && counter <= FAILSAFE_LIMIT
    ensures !InnerSpec(data, counter).raised && InnerSpec(data, counter).failsafe == FAILSAFE_LIMIT + 1
    decreases FAILSAFE_LIMIT - counter
  {
    hide LooksLikeAvp, ReadAsync;
    if counter < FAILSAFE_LIMIT {
      assert From(data, 0) == data;
      StuckForever(data, counter + 1);
    }
  }

  /** Whatever comes behind such an AVP, the second decoder does not read it. */
  lemma {:induction false} NothingBehindStuck(f: Forest, counter: nat, p: nat)
    requires Drop(f, p).More? && Stuck(AsyncData(Drop(f, p).first))
    ensures SecondReads(f, counter) <= p + 1
    decreases f, FAILSAFE_LIMIT + 1 - counter
  {
    hide Stuck, InnerSpec, AsyncData, Print;
    if f.More? && |Print(f)| > 16 && counter < FAILSAFE_LIMIT {
      var r := InnerSpec(AsyncData(f.first), counter + 1);
      if p == 0 {
        StuckForever(AsyncData(f.first), counter + 1);
        assert SecondReads(f.rest, FAILSAFE_LIMIT + 1) == 0;
      } else if r.raised {
        NothingBehindStuck(f, r.failsafe, p);
      } else {
        NothingBehindStuck(f.rest, r.failsafe, p - 1);
      }
    }
  }

  /** A leaf with a vendor whose payload begins with known flags and three zero bytes is one. */
  lemma VendorLeafStuck(t: Tree)
    requires TreeOk(t) && t.Leaf? && t.head.vendor.Some? && t.head.vendor.value != VENDOR_ID
    requires |t.payload| >= 8 && t.payload[..2] in KNOWN_FLAGS && t.payload[2..8] == Zeros(6)
    ensures Stuck(AsyncData(t))
  {
    hide ParseInt, FixedHex, Pow16, KNOWN_FLAGS, Zeros;
    var v := t.head.vendor.value;
    FixedHexRoundTrip(v, 8);
    ZeroParses();
    var data := AsyncData(t);
    assert data == FixedHex(v, 8) + t.payload;
    assert Slice(data, 0, 8) == data[0..8] == FixedHex(v, 8);
    assert Slice(data, 8, 10) == data[8..10] == t.payload[..2];
    assert Slice(data, 10, 16) == data[10..16] == t.payload[2..8];
  }

  lemma ZeroParses()
    ensures ParseInt(Hexadecimal, Zeros(6)) == Some(0)
  {
    ZeroField(6);
    assert Pow16(6) > 0;
    FixedHexRoundTrip(0, 6);
  }

  /** So a code that only occurs behind such an AVP is found by the answers and not by the peer
      validation, which then discards the message. */
  lemma OriginHostLostBehindStuck(f: Forest, code: int, p: nat)
    requires AllReadable(f) && UsedPlainly(f, code)
    requires Drop(f, p).More? && Stuck(AsyncData(Drop(f, p).first))
    requires forall q: nat :: q <= p && Drop(f, q).More? ==> Drop(f, q).first.head.code != code
    ensures AsyncLookup(AsyncSpec(Print(f), 0), code) == []
  {
    hide AllReadable, UsedPlainly, AsyncSpec, Print, AsyncLookup, PayloadsIn, SecondReads, Stuck, AsyncData;
    SecondFinds(f, 0, code);
    NothingBehindStuck(f, 0, p);
    NoPayloads(f, code, SecondReads(f, 0));
  }

  /** A capability AVP (E-SRVCC-Capability, 1615) of value zero and an Origin-Host behind it. */
  function ZeroBefore(host: string): Forest {
    More(Leaf(Header(1615, "80", Some(10415)), Zeros(8)), More(Leaf(Header(264, "40", None), host), Empty))
  }

  lemma OriginHostLost(host: string)
    requires host != "" && |host| % 2 == 0 && 8 + |host| / 2 < Pow16(6) && !LooksLikeAvp(host)
    ensures var f := ZeroBefore(host);
            && ForestOk(f) && AllReadable(f) && UsedPlainly(f, 264)
            && Lookup(Decode(Print(f)), 264) == [Text(host)]
            && AsyncLookup(AsyncSpec(Print(f), 0), 264) == []
  {
    hide FixedHex, ParseInt, LooksLikeAvp, Zeros, Lookup, AsyncLookup, Print, DecodeSpec, AsyncSpec, Stuck;
    var f := ZeroBefore(host);
    EightDigits();
    SixDigits();
    hide Pow16;
    assert !LooksLikeAvp(Zeros(8)) by { ShortIsNoAvp(Zeros(8)); }
    var t, u := f.first, f.rest.first;
    assert TreeOk(t) && TreeOk(u);
    assert AllReadable(Empty) && ForestOk(Empty) && UsedPlainly(Empty, 264) && NotInside(Empty, 264);
    assert Inside(t) == Empty == Inside(u) && Content(u) == host;
    assert Readable(t) && Readable(u);
    assert ForestOk(f.rest);
    assert AllReadable(f.rest);
    assert UsedPlainly(f.rest, 264);
    assert Drop(f, 0) == f;
    assert t.payload[2..8] == Zeros(6) && t.payload[..2] == "00" by { ZerosSplit(); }
    VendorLeafStuck(t);
    OriginHostLostBehindStuck(f, 264, 0);
    FirstReadsTwo(f);
    FirstFinds(f, 0, 264);
    DecodeStarts(Print(f));
    assert PayloadsIn(f.rest, 264, 1) == [host] + [] == [host];
    assert PayloadsIn(f, 264, 2) == [] + PayloadsIn(f.rest, 264, 1) == [host];
    assert Texts([host]) == [Text(host)];
  }

  lemma ZerosSplit()
    ensures Zeros(8)[2..8] == Zeros(6) && Zeros(8)[..2] == "00"
  {
  }

  lemma FirstReadsTwo(f: Forest)
    requires ForestOk(f) && f.More? && f.first.Leaf? && f.rest.More? && f.rest.first.Leaf? && f.rest.rest.Empty?
    requires LengthOf(f.rest.first) != 8
    ensures FirstReads(f, 0) == 2
  {
    hide TreeOk, Print, LengthOf;
    PrintIsLong(f);
    PrintIsLong(f.rest);
    assert FirstReads(Empty, 2) == 0;
    assert Size(Empty) == 0;
    assert FirstReads(f.rest, 1) == 1;
  }

  // ------------------------------------------------- numbers that cost a little

  /** The inner loop on the end of a vendor's field and a number from one to eight. */
  function NumberSteps(bytes: nat, n: nat): nat
    requires n > 0
  {
    if bytes < 2 then 0
    else if bytes < n then 1
    else 1 + NumberSteps(bytes - n, n)
  }

  /** What is left of the vendor's field, in whole bytes, then the number. */
  lemma NumberReads(x: string, n: nat)
    requires HexText(x) && |x| in {4, 6, 8} && 1 <= n <= 8
    requires |x| == 8 ==> Value(Hexadecimal, x) != VENDOR_ID
    ensures |FixedHex(n, 8)| == 8
    ensures var data := x + FixedHex(n, 8);
            && LooksLikeAvp(data) && ReadAsync(data).Some? && ReadAsync(data).value.length == n
            && if 2 * n <= |x| then From(data, 2 * n) == x[2 * n..] + FixedHex(n, 8) else |From(data, 2 * n)| <= 8
  {
    hide ParseInt, FixedHex, Value, Zeros, AllDigits, From;
    SmallField(n);
    var k := 8 - |x|;
    var d, data := FixedHex(n, 1), x + FixedHex(n, 8);
    var code, length := x + Zeros(k), Zeros(5 - k) + d;
    NumberText(x, d, k);
    PaddedValue(5 - k, d);
    CodeOfNumber(x, k);
    assert data == code + "00" + length + "" by { assert code + "00" + length + "" == code + "00" + length; }
    HeaderReads(code, length, "", n);
    CutNumber(x, FixedHex(n, 8), 2 * n);
  }

  lemma CutNumber(x: string, number: string, k: nat)
    requires |number| == 8
    ensures if k <= |x| then From(x + number, k) == x[k..] + number else |From(x + number, k)| <= 8
  {
  }

  /** A header with flags of zero. */
  lemma HeaderReads(code: string, length: string, rest: string, n: nat)
    requires |code| == 8 && |length| <= 6 && (|length| < 6 ==> rest == "") && n <= 8
    requires ParseInt(Hexadecimal, code).Some? && ParseInt(Hexadecimal, code).value != VENDOR_ID
    requires ParseInt(Hexadecimal, length) == Some(n)
    ensures var data := code + "00" + length + rest;
            LooksLikeAvp(data) && ReadAsync(data).Some? && ReadAsync(data).value.length == n
  {
    hide ParseInt;
    var data := code + "00" + length + rest;
    assert Slice(data, 0, 8) == data[0..8] == code && Slice(data, 8, 10) == data[8..10] == "00";
    assert Slice(data, 10, 16) == length;
  }

  lemma NumberText(x: string, d: string, k: nat)
    requires |x| == 8 - k && k <= 4 && |d| == 1
    ensures x + (Zeros(7) + d) == (x + Zeros(k)) + "00" + (Zeros(5 - k) + d)
  {
  }

  lemma SmallField(n: nat)
    requires n < 16
    ensures FixedHex(n, 8) == Zeros(7) + FixedHex(n, 1) && |FixedHex(n, 1)| == 1
    ensures HexText(FixedHex(n, 1)) && Value(Hexadecimal, FixedHex(n, 1)) == n
  {
    assert Digits(Hexadecimal, n) == [DigitChar(Hexadecimal, n)];
    assert Pow16(1) == 16;
    FieldValue(n, 1);
  }

  /** The code read there is a number, and not that of a Vendor-Id. */
  lemma CodeOfNumber(x: string, k: nat)
    requires HexText(x) && x != "" && k in {0, 2, 4} && (k == 0 ==> Value(Hexadecimal, x) != VENDOR_ID)
    ensures var c := ParseInt(Hexadecimal, x + Zeros(k)); c.Some? && c.value != VENDOR_ID
  {
    hide ParseInt, Value;
    var s := x + Zeros(k);
    ZerosAreDigits(x, k);
    ParseIntOfDigits(Hexadecimal, s);
    ValueSplits(s, |x|);
    assert s[..|x|] == x && s[|x|..] == Zeros(k);
    if k == 0 {
      assert s == x;
    } else {
      ZerosValue(k);
      assert Pow16(2) == 256 && Pow16(4) == 65536;
    }
  }

  lemma ZerosAreDigits(x: string, k: nat)
    requires HexText(x)
    ensures HexText(x + Zeros(k)) && HexText(Zeros(k))
  {
    hide DigitValue;
    assert DigitValue(Hexadecimal, '0') == 0 by { ZeroDigit(); }
  }

  lemma ZeroDigit()
    ensures DigitValue(Hexadecimal, '0') == 0
  {
  }

  lemma ZerosValue(k: nat)
    requires k > 0
    ensures HexText(Zeros(k)) && Value(Hexadecimal, Zeros(k)) == 0
  {
    NoValue();
    ValueOfZeros(Hexadecimal, k, "");
    assert Zeros(k) + "" == Zeros(k);
  }

  /** With one byte of the vendor's field left, or none, the loop stops: the number's last byte is
      no flags byte. */
  lemma NumberStops(x: string, n: nat)
    requires |x| <= 2 && 1 <= n <= 8
    ensures !LooksLikeAvp(x + FixedHex(n, 8))
  {
    hide ParseInt, FixedHex, Value, Zeros;
    SmallField(n);
    var d, data := FixedHex(n, 1), x + FixedHex(n, 8);
    if |x| == 2 {
      assert data == x + (Zeros(7) + d);
      assert Slice(data, 8, 10) == data[8..10] == "0" + d by { LastByte(x, d); }
      FlagsByChar("0" + d);
      OneChar(n);
    } else if |x| == 1 {
      assert |data| == 9;
      assert Slice(data, 8, 10) == data[8..9];
      assert |Slice(data, 8, 10)| == 1;
    } else {
      ShortIsNoAvp(data);
    }
  }

  lemma LastByte(x: string, d: string)
    requires |x| == 2 && |d| == 1
    ensures (x + (Zeros(7) + d))[8..10] == "0" + d
  {
  }

  lemma OneChar(n: nat)
    requires 1 <= n <= 8
    ensures FixedHex(n, 1) != "0"
  {
    assert Digits(Hexadecimal, n) == [DigitChar(Hexadecimal, n)];
  }

  lemma {:induction false} NumberCosts(x: string, n: nat, counter: nat)
    requires HexText(x) && |x| % 2 == 0 && |x| <= 8 && 1 <= n <= 8 && counter + NumberSteps(|x| / 2, n) <= FAILSAFE_LIMIT
    requires |x| == 8 ==> Value(Hexadecimal, x) != VENDOR_ID
    ensures var r := InnerSpec(x + FixedHex(n, 8), counter);
            !r.raised && r.failsafe == counter + NumberSteps(|x| / 2, n)
    decreases |x|
  {
    hide LooksLikeAvp, ReadAsync, FixedHex, Value, AllDigits, From;
    var data := x + FixedHex(n, 8);
    if |x| <= 2 {
      NumberStops(x, n);
    } else {
      NumberReads(x, n);
      if 2 * n <= |x| {
        PartsAreDigits(x, 2 * n);
        NumberCosts(x[2 * n..], n, counter + 1);
      } else {
        ShortIsNoAvp(From(data, 2 * n));
        InnerStops(From(data, 2 * n), counter + 1);
      }
    }
  }

  /** A number from one to eight in a leaf with a vendor, such as ULR-Flags (1405): the inner loop
      takes it apart in at most three turns and goes on. */
  lemma VendorNumberCosts(t: Tree, n: nat)
    requires TreeOk(t) && t.Leaf? && t.head.vendor.Some? && t.head.vendor.value != VENDOR_ID
    requires t.payload == FixedHex(n, 8) && 1 <= n <= 8
    ensures !Trial(t).raised && Trial(t).failsafe == if n == 1 then 3 else if n == 2 then 2 else 1
  {
    hide FixedHex, InnerSpec, LooksLikeAvp;
    var v := FixedHex(t.head.vendor.value, 8);
    FieldValue(t.head.vendor.value, 8);
    NumberStepsAre(n);
    NumberCosts(v, n, 0);
    assert AsyncData(t) == v + FixedHex(n, 8);
  }

  lemma NumberStepsAre(n: nat)
    requires 1 <= n <= 8
    ensures NumberSteps(4, n) == if n == 1 then 3 else if n == 2 then 2 else 1
  {
    assert NumberSteps(1, n) == 0;
    assert NumberSteps(0, n) == 0;
    assert n == 1 ==> NumberSteps(2, n) == 1 && NumberSteps(3, n) == 2;
    assert n == 2 ==> NumberSteps(2, n) == 1;
  }

  // ------------------------------------------------------- an AVP cut in time

  /** A leaf with a vendor that is read as one AVP and then a Vendor-Id without its number. */
  function RaisingLeaf(): Tree {
    Leaf(Header(1615, "c0", Some(10415)), "00" + FixedHex(8, 6) + FixedHex(VENDOR_ID, 8) + "40" + FixedHex(8, 6))
  }

  /** Alone in a packet it comes out alike, although it is not seen alike: each try costs three,
      and the last one finds one turn left. */
  lemma RaisingLeafIsCutInTime()
    ensures var f := More(RaisingLeaf(), Empty);
            && Comparable(f) && !AllSeenAlike(f)
            && SameList(Decode(Print(f)), AsyncSpec(Print(f), 0))
  {
    hide FixedHex, ParseInt, LooksLikeAvp, SameList, DecodeSpec, AsyncSpec, Print, InnerSpec, ReadAsync;
    var t := RaisingLeaf();
    var f := More(t, Empty);
    RaisingLeafReads();
    assert Comparable(Empty) && ComeOutAlike(Empty, 1);
    assert Inside(t).Empty?;
    assert HitsExactly(99, 3);
    assert Size(f) == 1 by { assert Size(Empty) == 0; }
    PrintNothing();
    assert ComeOutAlike(f, 0);
    DecodersAgreeExactly(f);
  }

  lemma RaisingLeafReads()
    ensures var t := RaisingLeaf();
            && Readable(t) && LooksLikeAvp(AsyncData(t)) && Trial(t).raised && Trial(t).failsafe == 2
  {
    hide FixedHex, ParseInt, LooksLikeAvp, ReadAsync;
    var t := RaisingLeaf();
    EightDigits();
    SixDigits();
    hide Pow16;
    FixedHexRoundTrip(8, 6);
    FixedHexRoundTrip(VENDOR_ID, 8);
    FixedHexRoundTrip(10415, 8);
    var v, eight, id := FixedHex(10415, 8), FixedHex(8, 6), FixedHex(VENDOR_ID, 8);
    var last := id + "40" + eight;
    assert AsyncData(t) == v + "00" + eight + last by {
      assert v + ("00" + eight + id + "40" + eight) == v + "00" + eight + last;
    }
    HeaderReads(v, eight, last, 8);
    NumberlessRaises(id, eight);
    RaisingPayload();
    assert TreeOk(t) by { hide LengthOf; RaisingFields(); }
    assert From(v + "00" + eight + last, 16) == last;
    hide From;
    assert InnerSpec(last, 1).raised && InnerSpec(last, 1).failsafe == 2;
  }

  lemma RaisingFields()
    ensures FieldsOk(RaisingLeaf())
  {
    hide FixedHex;
    EightDigits();
    SixDigits();
    hide Pow16;
    FixedHexRoundTrip(8, 6);
    FixedHexRoundTrip(VENDOR_ID, 8);
  }

  lemma NumberlessRaises(id: string, eight: string)
    requires |id| == 8 && |eight| == 6
    requires ParseInt(Hexadecimal, id) == Some(VENDOR_ID) && ParseInt(Hexadecimal, eight) == Some(8)
    ensures var last := id + "40" + eight; LooksLikeAvp(last) && ReadAsync(last).None?
  {
    hide ParseInt;
    var last := id + "40" + eight;
    assert last[0..8] == id && last[8..10] == "40" && last[10..16] == eight;
    assert Slice(last, 16, 24) == "" && From(last, 16) == "";
    EmptyRaises();
  }

  lemma EmptyRaises()
    ensures ParseInt(Hexadecimal, "").None?
  {
  }

  /** Its payload alone is no AVP: the length there would be 266. */
  lemma RaisingPayload()
    ensures !LooksLikeAvp(RaisingLeaf().payload)
  {
    hide FixedHex, ParseInt, Value, LooksLikeAvp, AllDigits;
    EightDigits();
    SixDigits();
    hide Pow16;
    FieldValue(VENDOR_ID, 8);
    FixedHexRoundTrip(8, 6);
    var x, c, rest := "00" + FixedHex(8, 6), FixedHex(VENDOR_ID, 8), "40" + FixedHex(8, 6);
    ValueSplits(c, 2);
    Quotients(Value(Hexadecimal, c[..2]), Value(Hexadecimal, c[2..]));
    assert HexText(x) by { BehindZeros(FixedHex(8, 6)); }
    HeaderInVendorGroup(x, c, rest);
    assert RaisingLeaf().payload == x + c + rest;
  }

  lemma BehindZeros(s: string)
    requires HexText(s)
    ensures HexText("00" + s)
  {
    hide DigitValue;
    ZeroDigit();
  }
}

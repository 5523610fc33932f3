/**
  Whole Diameter messages: `generate_diameter_packet`, and
  `split_diameter_message`, which frames the messages of one received packet.
 */
module Framing {
  import opened PyText

  /** `packet_length = int(round(len(packet_hex)) / 2)` goes into a six-digit field. */
  function GeneratePacket(version: string, flags: string, command: nat, application: nat,
                          hopByHop: string, endToEnd: string, avps: string): string
  {
    var tail := flags + FixedHex(command, 6) + FixedHex(application, 8) + hopByHop + endToEnd + avps;
    var length := (|version| + 6 + |tail|) / 2;
    version + FixedHex(length, 6) + tail
  }

  const SPLIT_LIMIT := 51

  /** What the loop parses of a header, only for the error it may raise. */
  predicate HeaderParses(header: string) {
    && ParseInt(Hexadecimal, Slice(header, 2, 8)).Some?
    && ParseInt(Hexadecimal, Slice(header, 10, 16)).Some?
    && ParseInt(Hexadecimal, Slice(header, 16, 24)).Some?
  }

  /** The declared length of the message, in characters. */
  function DeclaredChars(header: string): int
    requires HeaderParses(header)
  {
    ParseInt(Hexadecimal, Slice(header, 2, 8)).value * 2
  }

  ghost function SplitSpec(data: string, index: int, failsafe: nat): seq<string>
    requires failsafe <= SPLIT_LIMIT
    decreases SPLIT_LIMIT - failsafe
  {
    if failsafe == SPLIT_LIMIT || |From(data, index)| < 40 then []
    else
      var header := Slice(data, index, index + 40);
      if !HeaderParses(header) then []
      else
        var chars := DeclaredChars(header);
        [Slice(data, index, index + chars)] + SplitSpec(data, index + chars, failsafe + 1)
  }

  ghost function Then(messages: seq<string>, rest: seq<string>): seq<string> {
    messages + rest
  }

  lemma ThenNext(messages: seq<string>, message: string, rest: seq<string>)
    ensures Then(messages, [message] + rest) == Then(messages + [message], rest)
    ensures Then(messages, []) == messages && Then([], rest) == rest
  {
  }

  method SplitDiameterMessage(data: string) returns (messages: seq<string>)
    ensures messages == SplitSpec(data, 0, 0)
    ensures |messages| <= 51
  {
    hide HeaderParses, DeclaredChars, Slice, From, Then;
    messages := [];
    var index, failsafe := 0, 0;
    ThenNext([], "", SplitSpec(data, 0, 0));
    var complete := false;
    while !complete
      invariant !complete && 0 <= failsafe <= SPLIT_LIMIT && |messages| == failsafe
      invariant SplitSpec(data, 0, 0) == Then(messages, SplitSpec(data, index, failsafe))
      decreases SPLIT_LIMIT - failsafe
    {
      ThenNext(messages, "", []);
      if failsafe > 50 {
        complete := true;
        break;
      }
      if |From(data, index)| < 40 {
        complete := true;
        break;
      }
      var header := Slice(data, index, index + 40);
      if !HeaderParses(header) {
        return;
      }
      var chars := DeclaredChars(header);
      var message := Slice(data, index, index + chars);
      ThenNext(messages, message, SplitSpec(data, index + chars, failsafe + 1));
      messages := messages + [message];
      index := index + chars;
      failsafe := failsafe + 1;
    }
  }

  /** One turn of the loop on a header that parses. */
  lemma SplitStep(data: string, index: nat, failsafe: nat, length: nat)
    requires failsafe < SPLIT_LIMIT && index + 40 <= |data|
    requires HeaderParses(data[index..index + 40])
    requires ParseInt(Hexadecimal, data[index..index + 40][2..8]) == Some(length)
    ensures var next := index + length * 2;
            SplitSpec(data, index, failsafe) ==
            [if next <= |data| then data[index..next] else data[index..]] + SplitSpec(data, next, failsafe + 1)
  {
    hide ParseInt, HeaderParses;
    var header := Slice(data, index, index + 40);
    assert header == data[index..index + 40];
    assert Slice(header, 2, 8) == header[2..8];
    assert |From(data, index)| >= 40;
    var next := index + length * 2;
    assert Slice(data, index, next) == if next <= |data| then data[index..next] else data[index..];
  }

  // ---------------------------------------------------------- conservation

  function Concat(messages: seq<string>): string {
    if messages == [] then "" else messages[0] + Concat(messages[1..])
  }

  /** The length, the command code or the application id of the header at k is no number. */
  predicate HeaderFails(data: string, k: nat)
    requires k + 40 <= |data|
  {
    || ParseInt(Hexadecimal, data[k + 2..k + 8]).None?
    || ParseInt(Hexadecimal, data[k + 10..k + 16]).None?
    || ParseInt(Hexadecimal, data[k + 16..k + 24]).None?
  }

  lemma HeaderFailsMeans(data: string, k: nat)
    requires k + 40 <= |data|
    ensures HeaderFails(data, k) <==> !HeaderParses(data[k..k + 40])
  {
    hide ParseInt;
    var header := data[k..k + 40];
    PartOfPart(data, k, 40, 2, 8);
    PartOfPart(data, k, 40, 10, 16);
    PartOfPart(data, k, 40, 16, 24);
    assert Slice(header, 2, 8) == header[2..8] && Slice(header, 10, 16) == header[10..16] && Slice(header, 16, 24) == header[16..24];
  }

  lemma PartOfPart(s: string, k: nat, n: nat, i: nat, j: nat)
    requires k + n <= |s| && i <= j <= n
    ensures s[k..k + n][i..j] == s[k + i..k + j]
  {
    var a, b := s[k..k + n][i..j], s[k + i..k + j];
    assert |a| == |b| && forall m :: 0 <= m < |a| ==> a[m] == s[k + (i + m)] == b[m];
  }

  /** On any text without a minus sign, the messages laid end to end are the front of it: nothing
      is lost, repeated or reordered.  Splitting only stops short of the end with less than a
      header left, after fifty-one messages or at a header that is no number, of which the
      hexadecimal text of received bytes has none. */
  lemma {:induction false} SplitConserves(data: string, index: nat, failsafe: nat)
    requires '-' !in data && failsafe <= SPLIT_LIMIT && index <= |data|
    ensures var m := SplitSpec(data, index, failsafe);
            var k := index + |Concat(m)|;
            && k <= |data| && Concat(m) == data[index..k]
            && (|m| == 51 - failsafe || |data| - k < 40 || (HeaderFails(data, k) && !HexText(data)))
    decreases SPLIT_LIMIT - failsafe
  {
    hide ParseInt, HeaderParses, SplitSpec, Concat, AllDigits;
    if failsafe == SPLIT_LIMIT || index + 40 > |data| {
      SplitEnds(data, index, failsafe);
    } else if !HeaderParses(data[index..index + 40]) {
      HeaderFailsMeans(data, index);
      SplitStops(data, index, failsafe);
    } else {
      var header := data[index..index + 40];
      var length := LengthOfHeader(header);
      SplitStep(data, index, failsafe, length);
      var next := index + length * 2;
      var rest := SplitSpec(data, next, failsafe + 1);
      if next <= |data| {
        ConcatFirst(data[index..next], rest);
        SplitConserves(data, next, failsafe + 1);
        var k := next + |Concat(rest)|;
        assert data[index..next] + data[next..k] == data[index..k];
      } else {
        SplitEnds(data, next, failsafe + 1);
        ConcatFirst(data[index..], []);
        assert data[index..] + "" == data[index..|data|];
      }
    }
  }

  lemma SplitStops(data: string, index: nat, failsafe: nat)
    requires failsafe < SPLIT_LIMIT && index + 40 <= |data| && !HeaderParses(data[index..index + 40])
    ensures SplitSpec(data, index, failsafe) == [] && Concat([]) == "" && !HexText(data)
  {
    hide ParseInt, HeaderParses;
    assert Slice(data, index, index + 40) == data[index..index + 40];
    if HexText(data) {
      HeaderOfHexText(data[index..index + 40]);
    }
  }

  lemma LengthOfHeader(header: string) returns (length: nat)
    requires HeaderParses(header) && |header| == 40 && '-' !in header
    ensures ParseInt(Hexadecimal, header[2..8]) == Some(length)
  {
    hide ParseInt;
    assert Slice(header, 2, 8) == header[2..8];
    NoMinusNotNegative(Hexadecimal, header[2..8]);
    length := ParseInt(Hexadecimal, header[2..8]).value;
  }

  lemma {:induction false} StripLeftKeeps(s: string)
    ensures forall c :: c in StripLeft(s) ==> c in s
  {
    if s != [] && IsSpace(s[0]) {
      StripLeftKeeps(s[1..]);
    }
  }

  lemma {:induction false} StripRightKeeps(s: string)
    ensures forall c :: c in StripRight(s) ==> c in s
  {
    if s != [] && IsSpace(s[|s| - 1]) {
      StripRightKeeps(s[..|s| - 1]);
    }
  }

  lemma NoMinusNotNegative(b: Base, text: string)
    requires '-' !in text
    ensures ParseInt(b, text).Some? ==> ParseInt(b, text).value >= 0
  {
    hide ParseDigits, StripLeft, StripRight;
    StripLeftKeeps(text);
    StripRightKeeps(StripLeft(text));
    var s := StripRight(StripLeft(text));
    assert s != [] ==> s[0] in s;
  }

  /** With a minus sign it fails: a header that declares minus the length of the message before it
      sends the loop back, and it delivers that message again. */
  lemma NegativeLengthRepeats(message: string, n: nat, header: string)
    requires |message| == 2 * n >= 40 && |header| == 40
    requires HeaderParses(message[..40]) && ParseInt(Hexadecimal, message[2..8]) == Some(n)
    requires HeaderParses(header) && var m: int := n; ParseInt(Hexadecimal, header[2..8]) == Some(-m)
    ensures !(Concat(SplitSpec(message + header, 0, 0)) <= message + header)
  {
    hide ParseInt, HeaderParses, SplitSpec, Concat, Slice;
    var data := message + header;
    TwoHeaders(message, header);
    var m: int := n;
    SplitStepAny(data, 0, 0, n);
    SplitStepAny(data, 2 * n, 1, -m);
    SplitStepAny(data, 0, 2, n);
    var rest := SplitSpec(data, 2 * n, 3);
    ConcatFirst(message, [""] + ([message] + rest));
    ConcatFirst("", [message] + rest);
    ConcatFirst(message, rest);
    LengthsDiffer(message, header);
    NotFront(message, header, Concat(rest));
  }

  lemma LengthsDiffer(message: string, header: string)
    requires |message| >= 40 && |header| == 40 && message[2..8] != header[2..8]
    ensures message[..40] != header
  {
    PartOfPart(message, 0, 40, 2, 8);
    assert message[0..40] == message[..40];
  }

  lemma TwoHeaders(message: string, header: string)
    requires |message| >= 40 && |header| == 40
    ensures message[..40][2..8] == message[2..8]
    ensures var data, k := message + header, |message|;
            && data[0..40] == message[..40] && data[k..k + 40] == header
            && Slice(data, 0, k) == message && Slice(data, k, 0) == ""
  {
  }

  lemma NotFront(message: string, header: string, rest: string)
    requires |message| >= 40 && |header| == 40 && message[..40] != header
    ensures !(message + ("" + (message + rest)) <= message + header)
  {
    var all, data, k := message + ("" + (message + rest)), message + header, |message|;
    assert all[k..k + 40] == message[..40] && data[k..k + 40] == header;
  }

  lemma SplitStepAny(data: string, index: nat, failsafe: nat, length: int)
    requires failsafe < SPLIT_LIMIT && index + 40 <= |data|
    requires HeaderParses(data[index..index + 40])
    requires ParseInt(Hexadecimal, data[index..index + 40][2..8]) == Some(length)
    ensures var next := index + length * 2;
            SplitSpec(data, index, failsafe) == [Slice(data, index, next)] + SplitSpec(data, next, failsafe + 1)
  {
    hide ParseInt, HeaderParses;
    var header := Slice(data, index, index + 40);
    assert header == data[index..index + 40];
    assert Slice(header, 2, 8) == header[2..8];
    assert |From(data, index)| >= 40;
  }

  /** There are such headers. */
  lemma NegativeLengthExists() returns (message: string, header: string)
    ensures |message| == 40 && HeaderParses(message) && ParseInt(Hexadecimal, message[2..8]) == Some(20)
    ensures |header| == 40 && HeaderParses(header) && ParseInt(Hexadecimal, header[2..8]) == Some(-20)
    ensures !(Concat(SplitSpec(message + header, 0, 0)) <= message + header)
  {
    hide ParseInt, Slice, Zeros, FixedHex, HeaderParses, SplitSpec, Concat, Value;
    assert Pow16(6) >= 20 && Pow16(5) > 20;
    FixedHexRoundTrip(20, 6);
    FixedHexRoundTrip(20, 5);
    ParseIntOfDigits(Hexadecimal, FixedHex(20, 5));
    SignedDigits(Hexadecimal, FixedHex(20, 5));
    message := "01" + FixedHex(20, 6) + Zeros(32);
    header := "01" + ("-" + FixedHex(20, 5)) + Zeros(32);
    LengthInHeader(FixedHex(20, 6));
    LengthInHeader("-" + FixedHex(20, 5));
    assert message[..40] == message;
    NegativeLengthRepeats(message, 20, header);
  }

  lemma LengthInHeader(length: string)
    requires |length| == 6 && ParseInt(Hexadecimal, length).Some?
    ensures var h := "01" + length + Zeros(32); h[2..8] == length && HeaderParses(h)
  {
    hide ParseInt;
    var h := "01" + length + Zeros(32);
    assert Slice(h, 2, 8) == h[2..8] == length;
    assert Slice(h, 10, 16) == Zeros(6) && Slice(h, 16, 24) == Zeros(8);
    ParseIntOfDigits(Hexadecimal, Zeros(6));
    ParseIntOfDigits(Hexadecimal, Zeros(8));
  }

  lemma SplitEnds(data: string, index: nat, failsafe: nat)
    requires failsafe <= SPLIT_LIMIT && (failsafe == SPLIT_LIMIT || index + 40 > |data|)
    ensures SplitSpec(data, index, failsafe) == []
    ensures Concat([]) == ""
  {
  }

  lemma ConcatFirst(first: string, rest: seq<string>)
    ensures Concat([first] + rest) == first + Concat(rest)
  {
    assert ([first] + rest)[1..] == rest;
  }

  lemma HeaderOfHexText(header: string)
    requires HexText(header) && |header| == 40
    ensures HeaderParses(header)
    ensures var length := ParseInt(Hexadecimal, header[2..8]); length.Some? && length.value >= 0
  {
    hide ParseInt, Value;
    ParseIntOfDigits(Hexadecimal, header[2..8]);
    ParseIntOfDigits(Hexadecimal, header[10..16]);
    ParseIntOfDigits(Hexadecimal, header[16..24]);
  }

  // ---------------------------------------------------------- round trip

  datatype Packet = Packet(version: string, flags: string, command: nat, application: nat,
                           hopByHop: string, endToEnd: string, avps: string)

  /** Fields of their fixed widths, whole bytes, and a length its field can hold. */
  predicate PacketOk(p: Packet) {
    && |p.version| == 2 && |p.flags| == 2 && |p.hopByHop| == 8 && |p.endToEnd| == 8
    && p.command < Pow16(6) && p.application < Pow16(8)
    && |p.avps| % 2 == 0 && 20 + |p.avps| / 2 < Pow16(6)
  }

  function PrintPacket(p: Packet): string {
    GeneratePacket(p.version, p.flags, p.command, p.application, p.hopByHop, p.endToEnd, p.avps)
  }

  function PrintPackets(ps: seq<Packet>): seq<string> {
    if ps == [] then [] else [PrintPacket(ps[0])] + PrintPackets(ps[1..])
  }

  lemma PrintedHeader(p: Packet)
    requires PacketOk(p)
    ensures |PrintPacket(p)| == 40 + |p.avps| == 2 * (20 + |p.avps| / 2)
    ensures var header := PrintPacket(p)[..40];
            && HeaderParses(header)
            && ParseInt(Hexadecimal, header[2..8]) == Some(20 + |p.avps| / 2)
  {
    hide ParseInt, FixedHex, Pow16;
    var length := 20 + |p.avps| / 2;
    FixedHexRoundTrip(length, 6);
    FixedHexRoundTrip(p.command, 6);
    FixedHexRoundTrip(p.application, 8);
    FieldsLie(p.version, FixedHex(length, 6), p.flags, FixedHex(p.command, 6), FixedHex(p.application, 8), p.hopByHop + p.endToEnd, p.avps);
    var tail := p.flags + FixedHex(p.command, 6) + FixedHex(p.application, 8) + p.hopByHop + p.endToEnd + p.avps;
    assert (|p.version| + 6 + |tail|) / 2 == length;
    assert PrintPacket(p) == p.version + FixedHex(length, 6) + tail;
    assert PrintPacket(p) == p.version + FixedHex(length, 6) + p.flags + FixedHex(p.command, 6) + FixedHex(p.application, 8)
                             + (p.hopByHop + p.endToEnd) + p.avps;
  }

  /** Where the fields of a printed message stand, in characters. */
  lemma PrintedLayout(p: Packet)
    requires PacketOk(p)
    ensures var s := PrintPacket(p);
            && |s| == 40 + |p.avps|
            && s[..2] == p.version && ParseInt(Hexadecimal, s[2..8]) == Some(20 + |p.avps| / 2)
            && s[8..10] == p.flags && ParseInt(Hexadecimal, s[10..16]) == Some(p.command)
            && ParseInt(Hexadecimal, s[16..24]) == Some(p.application)
            && s[24..32] == p.hopByHop && s[32..40] == p.endToEnd && s[40..] == p.avps
  {
    hide ParseInt, FixedHex, Pow16;
    var length := 20 + |p.avps| / 2;
    FixedHexRoundTrip(length, 6);
    FixedHexRoundTrip(p.command, 6);
    FixedHexRoundTrip(p.application, 8);
    PrintedHeader(p);
    FieldsStand(p.version, FixedHex(length, 6), p.flags, FixedHex(p.command, 6), FixedHex(p.application, 8), p.hopByHop, p.endToEnd, p.avps);
    assert (2 + 6 + (2 + 6 + 8 + 8 + 8 + |p.avps|)) / 2 == length;
  }

  lemma FieldsStand(version: string, length: string, flags: string, command: string, application: string, hop: string, end: string, avps: string)
    requires |version| == 2 && |length| == 6 && |flags| == 2 && |command| == 6 && |application| == 8 && |hop| == 8 && |end| == 8
    ensures var p := version + length + (flags + command + application + hop + end + avps);
            && |p| == 40 + |avps| && p[..2] == version && p[2..8] == length && p[8..10] == flags && p[10..16] == command
            && p[16..24] == application && p[24..32] == hop && p[32..40] == end && p[40..] == avps
  {
  }

  lemma FieldsLie(version: string, length: string, flags: string, command: string, application: string, ids: string, avps: string)
    requires |version| == 2 && |length| == 6 && |flags| == 2 && |command| == 6 && |application| == 8 && |ids| == 16
    ensures var p := version + length + flags + command + application + ids + avps;
            && |p| == 40 + |avps|
            && p[..40][2..8] == length && p[..40][10..16] == command && p[..40][16..24] == application
  {
  }

  function FirstOf<T>(s: seq<T>, n: nat): seq<T> {
    if |s| <= n then s else s[..n]
  }

  lemma {:induction false} SplitPrintedFrom(front: string, ps: seq<Packet>, failsafe: nat)
    requires failsafe <= SPLIT_LIMIT
    requires forall i :: 0 <= i < |ps| ==> PacketOk(ps[i])
    ensures SplitSpec(front + Concat(PrintPackets(ps)), |front|, failsafe)
         == FirstOf(PrintPackets(ps), SPLIT_LIMIT - failsafe)
    decreases |ps|
  {
    hide ParseInt, PrintPacket, PacketOk, HeaderParses, SplitSpec, Concat;
    var data := front + Concat(PrintPackets(ps));
    if ps == [] || failsafe == SPLIT_LIMIT {
      SplitEnds([], 0, SPLIT_LIMIT);
      SplitEnds(data, |front|, failsafe);
    } else {
      var p, others := PrintPacket(ps[0]), PrintPackets(ps[1..]);
      ConcatFirst(p, others);
      assert data == (front + p) + Concat(others);
      PrintedHeader(ps[0]);
      FrontOf(front, p, Concat(others));
      SplitStep(data, |front|, failsafe, 20 + |ps[0].avps| / 2);
      SplitPrintedFrom(front + p, ps[1..], failsafe + 1);
      FirstOfNext(p, others, SPLIT_LIMIT - failsafe);
    }
  }

  lemma FirstOfNext<T>(x: T, s: seq<T>, n: nat)
    requires n > 0
    ensures FirstOf([x] + s, n) == [x] + FirstOf(s, n - 1)
  {
  }

  lemma FrontOf(front: string, p: string, rest: string)
    requires |p| >= 40
    ensures var data := (front + p) + rest;
            && data[|front|..|front| + 40] == p[..40]
            && data[|front|..|front| + |p|] == p
            && |data| >= |front| + 40
  {
  }

  /** Splitting the concatenation of printed messages gives back the messages, up to the
      fifty-one the loop takes from one packet. */
  lemma SplitInvertsConcat(ps: seq<Packet>)
    requires forall i :: 0 <= i < |ps| ==> PacketOk(ps[i])
    ensures SplitSpec(Concat(PrintPackets(ps)), 0, 0) == FirstOf(PrintPackets(ps), 51)
  {
    hide PrintPackets, PacketOk, SplitSpec;
    SplitPrintedFrom("", ps, 0);
    assert "" + Concat(PrintPackets(ps)) == Concat(PrintPackets(ps));
  }
}

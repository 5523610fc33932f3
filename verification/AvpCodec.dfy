/**
  The Diameter AVP codec of lib/diameter.py: the printer, the test that guesses
  whether a payload is grouped, the iterative decoder and the lookup.
  All data is hexadecimal text, two characters a byte.
 */
module AvpCodec {
  import opened PyText

  // ---------------------------------------------------------------- printer

  function RoundUp4(n: int): (r: int)
    ensures n <= r <= n + 3 && r % 4 == 0
  {
    (n + 3) / 4 * 4
  }

  /** What both printers share: header, optional vendor field, content and the
      padding to a multiple of four bytes, which the length does not count. */
  function PrintFields(code: nat, flags: string, vendor: string, content: string): string {
    var head := FixedHex(code, 8) + flags;
    var length := (|head| + 6 + |vendor| + |content|) / 2;
    head + FixedHex(length, 6) + vendor + content + Zeros((RoundUp4(length) - length) * 2)
  }

  function GenerateAvp(code: nat, flags: string, content: string): string {
    PrintFields(code, flags, "", content)
  }

  function GenerateVendorAvp(code: nat, flags: string, vendorId: nat, content: string): string {
    PrintFields(code, flags, FixedHex(vendorId, 8), content)
  }

  // ---------------------------------------------------------------- records

  datatype SubAvp = SubAvp(code: int, flags: string, length: int, vendor: Option<int>, data: string)

  datatype Avp = Avp(head: SubAvp, subs: seq<SubAvp>)

  const VENDOR_FLAGS := {"c0", "80"}
  const KNOWN_FLAGS := {"80", "40", "20", "00", "c0"}
  const FAILSAFE_LIMIT := 100

  /** `validateSingleAvp`: does the text look like it starts with an AVP? */
  predicate LooksLikeAvp(data: string) {
    var code := ParseInt(Hexadecimal, Slice(data, 0, 8));
    var length := ParseInt(Hexadecimal, Slice(data, 10, 16));
    && code.Some? && length.Some?
    && Slice(data, 8, 10) in KNOWN_FLAGS
    && |From(data, 16)| / 2 >= length.value - 8
  }

  /** The fields at the front of `data`; None when an `int()` in there raises. */
  function ReadAvp(data: string): (r: Option<SubAvp>)
    ensures LooksLikeAvp(data) && Slice(data, 8, 10) !in VENDOR_FLAGS ==> r.Some?
  {
    var code :- ParseInt(Hexadecimal, Slice(data, 0, 8));
    var flags := Slice(data, 8, 10);
    var length :- ParseInt(Hexadecimal, Slice(data, 10, 16));
    if flags in VENDOR_FLAGS then
      var vendor :- ParseInt(Hexadecimal, Slice(data, 16, 24));
      Some(SubAvp(code, flags, length, Some(vendor), Slice(data, 24, length * 2)))
    else
      Some(SubAvp(code, flags, length, None, Slice(data, 16, length * 2)))
  }

  /** The text after an AVP of the given length and its padding. */
  function After(data: string, length: int): string {
    From(data, length * 2 + (RoundUp4(length) - length) * 2)
  }

  /** A payload that will be unpacked is blanked in the record that held it. */
  function Blanked(a: SubAvp): SubAvp {
    if LooksLikeAvp(a.data) then a.(data := "") else a
  }

  /** The unprocessed stack after `a` has been taken off the front of `data`:
      its own contents first, what follows it on top. */
  function PushBoth(stack: seq<string>, a: SubAvp, data: string): (s: seq<string>)
  {
    var withContents := if LooksLikeAvp(a.data) then stack + [a.data] else stack;
    var rest := After(data, a.length);
    if LooksLikeAvp(rest) then withContents + [rest] else withContents
  }

  // ------------------------------------------- what the loops compute

  /** How the inner loop ends. */
  datatype Unpacked = Unpacked(subs: seq<SubAvp>, stack: seq<string>, failsafe: nat, raised: bool)

  ghost function UnpackSpec(stack: seq<string>, failsafe: nat): (u: Unpacked)
    requires failsafe <= FAILSAFE_LIMIT
    ensures failsafe <= u.failsafe <= FAILSAFE_LIMIT + 1
    ensures |u.subs| <= u.failsafe - failsafe
    ensures |u.subs| <= FAILSAFE_LIMIT - failsafe
    decreases FAILSAFE_LIMIT - failsafe
  {
    if stack == [] then Unpacked([], [], failsafe, false)
    else if failsafe == FAILSAFE_LIMIT then Unpacked([], stack, failsafe + 1, false)
    else
      var data, below := stack[|stack| - 1], stack[..|stack| - 1];
      var a := ReadAvp(data);
      if a.None? then Unpacked([], below, failsafe + 1, true)
      else
        var u := UnpackSpec(PushBoth(below, a.value, data), failsafe + 1);
        Prepended([Blanked(a.value)], u)
  }

  ghost function Prepended(front: seq<SubAvp>, u: Unpacked): Unpacked {
    u.(subs := front + u.subs)
  }

  lemma PrependedOne(front: seq<SubAvp>, a: SubAvp, u: Unpacked)
    ensures Prepended(front + [a], u) == Prepended(front, Prepended([a], u))
  {
    assert (front + [a]) + u.subs == front + ([a] + u.subs);
  }

  /** One turn of the inner loop. */
  lemma UnpackNext(below: seq<string>, data: string, failsafe: nat)
    requires failsafe <= FAILSAFE_LIMIT
    ensures var a := ReadAvp(data);
            UnpackSpec(below + [data], failsafe)
            == if failsafe == FAILSAFE_LIMIT then Unpacked([], below + [data], failsafe + 1, false)
               else if a.None? then Unpacked([], below, failsafe + 1, true)
               else Prepended([Blanked(a.value)], UnpackSpec(PushBoth(below, a.value, data), failsafe + 1))
    ensures UnpackSpec([], failsafe) == Unpacked([], [], failsafe, false)
  {
    hide ReadAvp, LooksLikeAvp, After;
    assert (below + [data])[..|below|] == below;
  }

  ghost function DecodeSpec(data: string, stack: seq<string>, failsafe: nat): (avps: seq<Avp>)
    requires failsafe <= FAILSAFE_LIMIT + 1
    decreases FAILSAFE_LIMIT + 1 - failsafe
  {
    if |data| <= 16 || failsafe >= FAILSAFE_LIMIT then []
    else
      var a := ReadAvp(data);
      if a.None? then DecodeSpec(data, stack, failsafe + 1)
      else if !LooksLikeAvp(a.value.data) then
        [Avp(a.value, [])] + DecodeSpec(After(data, a.value.length), stack, failsafe + 1)
      else
        var u := UnpackSpec(stack + [a.value.data], failsafe + 1);
        if u.raised then DecodeSpec(data, u.stack, u.failsafe)
        else [Avp(Blanked(a.value), u.subs)] + DecodeSpec(After(data, a.value.length), u.stack, u.failsafe)
  }

  /** The result of decoding a text. */
  ghost function Decode(data: string): seq<Avp> {
    DecodeSpec(data, [], 0)
  }

  function Nodes(avps: seq<Avp>): nat {
    if avps == [] then 0 else 1 + |avps[0].subs| + Nodes(avps[1..])
  }

  // ---------------------------------------------------------------- decoder

  /** The inner loop: takes AVPs off the stack until it is empty, the shared
      failsafe is used up or an `int()` raises. */
  method UnpackSubAvps(start: seq<string>, counter: nat)
    returns (subs: seq<SubAvp>, stack: seq<string>, failsafe: nat, raised: bool)
    requires start != [] && counter <= FAILSAFE_LIMIT
    ensures Unpacked(subs, stack, failsafe, raised) == UnpackSpec(start, counter)
  {
    hide ReadAvp, LooksLikeAvp, After, UnpackSpec;
    stack, failsafe, raised, subs := start, counter, false, [];
    var more := true;
    ghost var total := UnpackSpec(start, counter);
    while more
      invariant counter <= failsafe <= FAILSAFE_LIMIT
      invariant more <==> stack != []
      invariant !raised
      invariant total == Prepended(subs, UnpackSpec(stack, failsafe))
      decreases FAILSAFE_LIMIT - failsafe
    {
      ghost var before := subs;
      ghost var top, under := stack[|stack| - 1], stack[..|stack| - 1];
      assert stack == under + [top];
      UnpackNext(under, top, failsafe);
      failsafe := failsafe + 1;
      if failsafe > FAILSAFE_LIMIT {
        return;
      }
      var data := stack[|stack| - 1];
      stack := stack[..|stack| - 1];
      var read := ReadAvp(data);
      if read.None? {
        raised := true;
        return;
      }
      var sub := read.value;
      var hasContents := LooksLikeAvp(sub.data);
      if hasContents {
        stack := stack + [sub.data];
        sub := sub.(data := "");
      }
      subs := subs + [sub];
      data := After(data, sub.length);
      PrependedOne(before, sub, UnpackSpec(PushBoth(under, read.value, top), failsafe));
      var hasNext := LooksLikeAvp(data);
      if hasNext {
        stack := stack + [data];
      }
      if !hasContents && !hasNext && stack == [] {
        more := false;
      }
    }
    UnpackNext([], "", failsafe);
  }

  /** `decodeAvpPacket` */
  method DecodeAvpPacket(packet: string) returns (avps: seq<Avp>)
    ensures avps == Decode(packet)
  {
    hide ReadAvp, LooksLikeAvp, After, UnpackSpec;
    avps := [];
    if |packet| < 16 {
      return;
    }
    var data, stack, failsafe := packet, [], 0;
    while |data| > 16
      invariant 0 <= failsafe <= FAILSAFE_LIMIT + 1
      invariant Decode(packet) == avps + DecodeSpec(data, stack, failsafe)
      decreases FAILSAFE_LIMIT + 1 - failsafe
    {
      ghost var before, start := avps, stack;
      failsafe := failsafe + 1;
      if failsafe > FAILSAFE_LIMIT {
        break;
      }
      var read := ReadAvp(data);
      if read.None? {
        continue;
      }
      var avp, subs := read.value, [];
      if LooksLikeAvp(avp.data) {
        var raised;
        subs, stack, failsafe, raised := UnpackSubAvps(stack + [avp.data], failsafe);
        avp := avp.(data := "");
        if raised {
          continue;
        }
      }
      avps := avps + [Avp(avp, subs)];
      data := After(data, avp.length);
      assert before + ([Avp(avp, subs)] + DecodeSpec(data, stack, failsafe))
          == avps + DecodeSpec(data, stack, failsafe);
    }
  }

  /** A text whose first header cannot be read is tried again until the failsafe is used up, and
      yields nothing, whatever stands behind. */
  lemma {:induction false} NothingBehindUnreadable(data: string, stack: seq<string>, failsafe: nat)
    requires failsafe <= 101 && ReadAvp(data).None?
    ensures DecodeSpec(data, stack, failsafe) == []
    decreases 101 - failsafe
  {
    hide ReadAvp, LooksLikeAvp, After, UnpackSpec;
    if |data| > 16 && failsafe < 100 {
      NothingBehindUnreadable(data, stack, failsafe + 1);
    }
  }

  /** Decoding any text whatsoever ends, never takes from an empty stack and
      yields at most a hundred records, nested ones included. */
  lemma {:induction false} DecodeSpecBounded(data: string, stack: seq<string>, failsafe: nat)
    requires failsafe <= FAILSAFE_LIMIT + 1
    ensures Nodes(DecodeSpec(data, stack, failsafe)) <= if failsafe <= FAILSAFE_LIMIT then FAILSAFE_LIMIT - failsafe else 0
    decreases FAILSAFE_LIMIT + 1 - failsafe
  {
    hide ReadAvp, LooksLikeAvp, After, UnpackSpec;
    if |data| > 16 && failsafe < FAILSAFE_LIMIT && ReadAvp(data).Some? {
      var a := ReadAvp(data).value;
      var rest := After(data, a.length);
      if !LooksLikeAvp(a.data) {
        DecodeSpecBounded(rest, stack, failsafe + 1);
      } else {
        var u := UnpackSpec(stack + [a.data], failsafe + 1);
        DecodeSpecBounded(if u.raised then data else rest, u.stack, u.failsafe);
      }
    } else if |data| > 16 && failsafe < FAILSAFE_LIMIT {
      DecodeSpecBounded(data, stack, failsafe + 1);
    }
  }

  lemma DecodeBounded(packet: string)
    ensures Nodes(Decode(packet)) <= 100
    ensures |packet| <= 16 ==> Decode(packet) == []
  {
    DecodeSpecBounded(packet, [], 0);
  }
}

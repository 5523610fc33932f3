/**
  When the grouped-payload guess fires: its exact condition on bytes, and why
  text and short payloads are never taken for a group.
 */
module AvpText {
  import opened PyText
  import opened AvpCodec

  /** `bytes.hex()` */
  function Hex(bs: seq<byte>): (s: string)
    ensures |s| == 2 * |bs| && HexText(s)
  {
    if bs == [] then ""
    else Hex(bs[..|bs| - 1]) + [DigitChar(Hexadecimal, (bs[|bs| - 1] / 16)), DigitChar(Hexadecimal, (bs[|bs| - 1] % 16))]
  }

  function BigEndian(bs: seq<byte>): nat {
    if bs == [] then 0 else 256 * BigEndian(bs[..|bs| - 1]) + bs[|bs| - 1]
  }

  lemma {:induction false} HexConcat(a: seq<byte>, b: seq<byte>)
    ensures Hex(a + b) == Hex(a) + Hex(b)
    decreases |b|
  {
    if b == [] {
      assert a + b == a;
    } else {
      var init := b[..|b| - 1];
      assert (a + b)[..|a + b| - 1] == a + init;
      HexConcat(a, init);
    }
  }

  lemma HexSlice(bs: seq<byte>, i: nat, j: nat)
    requires i <= j <= |bs|
    ensures Hex(bs)[2 * i..2 * j] == Hex(bs[i..j])
  {
    hide Hex;
    var a, m, c := bs[..i], bs[i..j], bs[j..];
    ThreeParts(bs, i, j);
    HexConcat(a, m + c);
    HexConcat(m, c);
    Middle(Hex(a), Hex(m), Hex(c));
    assert |Hex(a)| == 2 * i && |Hex(a)| + |Hex(m)| == 2 * j;
  }

  lemma ThreeParts<T>(s: seq<T>, i: nat, j: nat)
    requires i <= j <= |s|
    ensures s[..i] + (s[i..j] + s[j..]) == s
  {
  }

  lemma Middle<T>(a: seq<T>, m: seq<T>, c: seq<T>)
    ensures (a + (m + c))[|a|..|a| + |m|] == m
  {
  }

  lemma {:induction false} HexValue(bs: seq<byte>)
    ensures Value(Hexadecimal, Hex(bs)) == BigEndian(bs)
  {
    if bs != [] {
      var init, last := bs[..|bs| - 1], bs[|bs| - 1];
      HexValue(init);
      var s := Hex(bs);
      var t := s[..|s| - 1];
      assert t[..|t| - 1] == Hex(init);
      assert Value(Hexadecimal, t) == 16 * BigEndian(init) + (last / 16);
    }
  }

  /** `int(hex, 16)` of some bytes: raises on none at all. */
  lemma ParseHex(bs: seq<byte>)
    ensures ParseInt(Hexadecimal, Hex(bs)) == if bs == [] then None else Some(BigEndian(bs))
  {
    if bs != [] {
      HexValue(bs);
      ParseIntOfDigits(Hexadecimal, Hex(bs));
    }
  }

  /** The flags byte of an AVP header, as the validation test knows them. */
  predicate KnownFlagsByte(b: byte) {
    b == 0x80 || b == 0x40 || b == 0x20 || b == 0x00 || b == 0xc0
  }

  lemma FlagsText(b: byte)
    ensures Hex([b]) in KNOWN_FLAGS <==> KnownFlagsByte(b)
  {
    var high, low := DigitChar(Hexadecimal, (b / 16)), DigitChar(Hexadecimal, (b % 16));
    assert [b][..0] == [];
    assert Hex([b]) == [high, low];
    assert DigitValue(Hexadecimal, high) == (b / 16) && DigitValue(Hexadecimal, low) == (b % 16);
  }

  /** The length field the test sees; short payloads leave it short. */
  function LengthBytes(bs: seq<byte>): seq<byte>
    requires |bs| >= 5
  {
    bs[5..if |bs| < 8 then |bs| else 8]
  }

  /** The exact condition under which a payload is taken for a group. */
  predicate TakenForGroup(bs: seq<byte>) {
    && |bs| >= 6 && KnownFlagsByte(bs[4])
    && BigEndian(LengthBytes(bs)) <= if |bs| < 8 then 8 else |bs|
  }

  lemma GuessOnBytes(bs: seq<byte>)
    ensures LooksLikeAvp(Hex(bs)) <==> TakenForGroup(bs)
  {
    hide Hex, BigEndian, ParseInt, KnownFlagsByte;
    var data, n := Hex(bs), |bs|;
    var codeEnd := if n < 4 then n else 4;
    HexSlice(bs, 0, codeEnd);
    assert Slice(data, 0, 8) == Hex(bs[..codeEnd]);
    ParseHex(bs[..codeEnd]);
    if n >= 5 {
      HexSlice(bs, 4, 5);
      assert bs[4..5] == [bs[4]];
      assert Slice(data, 8, 10) == Hex([bs[4]]);
      FlagsText(bs[4]);
      var lengthEnd := if n < 8 then n else 8;
      HexSlice(bs, 5, lengthEnd);
      assert Slice(data, 10, 16) == Hex(LengthBytes(bs));
      ParseHex(LengthBytes(bs));
    } else {
      assert Slice(data, 10, 16) == [];
      ParseHex([]);
      HexSlice(bs, n, n);
      assert bs[n..n] == [] && data[2 * n..2 * n] == [];
    }
  }

  predicate Printable(bs: seq<byte>) {
    forall i :: 0 <= i < |bs| ==> 0x20 <= bs[i] <= 0x7e
  }

  /** Text is taken for a group only if it is millions of bytes long: the
      payloads of at most five bytes, and printable ones that do not reach the
      length their own sixth to eighth byte spell out, never are. */
  lemma TextIsNoGroup(bs: seq<byte>)
    ensures |bs| <= 5 ==> !LooksLikeAvp(Hex(bs))
    ensures Printable(bs) && |bs| < 0x202020 ==> !LooksLikeAvp(Hex(bs))
    ensures Printable(bs) && |bs| >= 0x7e7e7e && (bs[4] == 0x20 || bs[4] == 0x40) ==> LooksLikeAvp(Hex(bs))
  {
    hide Hex, LooksLikeAvp;
    GuessOnBytes(bs);
    if |bs| >= 6 && Printable(bs) {
      var l := LengthBytes(bs);
      var b5: int, b6: int, b7: int := bs[5], if |bs| > 6 then bs[6] else 0, if |bs| > 7 then bs[7] else 0;
      assert l[0] == bs[5];
      if |l| == 1 {
        assert l[..0] == [];
        assert BigEndian(l) == b5;
      } else if |l| == 2 {
        assert l[1] == bs[6] && l[..1][..0] == [];
        assert BigEndian(l[..1]) == b5;
        assert BigEndian(l) == 256 * b5 + b6;
      } else {
        assert l[1] == bs[6] && l[2] == bs[7] && l[..2][..1] == l[..1] && l[..1][..0] == [];
        assert BigEndian(l[..1]) == b5;
        assert BigEndian(l[..2]) == 256 * b5 + b6;
        assert BigEndian(l) == 65536 * b5 + 256 * b6 + b7;
      }
    }
  }
}

/**
  Telephony BCD (TBCD-STRING, section 17.7.8 of 3GPP TS 29.002): `TBCD_encode` and
  `TBCD_decode`, which swap the digits of every pair and fill an odd end with 'f'.
 */
module Tbcd {
  import opened PyText

  predicate Special(c: char) {
    c == '*' || c == '#' || c == 'a' || c == 'b' || c == 'c'
  }

  /** `TBCD_special_chars`: the four-bit code of a character, 'a' and 'c' alike. */
  function Nibble(c: char): Option<nat> {
    if c == '*' then Some(10)
    else if c == '#' then Some(11)
    else if c == 'a' || c == 'c' then Some(12)
    else if c == 'b' then Some(13)
    else
      var v :- ParseInt(Decimal, [c]);
      if v >= 0 then Some(v) else None
  }

  /** What a pair becomes.  With a special character in it the two codes are printed as one
      number, which loses a leading zero. */
  function EncodePair(first: char, second: char): Option<string> {
    if Special(first) || Special(second) then
      var high :- Nibble(second);
      var low :- Nibble(first);
      Some(Digits(Hexadecimal, high * 16 + low))
    else Some([second, first])
  }

  /** What a last character without a partner becomes; `single` when it is the only one, for
      which the special case refers to a variable that has no value yet. */
  function EncodeLast(c: char, single: bool): Option<string> {
    if !Special(c) then Some(['f', c])
    else if single then None
    else
      var low :- Nibble(c);
      Some(Digits(Hexadecimal, 240 + low))
  }

  function EncodeFrom(s: string, single: bool): Option<string> {
    if s == "" then Some("")
    else if |s| == 1 then EncodeLast(s[0], single)
    else
      var pair :- EncodePair(s[0], s[1]);
      var rest :- EncodeFrom(s[2..], false);
      Some(pair + rest)
  }

  /** An encoded pair back to text; None for a lone 'f', which has no second character. */
  function DecodePair(pair: string): Option<string>
    requires 1 <= |pair| <= 2
  {
    if 'f' !in pair then Some(if |pair| == 2 then [pair[1], pair[0]] else pair)
    else if |pair| == 2 then Some([pair[1]])
    else None
  }

  function DecodeFrom(s: string): Option<string> {
    if s == "" then Some("")
    else
      var n := if |s| < 2 then |s| else 2;
      var pair :- DecodePair(s[..n]);
      var rest :- DecodeFrom(s[n..]);
      Some(pair + rest)
  }

  /** What is still to come, put behind what is there; None stays None. */
  ghost function Behind(front: string, rest: Option<string>): Option<string> {
    if rest.None? then None else Some(front + rest.value)
  }

  lemma BehindTwice(a: string, b: string, rest: Option<string>)
    ensures Behind(a + b, rest) == Behind(a, Behind(b, rest))
    ensures Behind("", rest) == rest && Behind(b, Some("")) == Some(b)
  {
    assert b + "" == b;
    if rest.Some? {
      assert (a + b) + rest.value == a + (b + rest.value) && "" + rest.value == rest.value;
    }
  }

  method Encode(input: string) returns (result: Option<string>)
    ensures result == EncodeFrom(input, true)
  {
    var offset, output := 0, "";
    BehindTwice("", "", EncodeFrom(input, true));
    assert input[0..] == input;
    while offset < |input|
      invariant 0 <= offset <= |input| + 1
      invariant EncodeFrom(input, true) ==
                Behind(output, if offset <= |input| then EncodeFrom(input[offset..], offset == 0) else Some(""))
    {
      hide EncodePair, EncodeLast;
      ghost var before := output;
      if offset + 2 <= |input| {
        var bit := EncodePair(input[offset], input[offset + 1]);
        if bit.None? {
          return None;
        }
        output := output + bit.value;
        assert input[offset..][2..] == input[offset + 2..];
        BehindTwice(before, bit.value, EncodeFrom(input[offset + 2..], false));
      } else {
        var bit := EncodeLast(input[offset], offset == 0);
        if bit.None? {
          return None;
        }
        output := output + bit.value;
        BehindTwice(before, bit.value, Some(""));
      }
      offset := offset + 2;
    }
    result := Some(output);
    assert output + "" == output;
  }

  method Decode(input: string) returns (result: Option<string>)
    ensures result == DecodeFrom(input)
  {
    var offset, output := 0, "";
    BehindTwice("", "", DecodeFrom(input));
    while offset < |input|
      invariant 0 <= offset <= |input| + 1
      invariant DecodeFrom(input) == Behind(output, DecodeFrom(From(input, offset)))
    {
      hide DecodePair;
      var pair := Slice(input, offset, offset + 2);
      var bit := DecodePair(pair);
      if bit.None? {
        return None;
      }
      ghost var rest := From(input, offset);
      assert rest == input[offset..] && pair == rest[..|pair|];
      assert rest[|pair|..] == From(input, offset + 2);
      BehindTwice(output, bit.value, DecodeFrom(From(input, offset + 2)));
      output := output + bit.value;
      offset := offset + 2;
    }
    result := Some(output);
    assert output + "" == output;
  }

  /** No character is special and none is the filler; decimal digits all qualify. */
  predicate Plain(s: string) {
    forall i :: 0 <= i < |s| ==> !Special(s[i]) && s[i] != 'f'
  }

  /** Decoding inverts encoding on plain text of any length; the encoding is of even length and
      holds the filler, once and second to last, exactly when the text's length is odd. */
  lemma {:induction false} RoundTrip(s: string, single: bool)
    requires Plain(s)
    ensures var e := EncodeFrom(s, single);
            && e.Some? && DecodeFrom(e.value) == Some(s)
            && |e.value| == |s| + |s| % 2
            && (forall i :: 0 <= i < |e.value| ==> (e.value[i] == 'f' <==> |s| % 2 == 1 && i == |s| - 1))
    decreases |s|
  {
    if |s| == 0 {
    } else if |s| == 1 {
      LastAlone(s[0]);
      assert s == [s[0]];
    } else {
      hide DecodeFrom, EncodePair, EncodeLast;
      RoundTrip(s[2..], false);
      PairFirst(s[0], s[1], EncodeFrom(s[2..], false).value);
      PairRest(s);
    }
  }

  lemma LastAlone(c: char)
    requires c != 'f'
    ensures DecodeFrom(['f', c]) == Some([c])
  {
    assert ['f', c][..2] == ['f', c] && ['f', c][2..] == "";
    assert [c] + "" == [c];
  }

  lemma PairRest(s: string)
    requires |s| >= 2
    ensures [s[0], s[1]] + s[2..] == s
  {
  }

  lemma PairFirst(a: char, b: char, rest: string)
    requires a != 'f' && b != 'f' && !Special(a) && !Special(b)
    ensures EncodePair(a, b) == Some([b, a])
    ensures DecodeFrom([b, a] + rest) == Behind([a, b], DecodeFrom(rest))
  {
    var e := [b, a] + rest;
    assert e[..2] == [b, a] && e[2..] == rest;
    assert DecodePair([b, a]) == Some([a, b]);
  }

  // ------------------------------------------------------- exactly which texts

  /** The pair comes back: without special characters, unless one is the filler; with some, when
      the only special one is 'c' and the others are digits, the second not zero. */
  predicate PairSurvives(first: char, second: char) {
    if Special(first) || Special(second) then DigitOrC(first) && DigitOrC(second) && second != '0'
    else first != 'f' && second != 'f'
  }

  predicate DigitOrC(c: char) {
    '0' <= c <= '9' || c == 'c'
  }

  predicate Survives(s: string, single: bool) {
    if s == "" then true
    else if |s| == 1 then !Special(s[0]) || (s[0] == 'c' && !single)
    else PairSurvives(s[0], s[1]) && Survives(s[2..], false)
  }

  /** The code of an ordinary character is its digit. */
  lemma NibbleOf(c: char)
    ensures !Special(c) ==> Nibble(c) == if '0' <= c <= '9' then Some(c as int - '0' as int) else None
    ensures Nibble(c).Some? ==> Nibble(c).value < 14
  {
    if !Special(c) {
      assert [c][..0] == [] && [c][1..] == [];
      assert StripLeft([]) == [] && StripRight([]) == [];
      if '0' <= c <= '9' {
        ParseIntOfDigits(Decimal, [c]);
        assert Value(Decimal, [c]) == DigitValue(Decimal, c) by { assert Value(Decimal, []) == 0; }
      }
    }
  }

  /** An encoded pair with a special character: its two codes, or one when the first is zero. */
  lemma EncodedSpecial(a: char, b: char)
    requires Special(a) || Special(b)
    ensures var e := EncodePair(a, b);
            e.Some? ==> var high, low := Nibble(b), Nibble(a);
                        && high.Some? && low.Some? && high.value < 14 && low.value < 14
                        && e.value == if high.value == 0 then [DigitChar(Hexadecimal, low.value)]
                                      else [DigitChar(Hexadecimal, high.value), DigitChar(Hexadecimal, low.value)]
  {
    hide Nibble, DigitChar;
    NibbleOf(a);
    NibbleOf(b);
    if Nibble(a).Some? && Nibble(b).Some? {
      TwoDigits(Nibble(b).value, Nibble(a).value);
    }
  }

  lemma TwoDigits(high: nat, low: nat)
    requires high < 16 && low < 16
    ensures Digits(Hexadecimal, high * 16 + low)
         == if high == 0 then [DigitChar(Hexadecimal, low)] else [DigitChar(Hexadecimal, high), DigitChar(Hexadecimal, low)]
  {
    hide Quotient, Remainder, DigitChar, Digits;
    var n := high * 16 + low;
    QuotientOf(high, low);
    OneDigit(high);
    OneDigit(low);
    if high > 0 {
      LongDigits(n);
    }
  }

  lemma QuotientOf(high: nat, low: nat)
    requires high < 16 && low < 16
    ensures Quotient(Hexadecimal, high * 16 + low) == high && Remainder(Hexadecimal, high * 16 + low) == low
  {
  }

  lemma OneDigit(n: nat)
    requires n < 16
    ensures Digits(Hexadecimal, n) == [DigitChar(Hexadecimal, n)]
  {
  }

  lemma LongDigits(n: nat)
    requires n >= 16
    ensures Digits(Hexadecimal, n) == Digits(Hexadecimal, Quotient(Hexadecimal, n)) + [DigitChar(Hexadecimal, Remainder(Hexadecimal, n))]
  {
  }

  /** The hexadecimal digit that stands for a character next to a special one. */
  function Code(c: char): Option<char> {
    if '0' <= c <= '9' then Some(c)
    else if c == '*' then Some('a')
    else if c == '#' then Some('b')
    else if c == 'a' || c == 'c' then Some('c')
    else if c == 'b' then Some('d')
    else None
  }

  lemma CodeIs(c: char)
    ensures Nibble(c).Some? <==> Code(c).Some?
    ensures Nibble(c).Some? ==> Nibble(c).value < 14 && Code(c) == Some(DigitChar(Hexadecimal, Nibble(c).value))
                                && (Nibble(c).value == 0 <==> c == '0')
  {
    NibbleOf(c);
    if c !in "*#abc" {
      hide Nibble;
    }
  }

  /** A pair with one of "*#abc" in it becomes the digits of its two characters, swapped, and loses
      the first one when that is zero; it raises next to any other character.  An odd end puts an
      'f' before the digit, and raises when it is the whole text. */
  lemma SpecialCodes(a: char, b: char)
    ensures a in "*#abc" || b in "*#abc" ==>
              EncodePair(a, b) == if Code(a).None? || Code(b).None? then None
                                  else Some(if b == '0' then [Code(a).value] else [Code(b).value, Code(a).value])
    ensures a !in "*#abc" && b !in "*#abc" ==> EncodePair(a, b) == Some([b, a])
    ensures a in "*#abc" ==> EncodeLast(a, true) == None && EncodeLast(a, false) == Some(['f', Code(a).value])
    ensures a !in "*#abc" ==> EncodeLast(a, true) == EncodeLast(a, false) == Some(['f', a])
  {
    hide Nibble, DigitChar, Digits;
    CodeIs(a);
    CodeIs(b);
    FifteenIsF();
    if Nibble(a).Some? {
      TwoDigits(15, Nibble(a).value);
      if Nibble(b).Some? {
        TwoDigits(Nibble(b).value, Nibble(a).value);
      }
    }
  }

  /** Only digits and 'c' print as themselves. */
  lemma PrintsAsItself(c: char)
    requires Nibble(c).Some? && Nibble(c).value < 14
    ensures DigitChar(Hexadecimal, Nibble(c).value) == c <==> DigitOrC(c)
    ensures DigitChar(Hexadecimal, Nibble(c).value) != 'f'
  {
    NibbleOf(c);
    if !Special(c) {
      hide Nibble;
    }
  }

  /** What a pair becomes is at most two characters, and turns back into the pair or is short:
      one character, or one with a filler in it. */
  lemma PairBack(a: char, b: char)
    requires EncodePair(a, b).Some?
    ensures var e := EncodePair(a, b).value;
            && 1 <= |e| <= 2
            && (PairSurvives(a, b) ==> |e| == 2 && 'f' !in e && DecodePair(e) == Some([a, b]))
            && (!PairSurvives(a, b) ==> |e| == 1 || 'f' in e || ('f' !in e && DecodePair(e) != Some([a, b])))
            && (|e| == 1 ==> e[0] != 'f')
  {
    if Special(a) || Special(b) {
      hide Nibble, DigitChar, EncodePair;
      EncodedSpecial(a, b);
      PrintsAsItself(a);
      PrintsAsItself(b);
      NibbleOf(b);
      ZeroCode(b);
    }
  }

  lemma ZeroCode(c: char)
    requires Nibble(c).Some?
    ensures Nibble(c).value == 0 <==> c == '0'
  {
    NibbleOf(c);
    if !Special(c) {
      hide Nibble;
    }
  }

  lemma LastBack(c: char, single: bool)
    requires EncodeLast(c, single).Some?
    ensures var e := EncodeLast(c, single).value;
            |e| == 2 && e[0] == 'f' && DecodeFrom(e) == Some([e[1]])
            && (e[1] == c <==> !Special(c) || c == 'c') && (Special(c) ==> !single)
  {
    if Special(c) {
      NibbleOf(c);
      PrintsAsItself(c);
      hide Nibble, DigitChar;
      TwoDigits(15, Nibble(c).value);
      FifteenIsF();
    }
    hide EncodeLast;
    var e := EncodeLast(c, single).value;
    assert e[..2] == e && e[2..] == "";
    assert [e[1]] + "" == [e[1]];
  }

  lemma FifteenIsF()
    ensures DigitChar(Hexadecimal, 15) == 'f'
  {
  }

  /** Decoding never lengthens, and shortens wherever there is a filler. */
  lemma {:induction false} DecodedLength(e: string)
    requires DecodeFrom(e).Some?
    ensures |DecodeFrom(e).value| <= |e| - if 'f' in e then 1 else 0
    decreases |e|
  {
    if e != "" {
      var n := if |e| < 2 then |e| else 2;
      DecodedLength(e[n..]);
      assert e == e[..n] + e[n..];
    }
  }

  /** Encoding keeps the length, rounded up to a filler. */
  lemma {:induction false} EncodedLength(s: string, single: bool)
    requires EncodeFrom(s, single).Some?
    ensures var e := EncodeFrom(s, single).value;
            |e| <= |s| + |s| % 2 && (|s| % 2 == 1 ==> 'f' in e)
    decreases |s|
  {
    hide EncodePair, EncodeLast;
    if |s| == 1 {
      LastBack(s[0], single);
    } else if s != "" {
      EncodedLength(s[2..], false);
      PairBack(s[0], s[1]);
    }
  }

  lemma DecodeSplits(pair: string, rest: string)
    requires |pair| == 2
    ensures DecodeFrom(pair + rest) == if DecodePair(pair).None? then None else Behind(DecodePair(pair).value, DecodeFrom(rest))
  {
    assert (pair + rest)[..2] == pair && (pair + rest)[2..] == rest;
  }

  /** The texts that survive the way there and back, exactly. */
  lemma {:induction false} RoundTripExactly(s: string, single: bool)
    ensures var e := EncodeFrom(s, single);
            e.Some? && DecodeFrom(e.value) == Some(s) <==> Survives(s, single)
    decreases |s|
  {
    hide EncodePair, EncodeLast, DecodePair, PairSurvives, Special;
    if |s| == 1 {
      LastAloneExactly(s, single);
    } else if s != "" {
      var pair, tail := EncodePair(s[0], s[1]), EncodeFrom(s[2..], false);
      RoundTripExactly(s[2..], false);
      PairRest(s);
      if pair.None? {
        SurvivingPairEncodes(s[0], s[1]);
      } else {
        PairBack(s[0], s[1]);
        if tail.Some? {
          WholeBack(s, pair.value, tail.value);
        }
      }
    }
  }

  lemma LastAloneExactly(s: string, single: bool)
    requires |s| == 1
    ensures var e := EncodeFrom(s, single);
            e.Some? && DecodeFrom(e.value) == Some(s) <==> Survives(s, single)
  {
    hide DecodeFrom, Nibble;
    var c := s[0];
    if EncodeLast(c, single).Some? {
      LastBack(c, single);
      assert s == [c];
    }
    if c == 'c' {
      CIsTwelve();
    }
  }

  lemma CIsTwelve()
    ensures Nibble('c') == Some(12)
  {
  }

  lemma SurvivingPairEncodes(a: char, b: char)
    requires EncodePair(a, b).None?
    ensures !PairSurvives(a, b)
  {
    NibbleOf(a);
    NibbleOf(b);
    CIsTwelve();
    hide Nibble;
  }

  lemma WholeBack(s: string, pair: string, tail: string)
    requires |s| >= 2 && EncodePair(s[0], s[1]) == Some(pair) && EncodeFrom(s[2..], false) == Some(tail)
    ensures DecodeFrom(pair + tail) == Some(s) <==> PairSurvives(s[0], s[1]) && DecodeFrom(tail) == Some(s[2..])
  {
    hide EncodePair, EncodeLast, EncodeFrom, PairSurvives, DecodeFrom;
    PairBack(s[0], s[1]);
    EncodedLength(s[2..], false);
    PairRest(s);
    var all := DecodeFrom(pair + tail);
    if |pair| == 1 {
      if all.Some? {
        DecodedLength(pair + tail);
        assert 'f' in tail ==> 'f' in pair + tail;
      }
    } else {
      DecodeSplits(pair, tail);
      var back := DecodePair(pair);
      if back.Some? && DecodeFrom(tail).Some? {
        DecodedLength(tail);
        if |back.value| == 2 {
          assert all.value[..2] == back.value && all.value[2..] == DecodeFrom(tail).value;
          assert s[..2] == [s[0], s[1]];
        }
      }
    }
  }
}

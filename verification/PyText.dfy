/**
  The Python text primitives every other module is written in: slicing with
  clamped and negative bounds, `int(text, base)`, `format(n, "x")`, `str(n)`
  and `zfill`.  `None` stands for a raised ValueError.
 */
module PyText {
  datatype Option<+T> = None | Some(value: T) {
    predicate IsFailure() { None? }

    function PropagateFailure<U>(): Option<U>
      requires None?
    {
      None
    }

    function Extract(): T
      requires Some?
    {
      value
    }
  }

  type byte = b: int | 0 <= b < 256

  // ---------------------------------------------------------------- slices

  /** Where a slice bound lands: negative bounds count from the end. */
  function Clamp(i: int, n: nat): (k: nat)
    ensures k <= n
  {
    if i < 0 then (if i + n < 0 then 0 else i + n)
    else if i > n then n
    else i
  }

  /** `s[lo:hi]` */
  function Slice<T>(s: seq<T>, lo: int, hi: int): (r: seq<T>)
    ensures |r| <= |s|
    ensures 0 <= lo <= hi <= |s| ==> r == s[lo..hi]
  {
    var a, b := Clamp(lo, |s|), Clamp(hi, |s|);
    if a <= b then s[a..b] else []
  }

  /** `s[lo:]` */
  function From<T>(s: seq<T>, lo: int): (r: seq<T>)
    ensures |r| <= |s|
    ensures 0 <= lo <= |s| ==> r == s[lo..]
    ensures lo >= |s| ==> r == []
  {
    s[Clamp(lo, |s|)..]
  }

  /** The text `w` stands at position `i` of `s`. */
  predicate OccursAt(s: string, w: string, i: nat) {
    i + |w| <= |s| && s[i..i + |w|] == w
  }

  // ---------------------------------------------------------------- digits

  datatype Base = Decimal | Hexadecimal

  function Radix(b: Base): (r: nat)
    ensures r == 10 || r == 16
  {
    if b.Decimal? then 10 else 16
  }

  /** Multiplication by the base, kept linear in either case. */
  function Scale(b: Base, v: nat): nat
  {
    if b.Decimal? then 10 * v else 16 * v
  }

  function Quotient(b: Base, v: nat): (q: nat)
    ensures v == Scale(b, q) + Remainder(b, v)
    ensures v > 0 ==> q < v
  {
    if b.Decimal? then v / 10 else v / 16
  }

  function Remainder(b: Base, v: nat): (r: nat)
    ensures r < Radix(b)
  {
    if b.Decimal? then v % 10 else v % 16
  }

  /** The value of a digit character, or -1 when it is none in this base. */
  function DigitValue(b: Base, c: char): (d: int)
    ensures -1 <= d < Radix(b)
  {
    if '0' <= c <= '9' then c as int - '0' as int
    else if b.Decimal? then -1
    else if 'a' <= c <= 'f' then c as int - 'a' as int + 10
    else if 'A' <= c <= 'F' then c as int - 'A' as int + 10
    else -1
  }

  function DigitChar(b: Base, d: nat): (c: char)
    requires d < Radix(b)
    ensures DigitValue(b, c) == d
    ensures '0' <= c <= '9' || 'a' <= c <= 'f'
  {
    if d < 10 then '0' + d as char else 'a' + (d - 10) as char
  }

  predicate AllDigits(b: Base, s: string) {
    forall i :: 0 <= i < |s| ==> DigitValue(b, s[i]) >= 0
  }

  /** Lower- or upper-case hexadecimal text, as `bytes.hex()` produces it. */
  predicate HexText(s: string) {
    AllDigits(Hexadecimal, s)
  }

  function Value(b: Base, s: string): (v: nat)
    requires AllDigits(b, s)
  {
    if s == [] then 0
    else Scale(b, Value(b, s[..|s| - 1])) + DigitValue(b, s[|s| - 1])
  }

  /** `format(n, "x")` for base sixteen, `str(n)` for base ten. */
  function Digits(b: Base, n: nat): (s: string)
    ensures s != [] && AllDigits(b, s)
    ensures forall i :: 0 <= i < |s| ==> '0' <= s[i] <= '9' || 'a' <= s[i] <= 'f'
    decreases n
  {
    if n < Radix(b) then [DigitChar(b, n)]
    else Digits(b, Quotient(b, n)) + [DigitChar(b, Remainder(b, n))]
  }

  function Zeros(n: nat): (s: string)
    ensures |s| == n && forall i :: 0 <= i < n ==> s[i] == '0'
  {
    seq(n, _ => '0')
  }

  /** `text.zfill(width)` for text without a sign. */
  function ZFill(s: string, width: nat): (r: string)
    ensures |r| == if |s| < width then width else |s|
  {
    if |s| >= width then s else Zeros(width - |s|) + s
  }

  /** `format(n, "x").zfill(width)` */
  function FixedHex(n: nat, width: nat): (s: string)
    ensures HexText(s) && |s| >= width && s != []
  {
    ZFill(Digits(Hexadecimal, n), width)
  }

  // ------------------------------------------------------------ int(s, base)

  predicate IsSpace(c: char) {
    c == ' ' || '\t' <= c <= '\r' || 0x1c <= c as int <= 0x1f
  }

  function StripLeft(s: string): string {
    if s != [] && IsSpace(s[0]) then StripLeft(s[1..]) else s
  }

  function StripRight(s: string): string {
    if s != [] && IsSpace(s[|s| - 1]) then StripRight(s[..|s| - 1]) else s
  }

  /** Digits with single underscores between them. */
  function ParseDigits(b: Base, s: string): (r: Option<nat>)
  {
    if s == [] then None
    else
      var d := DigitValue(b, s[|s| - 1]);
      if d < 0 then None
      else if |s| == 1 then Some(d)
      else
        var rest := if s[|s| - 2] == '_' then s[..|s| - 2] else s[..|s| - 1];
        var high :- ParseDigits(b, rest);
        Some(Scale(b, high) + d)
  }

  function ParseUnsigned(b: Base, s: string): Option<int> {
    if b.Hexadecimal? && |s| >= 2 && s[0] == '0' && (s[1] == 'x' || s[1] == 'X') then
      ParseDigits(b, if |s| > 2 && s[2] == '_' then s[3..] else s[2..])
    else
      ParseDigits(b, s)
  }

  /** `int(text, base)` on ASCII text. */
  function ParseInt(b: Base, text: string): (r: Option<int>)
  {
    var s := StripRight(StripLeft(text));
    if s != [] && s[0] == '-' then
      var v :- ParseUnsigned(b, s[1..]);
      Some(-v)
    else if s != [] && s[0] == '+' then ParseUnsigned(b, s[1..])
    else ParseUnsigned(b, s)
  }

  lemma {:induction false} ParseDigitsOfText(b: Base, s: string)
    requires s != [] && AllDigits(b, s)
    ensures ParseDigits(b, s) == Some(Value(b, s))
  {
    var init := s[..|s| - 1];
    assert DigitValue(b, s[|s| - 1]) >= 0;
    if init == [] {
      assert Value(b, init) == 0;
    } else {
      assert DigitValue(b, s[|s| - 2]) >= 0;
      assert init[|init| - 1] == s[|s| - 2];
      ParseDigitsOfText(b, init);
    }
  }

  /** Text made only of digits is read as its value: no sign, prefix, space or
      underscore can interfere. */
  lemma ParseIntOfDigits(b: Base, s: string)
    requires s != [] && AllDigits(b, s)
    ensures ParseInt(b, s) == Some(Value(b, s))
  {
    assert DigitValue(b, s[0]) >= 0 && DigitValue(b, s[|s| - 1]) >= 0;
    assert StripLeft(s) == s && StripRight(s) == s;
    if |s| >= 2 {
      assert DigitValue(b, s[1]) >= 0;
    }
    ParseDigitsOfText(b, s);
  }

  lemma SignedDigits(b: Base, s: string)
    requires s != [] && AllDigits(b, s)
    ensures var v: int := Value(b, s); ParseInt(b, "-" + s) == Some(-v) && ParseInt(b, "+" + s) == Some(v)
  {
    hide Value, ParseDigits;
    assert DigitValue(b, s[0]) >= 0 && DigitValue(b, s[|s| - 1]) >= 0;
    StripsToItself("-" + s);
    StripsToItself("+" + s);
    assert ("-" + s)[1..] == s == ("+" + s)[1..];
    if |s| >= 2 {
      assert DigitValue(b, s[1]) >= 0;
    }
    ParseDigitsOfText(b, s);
  }

  lemma StripsToItself(s: string)
    requires s != [] && !IsSpace(s[0]) && !IsSpace(s[|s| - 1])
    ensures StripRight(StripLeft(s)) == s
  {
  }

  lemma SpacedDigits(b: Base, s: string)
    requires s != [] && AllDigits(b, s)
    ensures ParseInt(b, " " + s + " ") == ParseInt(b, s)
  {
    hide ParseUnsigned, ParseDigits;
    assert DigitValue(b, s[0]) >= 0 && DigitValue(b, s[|s| - 1]) >= 0;
    StripsToItself(s);
    assert (" " + s + " ")[1..] == s + " " && (s + " ")[..|s|] == s;
    assert StripLeft(" " + s + " ") == StripLeft(s + " ") == s + " ";
    assert StripRight(s + " ") == StripRight(s);
  }

  lemma PrefixedDigits(s: string)
    requires s != [] && HexText(s)
    ensures ParseInt(Hexadecimal, "0x" + s) == Some(Value(Hexadecimal, s))
  {
    hide Value, ParseDigits;
    var t := "0x" + s;
    assert DigitValue(Hexadecimal, s[0]) >= 0 && DigitValue(Hexadecimal, s[|s| - 1]) >= 0;
    StripsToItself(t);
    assert t[2..] == s && t[2] == s[0];
    ParseDigitsOfText(Hexadecimal, s);
  }

  lemma ParseDigitsStep(b: Base, x: string)
    requires |x| >= 2 && DigitValue(b, x[|x| - 1]) >= 0
    ensures var high := ParseDigits(b, if x[|x| - 2] == '_' then x[..|x| - 2] else x[..|x| - 1]);
            ParseDigits(b, x) == if high.None? then None else Some(Scale(b, high.value) + DigitValue(b, x[|x| - 1]))
  {
  }

  lemma ParseDigitsLast(b: Base, u: string, c: char)
    requires u != [] && DigitValue(b, c) >= 0
    ensures var high := ParseDigits(b, if u[|u| - 1] == '_' then u[..|u| - 1] else u);
            ParseDigits(b, u + [c]) == if high.None? then None else Some(Scale(b, high.value) + DigitValue(b, c))
  {
    hide DigitValue, Scale, ParseDigits;
    var x, n := u + [c], |u|;
    assert x[n] == c && x[n - 1] == u[n - 1] && |x| == n + 1;
    assert x[..n] == u && x[..n - 1] == u[..n - 1];
    ParseDigitsStep(b, x);
  }

  lemma ValueLast(b: Base, u: string, c: char)
    requires AllDigits(b, u) && DigitValue(b, c) >= 0
    ensures AllDigits(b, u + [c]) && Value(b, u + [c]) == Scale(b, Value(b, u)) + DigitValue(b, c)
  {
    hide DigitValue, Scale;
    assert (u + [c])[..|u|] == u;
  }

  lemma {:induction false} JoinedDigits(b: Base, s: string, t: string)
    requires s != [] && t != [] && AllDigits(b, s) && AllDigits(b, t)
    ensures AllDigits(b, s + t) && ParseDigits(b, s + "_" + t) == Some(Value(b, s + t))
    decreases |t|
  {
    hide ParseDigits, Value, Scale;
    var front, c := t[..|t| - 1], t[|t| - 1];
    assert t == front + [c] && DigitValue(b, c) >= 0;
    assert s + t == (s + front) + [c] && s + "_" + t == (s + "_" + front) + [c];
    if front == [] {
      assert s + front == s && s + "_" + front == s + "_" && (s + "_")[..|s|] == s;
      ParseDigitsOfText(b, s);
    } else {
      assert front[|front| - 1] == t[|t| - 2] && DigitValue(b, t[|t| - 2]) >= 0;
      JoinedDigits(b, s, front);
    }
    ParseDigitsLast(b, s + "_" + front, c);
    ValueLast(b, s + front, c);
  }

  /** Text that is read as digits holds nothing but digits and underscores. */
  lemma {:induction false} OnlyDigits(b: Base, s: string, i: nat)
    requires i < |s| && DigitValue(b, s[i]) < 0 && s[i] != '_'
    ensures ParseDigits(b, s).None?
    decreases |s|
  {
    if i < |s| - 1 {
      OnlyDigits(b, s[..|s| - 1], i);
      if s[|s| - 2] == '_' {
        OnlyDigits(b, s[..|s| - 2], i);
      }
    }
  }

  /** What else is taken for the number: a sign, spaces around it, an underscore between digits and,
      in base sixteen, the prefix "0x"; but no space between digits, and nothing for no digit. */
  lemma ParseIntSyntax(b: Base, s: string, t: string)
    requires s != [] && t != [] && AllDigits(b, s) && AllDigits(b, t)
    ensures var v: int := Value(b, s);
            && ParseInt(b, "-" + s) == Some(-v) && ParseInt(b, "+" + s) == ParseInt(b, " " + s + " ") == Some(v)
            && (b.Hexadecimal? ==> ParseInt(b, "0x" + s) == Some(v))
    ensures AllDigits(b, s + t) && ParseInt(b, s + "_" + t) == Some(Value(b, s + t))
    ensures ParseInt(b, s + " " + t).None? && ParseInt(b, "").None?
  {
    hide Value, ParseDigits;
    SignedDigits(b, s);
    SpacedDigits(b, s);
    ParseIntOfDigits(b, s);
    if b.Hexadecimal? {
      PrefixedDigits(s);
    }
    JoinedDigits(b, s, t);
    Unprefixed(b, s, "_", t);
    Unprefixed(b, s, " ", t);
    OnlyDigits(b, s + " " + t, |s|);
    assert ParseDigits(b, []).None? by { NoDigits(b); }
  }

  lemma NoDigits(b: Base)
    ensures ParseDigits(b, []).None?
  {
  }

  lemma Unprefixed(b: Base, s: string, c: string, t: string)
    requires s != [] && t != [] && AllDigits(b, s) && AllDigits(b, t) && c in {"_", " "}
    ensures ParseInt(b, s + c + t) == ParseDigits(b, s + c + t)
  {
    hide ParseDigits;
    var u := s + c + t;
    assert DigitValue(b, s[0]) >= 0 && DigitValue(b, t[|t| - 1]) >= 0;
    assert u[0] == s[0] && u[|u| - 1] == t[|t| - 1];
    StripsToItself(u);
    assert |s| >= 2 ==> u[1] == s[1] && DigitValue(b, s[1]) >= 0;
    assert |s| == 1 ==> u[1] == c[0];
  }

  lemma {:induction false} ValueOfDigits(b: Base, n: nat)
    ensures Value(b, Digits(b, n)) == n
    decreases n
  {
    var s := Digits(b, n);
    if n < Radix(b) {
      assert s[..|s| - 1] == [];
      assert Value(b, []) == 0;
    } else {
      assert s[..|s| - 1] == Digits(b, Quotient(b, n));
      ValueOfDigits(b, Quotient(b, n));
    }
  }

  lemma {:induction false} ValueOfZeros(b: Base, k: nat, s: string)
    requires AllDigits(b, s)
    ensures AllDigits(b, Zeros(k) + s)
    ensures Value(b, Zeros(k) + s) == Value(b, s)
    decreases k + |s|
  {
    var t := Zeros(k) + s;
    if s != [] {
      assert t[..|t| - 1] == Zeros(k) + s[..|s| - 1];
      ValueOfZeros(b, k, s[..|s| - 1]);
    } else if k > 0 {
      assert t[..|t| - 1] == Zeros(k - 1) + s;
      ValueOfZeros(b, k - 1, s);
    }
  }

  /** The least number that needs more than `w` hexadecimal digits. */
  function Pow16(w: nat): (p: nat)
    ensures p >= 1
  {
    if w == 0 then 1 else 16 * Pow16(w - 1)
  }

  lemma {:induction false} DigitsFit(n: nat, w: nat)
    requires w >= 1 && n < Pow16(w)
    ensures |Digits(Hexadecimal, n)| <= w
    decreases w
  {
    if n >= 16 {
      assert w >= 2;
      DigitsFit(Quotient(Hexadecimal, n), w - 1);
    }
  }

  /** Fixed-width hexadecimal fields survive printing and `int(_, 16)`. */
  lemma FixedHexRoundTrip(n: nat, w: nat)
    requires w >= 1 && n < Pow16(w)
    ensures |FixedHex(n, w)| == w
    ensures ParseInt(Hexadecimal, FixedHex(n, w)) == Some(n)
  {
    DigitsFit(n, w);
    var d := Digits(Hexadecimal, n);
    ValueOfDigits(Hexadecimal, n);
    ValueOfZeros(Hexadecimal, w - |d|, d);
    assert FixedHex(n, w) == Zeros(w - |d|) + d;
    ParseIntOfDigits(Hexadecimal, FixedHex(n, w));
  }

  // ------------------------------------------------------------ str(int)

  /** `str(n)` */
  function IntText(n: int): (s: string)
    ensures s != []
  {
    if n < 0 then "-" + Digits(Decimal, -n) else Digits(Decimal, n)
  }

  /** `int(str(n)) == n` */
  lemma IntTextRoundTrip(n: int)
    ensures ParseInt(Decimal, IntText(n)) == Some(n)
  {
    hide ParseInt, Digits, Value;
    if n >= 0 {
      ParseIntOfDigits(Decimal, Digits(Decimal, n));
      ValueOfDigits(Decimal, n);
    } else {
      SignedDigits(Decimal, Digits(Decimal, -n));
      ValueOfDigits(Decimal, -n);
    }
  }
}

/**
  The Milenage functions around the block cipher (section 4.1 of 3GPP TS 35.206), sequence
  numbers as six bytes, and the resynchronisation token AUTS (section 6.3.3 of TS 33.102).
  The cipher and the key derivation are arbitrary functions of their arguments.
 */
module Milenage {
  import opened PyText

  type Bytes = seq<byte>

  function ZeroBytes(n: nat): (z: Bytes)
    ensures |z| == n && forall i :: 0 <= i < n ==> z[i] == 0
  {
    seq(n, _ => 0)
  }

  type Block = b: Bytes | |b| == 16 witness ZeroBytes(16)

  /** AES-128 on one block: key and input. */
  type Cipher = (Block, Block) -> Block

  function Pow2(n: nat): nat {
    if n == 0 then 1 else 2 * Pow2(n - 1)
  }

  /** Exclusive or of the lowest `n` bits. */
  function XorBits(n: nat, x: nat, y: nat): (r: nat)
    ensures r < Pow2(n)
  {
    if n == 0 then 0 else (x + y) % 2 + 2 * XorBits(n - 1, x / 2, y / 2)
  }

  function Xor8(x: byte, y: byte): byte {
    assert Pow2(4) == 16 && Pow2(8) == 256;
    XorBits(8, x, y)
  }

  /** `xor`: as long as the shorter input. */
  function Xor(a: Bytes, b: Bytes): (r: Bytes)
    ensures |r| == if |a| < |b| then |a| else |b|
    ensures forall i :: 0 <= i < |r| ==> r[i] == Xor8(a[i], b[i])
  {
    seq(if |a| < |b| then |a| else |b|, i requires 0 <= i < |a| && i < |b| => Xor8(a[i], b[i]))
  }

  function Rotate(s: Bytes, n: nat): (r: Bytes)
    ensures |r| == |s|
    ensures forall i :: 0 <= i < |s| ==> r[i] == s[(i + n) % |s|]
  {
    seq(|s|, i requires 0 <= i < |s| => s[(i + n) % |s|])
  }

  // ------------------------------------------------------------ numbers as bytes

  /** `bytes.fromhex` of text of even length */
  function Unhex(s: string): (r: Bytes)
    requires HexText(s) && |s| % 2 == 0
    ensures |r| == |s| / 2
  {
    if s == "" then []
    else Unhex(s[..|s| - 2])
         + [(16 * DigitValue(Hexadecimal, s[|s| - 2]) + DigitValue(Hexadecimal, s[|s| - 1]))]
  }

  /** `int.from_bytes(_, "big")` */
  function FromBytes(s: Bytes): nat {
    if s == [] then 0 else 256 * FromBytes(s[..|s| - 1]) + s[|s| - 1]
  }

  const SQN_LIMIT := 0x1_0000_0000_0000

  /** `bytearray.fromhex('{:012x}'.format(sqn))`, which raises on an odd number of digits. */
  function SqnBytes(sqn: nat): (r: Option<Bytes>)
    ensures r.Some? ==> |r.value| >= 6
  {
    var text := FixedHex(sqn, 12);
    if |text| % 2 == 0 then Some(Unhex(text)) else None
  }

  lemma DigitsWithin(s: string)
    requires HexText(s) && |s| >= 2
    ensures HexText(s[..|s| - 2]) && DigitValue(Hexadecimal, s[|s| - 2]) >= 0 && DigitValue(Hexadecimal, s[|s| - 1]) >= 0
  {
    hide DigitValue;
  }

  lemma UnhexLast(s: string)
    requires HexText(s) && |s| % 2 == 0 && s != ""
    ensures HexText(s[..|s| - 2]) && DigitValue(Hexadecimal, s[|s| - 2]) >= 0 && DigitValue(Hexadecimal, s[|s| - 1]) >= 0
    ensures var b := 16 * DigitValue(Hexadecimal, s[|s| - 2]) + DigitValue(Hexadecimal, s[|s| - 1]);
            b < 256 && Unhex(s) == Unhex(s[..|s| - 2]) + [b]
  {
    hide DigitValue, AllDigits;
    DigitsWithin(s);
  }

  lemma FromBytesLast(front: Bytes, b: byte)
    ensures FromBytes(front + [b]) == 256 * FromBytes(front) + b
  {
    assert (front + [b])[..|front|] == front;
  }

  lemma ValueLast(s: string)
    requires HexText(s) && s != ""
    ensures HexText(s[..|s| - 1]) && DigitValue(Hexadecimal, s[|s| - 1]) >= 0
    ensures Value(Hexadecimal, s) == 16 * Value(Hexadecimal, s[..|s| - 1]) + DigitValue(Hexadecimal, s[|s| - 1])
  {
    hide DigitValue;
  }

  lemma {:induction false} FromUnhex(s: string)
    requires HexText(s) && |s| % 2 == 0
    ensures FromBytes(Unhex(s)) == Value(Hexadecimal, s)
    decreases |s|
  {
    if s != "" {
      hide DigitValue, Unhex, FromBytes, Value, AllDigits;
      UnhexLast(s);
      FromUnhex(s[..|s| - 2]);
      FromBytesLast(Unhex(s[..|s| - 2]), 16 * DigitValue(Hexadecimal, s[|s| - 2]) + DigitValue(Hexadecimal, s[|s| - 1]));
      ValueLast(s);
      ValueLast(s[..|s| - 1]);
      assert s[..|s| - 1][..|s| - 2] == s[..|s| - 2];
    }
  }

  lemma {:induction false} FromBytesBelow(s: Bytes, n: nat)
    requires |s| == n
    ensures FromBytes(s) < Pow16(2 * n)
    decreases n
  {
    if n > 0 {
      FromBytesBelow(s[..n - 1], n - 1);
      assert Pow16(2 * n) == 16 * Pow16(2 * n - 1) == 256 * Pow16(2 * (n - 1));
    }
  }

  lemma Pow16Of12()
    ensures Pow16(12) == SQN_LIMIT
  {
    assert Pow16(4) == 0x1_0000;
    assert Pow16(8) == 0x1_0000_0000;
  }

  /** Numbers below 2^48, and only those, are six bytes and read back as themselves. */
  lemma SqnRoundTrip(sqn: nat)
    ensures var b := SqnBytes(sqn);
            b.Some? && |b.value| == 6 && FromBytes(b.value) == sqn <==> sqn < SQN_LIMIT
  {
    Pow16Of12();
    if sqn < SQN_LIMIT {
      FixedHexRoundTrip(sqn, 12);
      SqnReadsBack(sqn);
    } else if SqnBytes(sqn).Some? && |SqnBytes(sqn).value| == 6 {
      FromBytesBelow(SqnBytes(sqn).value, 6);
    }
  }

  /** Whatever prints as bytes is read back from them, however many they are. */
  lemma SqnReadsBack(sqn: nat)
    ensures SqnBytes(sqn).Some? ==> FromBytes(SqnBytes(sqn).value) == sqn
  {
    hide Value, Digits, FromBytes, Unhex;
    var text := FixedHex(sqn, 12);
    if |text| % 2 == 0 {
      FromUnhex(text);
      FilledValue(sqn, 12);
    }
  }

  lemma FilledValue(n: nat, w: nat)
    ensures Value(Hexadecimal, FixedHex(n, w)) == n
  {
    hide Value, Digits, AllDigits;
    var d := Digits(Hexadecimal, n);
    ValueOfDigits(Hexadecimal, n);
    if |d| < w {
      ValueOfZeros(Hexadecimal, w - |d|, d);
    }
  }

  lemma {:induction false} DigitsSpan(n: nat)
    requires n > 0
    ensures var w := |Digits(Hexadecimal, n)|; Pow16(w - 1) <= n < Pow16(w)
    decreases n
  {
    if n >= 16 {
      var q := Quotient(Hexadecimal, n);
      DigitsSpan(q);
      var w := |Digits(Hexadecimal, q)|;
      assert |Digits(Hexadecimal, n)| == w + 1;
      assert Pow16(w) == 16 * Pow16(w - 1);
    }
  }

  lemma {:induction false} PowMonotone(v: nat, w: nat)
    requires v <= w
    ensures Pow16(v) <= Pow16(w)
    decreases w
  {
    if v < w {
      PowMonotone(v, w - 1);
    }
  }

  /** The number has this many hexadecimal digits. */
  predicate HasDigits(n: nat, w: nat) {
    w >= 1 && Pow16(w - 1) <= n < Pow16(w)
  }

  /** The numbers that do not print as bytes: those of thirteen digits, fifteen, and so on. */
  ghost predicate OddlyLong(n: nat) {
    exists w: nat :: w > 12 && w % 2 == 1 && HasDigits(n, w)
  }

  lemma SqnBytesRaises(sqn: nat)
    ensures SqnBytes(sqn).None? <==> OddlyLong(sqn)
  {
    hide Digits, Pow16;
    if sqn == 0 {
      DigitOfZero();
    } else {
      DigitsSpan(sqn);
    }
    if |FixedHex(sqn, 12)| % 2 == 1 {
      assert HasDigits(sqn, |Digits(Hexadecimal, sqn)|);
    }
    if OddlyLong(sqn) {
      var w: nat :| w > 12 && w % 2 == 1 && HasDigits(sqn, w);
      OneWidth(sqn, w, |Digits(Hexadecimal, sqn)|);
    }
  }

  lemma DigitOfZero()
    ensures |Digits(Hexadecimal, 0)| == 1
    ensures forall w: nat :: w > 12 ==> !HasDigits(0, w)
  {
  }

  lemma OneWidth(n: nat, v: nat, w: nat)
    requires n > 0 && HasDigits(n, v) && w >= 1 && Pow16(w - 1) <= n < Pow16(w)
    ensures v == w
  {
    if v < w {
      PowMonotone(v, w - 1);
    } else if w < v {
      PowMonotone(w, v - 1);
    }
  }

  function DropBytes(n: nat, k: nat): nat {
    if k == 0 then n else DropBytes(n / 256, k - 1)
  }

  lemma {:induction false} FromBytesFront(s: Bytes, k: nat)
    requires k <= |s|
    ensures FromBytes(s[..|s| - k]) == DropBytes(FromBytes(s), k)
    decreases k
  {
    if k == 0 {
      assert s[..|s|] == s;
    } else {
      var front := s[..|s| - 1];
      FromBytesFront(front, k - 1);
      assert front[..|front| - (k - 1)] == s[..|s| - k];
      assert FromBytes(s) / 256 == FromBytes(front);
    }
  }

  // ------------------------------------------------------------ the functions

  /** `encrypt`: CBC mode on a single block, which masks the input with the initialisation
      vector. */
  function Encrypt(aes: Cipher, key: Block, buf: Block, iv: Block): Block {
    aes(key, Xor(buf, iv))
  }

  /** The rotated and masked second cipher call that f2 to f5* share. */
  function OutN(aes: Cipher, key: Block, rand: Block, opc: Block, rotation: nat, c: byte): (r: Bytes)
    ensures |r| == 16
  {
    var tempXOpc: Bytes := Xor(Encrypt(aes, key, Xor(rand, opc), ZeroBytes(16)), opc);
    Xor(Encrypt(aes, key, Xor(Rotate(tempXOpc, rotation), ZeroBytes(15) + [c]), ZeroBytes(16)), opc)
  }

  /** f1 and f1*: MAC-A and MAC-S. */
  function F1(aes: Cipher, key: Block, sqn: Bytes, rand: Block, opc: Block, amf: Bytes): (r: (Bytes, Bytes))
    requires |sqn| >= 6 && |amf| >= 2
    ensures |r.0| == 8 && |r.1| == 8
  {
    var temp := Encrypt(aes, key, Xor(rand, opc), ZeroBytes(16));
    var half := sqn[0..6] + amf[0..2];
    var out1: Bytes := Encrypt(aes, key, Xor(temp, Rotate(Xor(half + half, opc), 8)), ZeroBytes(16));
    var out := Xor(opc, out1);
    (out[..8], out[8..])
  }

  /** f2 and f5: RES and the anonymity key. */
  function F2F5(aes: Cipher, key: Block, rand: Block, opc: Block): (r: (Bytes, Bytes))
    ensures |r.0| == 8 && |r.1| == 6
  {
    var out2 := OutN(aes, key, rand, opc, 0, 1);
    (out2[8..16], out2[0..6])
  }

  function F3(aes: Cipher, key: Block, rand: Block, opc: Block): Bytes {
    OutN(aes, key, rand, opc, 4, 2)
  }

  function F4(aes: Cipher, key: Block, rand: Block, opc: Block): Bytes {
    OutN(aes, key, rand, opc, 8, 4)
  }

  function F5Star(aes: Cipher, key: Block, rand: Block, opc: Block): (ak: Bytes)
    ensures |ak| == 6
  {
    OutN(aes, key, rand, opc, 12, 8)[..6]
  }

  // ------------------------------------------------------- xor and rotation

  lemma XorCancels(a: Bytes, b: Bytes)
    requires |a| == |b|
    ensures Xor(Xor(a, b), b) == a
  {
    hide Xor8;
    forall i | 0 <= i < |a|
      ensures Xor(Xor(a, b), b)[i] == a[i]
    {
      XorByteCancels(a[i], b[i]);
    }
  }

  lemma {:induction false} XorBitsCancel(n: nat, x: nat, y: nat)
    requires x < Pow2(n)
    ensures XorBits(n, XorBits(n, x, y), y) == x == XorBits(n, x, 0)
  {
    if n > 0 {
      XorBitsCancel(n - 1, x / 2, y / 2);
      XorBitsNext(n, x, y);
      XorBitsNext(n, x, 0);
      XorBitsNext(n, XorBits(n, x, y), y);
      hide XorBits;
      LowestBit(x, y, XorBits(n - 1, x / 2, y / 2));
    }
  }

  lemma XorBitsNext(n: nat, x: nat, y: nat)
    requires n > 0
    ensures XorBits(n, x, y) == (x + y) % 2 + 2 * XorBits(n - 1, x / 2, y / 2)
  {
  }

  lemma LowestBit(x: nat, y: nat, q: nat)
    ensures var r := (x + y) % 2 + 2 * q; r / 2 == q && (r + y) % 2 == x % 2
    ensures x == x % 2 + 2 * (x / 2)
  {
  }

  /** The i-th bit from the right. */
  function Bit(x: nat, i: nat): nat
    decreases i
  {
    if i == 0 then x % 2 else Bit(x / 2, i - 1)
  }

  /** Bit by bit the exclusive or of two bytes is one exactly where they differ. */
  lemma XorByteBits(x: byte, y: byte, i: nat)
    requires i < 8
    ensures Bit(Xor8(x, y), i) == if Bit(x, i) == Bit(y, i) then 0 else 1
  {
    hide XorBits;
    XorBitsAre(8, x, y, i);
  }

  lemma {:induction false} XorBitsAre(n: nat, x: nat, y: nat, i: nat)
    requires i < n
    ensures Bit(XorBits(n, x, y), i) == if Bit(x, i) == Bit(y, i) then 0 else 1
    decreases n
  {
    XorBitsNext(n, x, y);
    hide XorBits;
    DifferingBit(x, y, XorBits(n - 1, x / 2, y / 2));
    if i > 0 {
      XorBitsAre(n - 1, x / 2, y / 2, i - 1);
    }
  }

  lemma DifferingBit(x: nat, y: nat, q: nat)
    ensures var r := (x + y) % 2 + 2 * q; r / 2 == q && r % 2 == if x % 2 == y % 2 then 0 else 1
  {
  }

  lemma XorByteCancels(x: byte, y: byte)
    ensures Xor8(Xor8(x, y), y) == x && Xor8(x, 0) == x
  {
    assert Pow2(4) == 16 && Pow2(8) == 256;
    XorBitsCancel(8, x, y);
  }

  /** Rotations compose additively; one by the length, or none, changes nothing. */
  lemma RotateComposes(s: Bytes, m: nat, n: nat)
    ensures Rotate(Rotate(s, m), n) == Rotate(s, m + n)
    ensures Rotate(s, 0) == s == Rotate(s, |s|)
  {
    forall i | 0 <= i < |s|
      ensures Rotate(Rotate(s, m), n)[i] == Rotate(s, m + n)[i]
      ensures Rotate(s, 0)[i] == s[i] == Rotate(s, |s|)[i]
    {
      var k := |s|;
      ModOfSum(i + n, m, k);
      assert (i + n) + m == i + (m + n);
      ModOfSum(k, i, k);
    }
  }

  /** What stood in front goes behind. */
  lemma RotateMoves(a: Bytes, b: Bytes)
    ensures Rotate(a + b, |a|) == b + a
  {
    var k := |a| + |b|;
    forall i | 0 <= i < k
      ensures Rotate(a + b, |a|)[i] == (b + a)[i]
    {
      ModUnique(if i < |b| then 0 else 1, if i < |b| then i + |a| else i - |b|, k);
    }
  }

  lemma ModOfSum(a: nat, b: nat, k: nat)
    requires k > 0
    ensures (a % k + b) % k == (a + b) % k
    ensures a == k && b < k ==> (a + b) % k == b && b % k == b
  {
    var r := a % k + b;
    Distribute(a / k, r / k, k);
    assert a + b == (a / k + r / k) * k + r % k;
    ModUnique(a / k + r / k, r % k, k);
    if a == k && b < k {
      ModUnique(1, b, k);
      ModUnique(0, b, k);
    }
  }

  lemma Distribute(p: int, q: int, k: int)
    ensures (p + q) * k == p * k + q * k
  {
  }

  /** A remainder in range is the remainder. */
  lemma ModUnique(q: int, r: int, k: int)
    requires 0 <= r < k
    ensures (q * k + r) % k == r
  {
    var a := q * k + r;
    var p := a / k;
    Distribute(p, q - p, k);
    assert a == p * k + a % k;
    assert (q - p) * k == a % k - r;
    if q > p {
      Distribute(q - p - 1, 1, k);
      AtLeastZero(q - p - 1, k);
    } else if q < p {
      Distribute(q - p + 1, -1, k);
      AtLeastZero(p - q - 1, k);
      Distribute(q - p + 1, p - q - 1, k);
    }
  }

  lemma AtLeastZero(x: nat, k: nat)
    ensures x * k >= 0
  {
  }

  /** `f2`, which flips the lowest bit of its sixteenth byte in place. */
  method F2(aes: Cipher, key: Block, rand: Block, opc: Block) returns (res: Bytes)
    ensures res == F2F5(aes, key, rand, opc).0
  {
    hide Xor8, Rotate, Xor;
    var temp: Bytes := Encrypt(aes, key, Xor(rand, opc), ZeroBytes(16));
    var mixed := Xor(temp, opc);
    var cryptIn := new byte[16](i requires 0 <= i < 16 => mixed[i]);
    cryptIn[15] := Xor8(cryptIn[15], 1);
    assert cryptIn[..] == Xor(Rotate(mixed, 0), ZeroBytes(15) + [1]) by {
      FlipIsXor(mixed, 1);
      assert cryptIn[..] == mixed[..15] + [Xor8(mixed[15], 1)];
    }
    var input: Bytes := cryptIn[..];
    var out := Xor(Encrypt(aes, key, input, ZeroBytes(16)), opc);
    res := out[8..16];
  }

  /** Flipping the last bit is the rotation by nothing and the xor with the constant c2. */
  lemma FlipIsXor(s: Bytes, c: byte)
    requires |s| == 16
    ensures Xor(Rotate(s, 0), ZeroBytes(15) + [c]) == s[..15] + [Xor8(s[15], c)]
  {
    hide *;
    RotateComposes(s, 0, 0);
    XorLast(s, c);
  }

  lemma XorLast(s: Bytes, c: byte)
    requires |s| == 16
    ensures Xor(s, ZeroBytes(15) + [c]) == s[..15] + [Xor8(s[15], c)]
  {
    hide Xor8;
    var mask := ZeroBytes(15) + [c];
    var r := Xor(s, mask);
    forall i | 0 <= i < 15
      ensures r[i] == s[i]
    {
      XorByteCancels(s[i], 0);
    }
  }

  // ------------------------------------------------------ the published algorithm

  /** The rotations r1 to r5, in bits, and the constants c1 to c5, as numbers. */
  const ROTATIONS := [64, 0, 32, 64, 96]
  const CONSTANTS := [0, 1, 2, 4, 8]

  function ConstantBytes(i: nat): (b: Block)
    requires i < 5
  {
    ZeroBytes(15) + [CONSTANTS[i]]
  }

  /** OUT1 of the standard: E(TEMP xor rot(IN1 xor OPc, r1) xor c1) xor OPc. */
  function StandardOut1(aes: Cipher, key: Block, rand: Block, opc: Block, sqn: Bytes, amf: Bytes): (out1: Bytes)
    requires |sqn| == 6 && |amf| == 2
    ensures |out1| == 16
  {
    var temp: Bytes := aes(key, Xor(rand, opc));
    var in1 := sqn + amf + sqn + amf;
    Xor(aes(key, Xor(Xor(temp, Rotate(Xor(in1, opc), ROTATIONS[0] / 8)), ConstantBytes(0))), opc)
  }

  /** OUT2 to OUT5 of the standard: E(rot(TEMP xor OPc, ri) xor ci) xor OPc. */
  function StandardOut(aes: Cipher, key: Block, rand: Block, opc: Block, i: nat): (out: Bytes)
    requires 1 <= i < 5
    ensures |out| == 16
  {
    var temp: Bytes := aes(key, Xor(rand, opc));
    Xor(aes(key, Xor(Rotate(Xor(temp, opc), ROTATIONS[i] / 8), ConstantBytes(i))), opc)
  }

  lemma XorZeroBlock(a: Bytes)
    requires |a| == 16
    ensures Xor(a, ZeroBytes(16)) == a
    ensures ConstantBytes(0) == ZeroBytes(16)
  {
    hide Xor8;
    forall i | 0 <= i < 16
      ensures Xor(a, ZeroBytes(16))[i] == a[i]
    {
      XorByteCancels(a[i], 0);
    }
  }

  lemma XorCommutes(a: Bytes, b: Bytes)
    requires |a| == |b|
    ensures Xor(a, b) == Xor(b, a)
  {
    hide Xor8;
    forall i | 0 <= i < |a|
      ensures Xor8(a[i], b[i]) == Xor8(b[i], a[i])
    {
      XorBitsCommute(8, a[i], b[i]);
      XorByteIs(a[i], b[i]);
      XorByteIs(b[i], a[i]);
    }
  }

  lemma XorByteIs(x: byte, y: byte)
    ensures Xor8(x, y) == XorBits(8, x, y)
  {
  }

  lemma {:induction false} XorBitsCommute(n: nat, x: nat, y: nat)
    ensures XorBits(n, x, y) == XorBits(n, y, x)
  {
    if n > 0 {
      XorBitsCommute(n - 1, x / 2, y / 2);
    }
  }

  lemma OutNIsStandard(aes: Cipher, key: Block, rand: Block, opc: Block, i: nat)
    requires 1 <= i < 5
    ensures OutN(aes, key, rand, opc, ROTATIONS[i] / 8, CONSTANTS[i]) == StandardOut(aes, key, rand, opc, i)
  {
    hide Xor, Rotate, ZeroBytes;
    XorZeroBlock(Xor(rand, opc));
    var temp: Bytes := aes(key, Xor(rand, opc));
    XorZeroBlock(Xor(Rotate(Xor(temp, opc), ROTATIONS[i] / 8), ConstantBytes(i)));
  }

  /** The code computes the functions of section 4.1 of TS 35.206: f1 and f1* are the halves of
      OUT1, f2 the end and f5 the beginning of OUT2, f3 and f4 are OUT3 and OUT4, and f5* is the
      beginning of OUT5. */
  lemma MatchesStandard(aes: Cipher, key: Block, rand: Block, opc: Block, sqn: Bytes, amf: Bytes)
    requires |sqn| == 6 && |amf| == 2
    ensures var out1 := StandardOut1(aes, key, rand, opc, sqn, amf);
            F1(aes, key, sqn, rand, opc, amf) == (out1[..8], out1[8..])
    ensures var out2 := StandardOut(aes, key, rand, opc, 1); F2F5(aes, key, rand, opc) == (out2[8..], out2[..6])
    ensures F3(aes, key, rand, opc) == StandardOut(aes, key, rand, opc, 2)
    ensures F4(aes, key, rand, opc) == StandardOut(aes, key, rand, opc, 3)
    ensures F5Star(aes, key, rand, opc) == StandardOut(aes, key, rand, opc, 4)[..6]
  {
    hide OutN, StandardOut;
    OutNIsStandard(aes, key, rand, opc, 1);
    OutNIsStandard(aes, key, rand, opc, 2);
    OutNIsStandard(aes, key, rand, opc, 3);
    OutNIsStandard(aes, key, rand, opc, 4);
    F1IsStandard(aes, key, rand, opc, sqn, amf);
    var out2 := StandardOut(aes, key, rand, opc, 1);
    assert out2[8..16] == out2[8..] && out2[0..6] == out2[..6];
  }

  lemma F1IsStandard(aes: Cipher, key: Block, rand: Block, opc: Block, sqn: Bytes, amf: Bytes)
    requires |sqn| == 6 && |amf| == 2
    ensures var out1 := StandardOut1(aes, key, rand, opc, sqn, amf);
            F1(aes, key, sqn, rand, opc, amf) == (out1[..8], out1[8..])
  {
    hide Xor, Rotate, ZeroBytes;
    XorZeroBlock(Xor(rand, opc));
    var temp: Bytes := aes(key, Xor(rand, opc));
    var half := sqn[0..6] + amf[0..2];
    assert half + half == sqn + amf + sqn + amf;
    var mixed := Xor(temp, Rotate(Xor(half + half, opc), 8));
    XorZeroBlock(mixed);
    XorCommutes(aes(key, mixed), opc);
  }

  // ------------------------------------------------------------------ AUTS

  /** `generate_auts`: the token of a SIM whose sequence number is `sqn`.  The AMF goes into
      MAC-S only; a USIM takes an all-zero one there (section 6.3.3 of TS 33.102). */
  function GenerateAuts(aes: Cipher, key: Block, opc: Block, amf: Bytes, rand: Block, sqn: nat): (r: Option<Bytes>)
    requires |amf| >= 2
    ensures r.Some? ==> |r.value| == 14
  {
    var sqnBytes :- SqnBytes(sqn);
    Some(Xor(sqnBytes, F5Star(aes, key, rand, opc)) + F1(aes, key, sqnBytes, rand, opc, amf).1)
  }

  /** `generate_resync`: the SIM's sequence number and the MAC-S it should have sent; raises in
      the cipher when the token is too short to hold a sequence number. */
  function GenerateResync(aes: Cipher, auts: Bytes, key: Block, opc: Block, amf: Bytes, rand: Block): (r: Option<(nat, Bytes)>)
    requires |amf| >= 2
    ensures r.Some? <==> |auts| >= 6
    ensures r.Some? ==> r.value.0 < SQN_LIMIT
  {
    if |auts| < 6 then None
    else
      var sqnMs := Xor(auts[..6], F5Star(aes, key, rand, opc));
      FromBytesBelow(sqnMs, 6);
      Pow16Of12();
      Some((FromBytes(sqnMs), F1(aes, key, sqnMs, rand, opc, amf).1))
  }

  /** Resynchronisation inverts AUTS, MAC-S included, on exactly the 48-bit sequence numbers. */
  lemma ResyncInvertsAuts(aes: Cipher, key: Block, opc: Block, amf: Bytes, rand: Block, sqn: nat)
    requires |amf| >= 2
    ensures var auts := GenerateAuts(aes, key, opc, amf, rand, sqn);
            (auts.Some? && GenerateResync(aes, auts.value, key, opc, amf, rand) == Some((sqn, auts.value[6..])))
            <==> sqn < SQN_LIMIT
  {
    hide F1, F5Star, SqnBytes, FromBytes;
    SqnRoundTrip(sqn);
    if sqn < SQN_LIMIT {
      var b := SqnBytes(sqn).value;
      var ak := F5Star(aes, key, rand, opc);
      var auts := GenerateAuts(aes, key, opc, amf, rand, sqn).value;
      assert auts[..6] == Xor(b, ak);
      XorCancels(b, ak);
    }
  }

  /** The number comes back whatever AMF the SIM took for its MAC-S and whatever stands in the
      place of MAC-S. */
  lemma ResyncRecovers(aes: Cipher, key: Block, opc: Block, amf: Bytes, simAmf: Bytes, rand: Block, sqn: nat, mac: Bytes)
    requires |amf| >= 2 && |simAmf| >= 2 && sqn < SQN_LIMIT
    ensures var auts := GenerateAuts(aes, key, opc, simAmf, rand, sqn);
            && auts.Some?
            && Xor(auts.value[..6], F5Star(aes, key, rand, opc)) == SqnBytes(sqn).value
            && var r := GenerateResync(aes, auts.value[..6] + mac, key, opc, amf, rand); r.Some? && r.value.0 == sqn
  {
    hide F1, F5Star, SqnBytes, FromBytes, Xor;
    SqnRoundTrip(sqn);
    var b := SqnBytes(sqn).value;
    var ak := F5Star(aes, key, rand, opc);
    var auts := GenerateAuts(aes, key, opc, simAmf, rand, sqn).value;
    assert auts[..6] == Xor(b, ak);
    assert (auts[..6] + mac)[..6] == auts[..6];
    XorCancels(b, ak);
  }

  // ------------------------------------------------------- E-UTRAN vectors

  /** HMAC-SHA-256 of a key and a text. */
  type Kdf = (Bytes, Bytes) -> Bytes

  datatype Vector = Vector(rand: Block, xres: Bytes, autn: Bytes, kasme: Bytes)

  /** `generate_autn` */
  function GenerateAutn(sqn: Bytes, ak: Bytes, macA: Bytes, amf: Bytes): Bytes {
    Xor(sqn, ak) + amf + macA
  }

  /** `generate_eutran_vector`, the random challenge being given; raises when the sequence number does not print as bytes. */
  function GenerateEutranVector(aes: Cipher, kdf: Kdf, key: Block, opc: Block, amf: Bytes, sqn: nat, plmn: Bytes, rand: Block): Option<Vector>
    requires |amf| >= 2
  {
    var sqnBytes :- SqnBytes(sqn);
    var macA := F1(aes, key, sqnBytes, rand, opc, amf).0;
    var (xres, ak) := F2F5(aes, key, rand, opc);
    var s := [0x10] + plmn + [0x00, 0x03] + Xor(sqnBytes, ak) + [0x00, 0x06];
    Some(Vector(rand, xres, GenerateAutn(sqnBytes, ak, macA, amf), kdf(F3(aes, key, rand, opc) + F4(aes, key, rand, opc), s)))
  }

  /** The USIM's side (section 6.3.3 of TS 33.102): recover the sequence number from AUTN and
      check its MAC; None when the check fails. */
  function UsimCheck(aes: Cipher, key: Block, opc: Block, rand: Block, autn: Bytes): Option<nat>
    requires |autn| == 16
  {
    var sqn := Xor(autn[..6], F2F5(aes, key, rand, opc).1);
    var xmac := F1(aes, key, sqn, rand, opc, autn[6..8]).0;
    if autn[8..] == xmac then Some(FromBytes(sqn)) else None
  }

  /** The key the USIM's side derives (Annex A.2 of TS 33.401): from CK, IK, the network and the
      concealed sequence number as it arrived in AUTN. */
  function UsimKasme(aes: Cipher, kdf: Kdf, key: Block, opc: Block, plmn: Bytes, rand: Block, autn: Bytes): Bytes
    requires |autn| == 16
  {
    kdf(F3(aes, key, rand, opc) + F4(aes, key, rand, opc), [0x10] + plmn + [0x00, 0x03] + autn[..6] + [0x00, 0x06])
  }

  lemma XorShorter(a: Bytes, b: Bytes)
    requires |a| >= |b|
    ensures Xor(a, b) == Xor(a[..|b|], b)
  {
    hide Xor8;
  }

  /** The USIM that holds the same key accepts every vector there is, and AUTN hands it the AMF
      given.  Its response is the
      expected one, it derives the same key, and the number it finds is the one the vector was
      made for, without the bytes past the sixth. */
  lemma UsimAcceptsAny(aes: Cipher, kdf: Kdf, key: Block, opc: Block, amf: Bytes, sqn: nat, plmn: Bytes, rand: Block)
    requires |amf| == 2 && SqnBytes(sqn).Some?
    ensures var v := GenerateEutranVector(aes, kdf, key, opc, amf, sqn, plmn, rand);
            && v.Some? && |v.value.autn| == 16 && v.value.autn[6..8] == amf && v.value.rand == rand
            && UsimCheck(aes, key, opc, rand, v.value.autn) == Some(DropBytes(sqn, |SqnBytes(sqn).value| - 6))
            && v.value.xres == F2F5(aes, key, rand, opc).0
            && v.value.kasme == UsimKasme(aes, kdf, key, opc, plmn, rand, v.value.autn)
  {
    hide F1, F2F5, F3, F4, SqnBytes, FromBytes, DropBytes, Xor;
    var b, ak := SqnBytes(sqn).value, F2F5(aes, key, rand, opc).1;
    var mac := F1(aes, key, b, rand, opc, amf).0;
    var autn := GenerateAutn(b, ak, mac, amf);
    assert autn[..6] == Xor(b, ak) && autn[6..8] == amf && autn[8..] == mac;
    XorShorter(b, ak);
    XorCancels(b[..6], ak);
    F1Front(aes, key, b, rand, opc, amf);
    FromBytesFront(b, |b| - 6);
    SqnReadsBack(sqn);
  }

  lemma F1Front(aes: Cipher, key: Block, sqn: Bytes, rand: Block, opc: Block, amf: Bytes)
    requires |sqn| >= 6 && |amf| >= 2
    ensures F1(aes, key, sqn[..6], rand, opc, amf) == F1(aes, key, sqn, rand, opc, amf)
  {
    hide Xor, Rotate, Encrypt;
    assert sqn[..6][0..6] == sqn[0..6];
  }

  /** The USIM that holds the same key accepts the vector and finds the sequence number it was
      made for and the AMF in AUTN; its response is the expected one and it derives the same key. */
  lemma UsimAccepts(aes: Cipher, kdf: Kdf, key: Block, opc: Block, amf: Bytes, sqn: nat, plmn: Bytes, rand: Block)
    requires |amf| == 2 && sqn < SQN_LIMIT
    ensures var v := GenerateEutranVector(aes, kdf, key, opc, amf, sqn, plmn, rand);
            && v.Some? && |v.value.autn| == 16 && v.value.autn[6..8] == amf && v.value.rand == rand
            && UsimCheck(aes, key, opc, rand, v.value.autn) == Some(sqn)
            && v.value.xres == F2F5(aes, key, rand, opc).0
            && v.value.kasme == UsimKasme(aes, kdf, key, opc, plmn, rand, v.value.autn)
  {
    hide GenerateEutranVector, UsimCheck, UsimKasme, F2F5, SqnBytes;
    SqnRoundTrip(sqn);
    UsimAcceptsAny(aes, kdf, key, opc, amf, sqn, plmn, rand);
  }
}

/** CRC-32 as `zlib.crc32` computes it (section 8 of RFC 1952), one bit of input at a time. */
module Crc32 {
  import opened Bytes

  // The reflected generator polynomial. Its top bit is set.
  const POLY: bv32 := 0xEDB8_8320
  const INITIAL: bv32 := 0xFFFF_FFFF

  function Shift(reg: bv32): bv32 {
    reg >> 1
  }

  function Xor(a: bv32, b: bv32): bv32 {
    a ^ b
  }

  predicate Odd(reg: bv32) {
    reg & 1 == 1
  }

  function Step(reg: bv32, bit: bool): bv32 {
    if Odd(reg) != bit then Xor(Shift(reg), POLY) else Shift(reg)
  }

  function Run(reg: bv32, bits: seq<bool>): bv32
    decreases |bits|
  {
    if bits == [] then reg else Run(Step(reg, bits[0]), bits[1..])
  }

  // Each byte goes in least significant bit first.
  function Stream(data: bytes): (s: seq<bool>)
    ensures |s| == 8 * |data|
  {
    if data == [] then [] else Bits(data[0]) + Stream(data[1..])
  }

  function Complement(reg: bv32): bv32 {
    reg ^ 0xFFFF_FFFF
  }

  function Crc(data: bytes): bv32 {
    Complement(Run(INITIAL, Stream(data)))
  }

  function LowByte(c: bv32): byte {
    FromBits([c & 1 != 0, c & 2 != 0, c & 4 != 0, c & 8 != 0, c & 16 != 0, c & 32 != 0, c & 64 != 0, c & 128 != 0])
  }

  // The register as four bytes, most significant first.
  function Pack(c: bv32): (b: bytes)
    ensures |b| == 4
  {
    [LowByte(c >> 24), LowByte(c >> 16), LowByte(c >> 8), LowByte(c)]
  }

  predicate SameLowByte(c: bv32, d: bv32) {
    c & 0xFF == d & 0xFF
  }

  lemma LowByteInjective(c: bv32, d: bv32)
    requires LowByte(c) == LowByte(d)
    ensures SameLowByte(c, d)
  {
    var s, t := Bits(LowByte(c)), Bits(LowByte(d));
    assert s[0] == t[0] && s[1] == t[1] && s[2] == t[2] && s[3] == t[3];
    assert s[4] == t[4] && s[5] == t[5] && s[6] == t[6] && s[7] == t[7];
  }

  lemma FourBytes(c: bv32, d: bv32)
    requires SameLowByte(c >> 24, d >> 24) && SameLowByte(c >> 16, d >> 16)
    requires SameLowByte(c >> 8, d >> 8) && SameLowByte(c, d)
    ensures c == d
  {
  }

  lemma PackInjective(c: bv32, d: bv32)
    requires Pack(c) == Pack(d)
    ensures c == d
  {
    hide LowByte, SameLowByte;
    var p, q := Pack(c), Pack(d);
    assert p[0] == q[0] && p[1] == q[1] && p[2] == q[2] && p[3] == q[3];
    LowByteInjective(c >> 24, d >> 24);
    LowByteInjective(c >> 16, d >> 16);
    LowByteInjective(c >> 8, d >> 8);
    LowByteInjective(c, d);
    FourBytes(c, d);
  }

  // The register's lowest `k` bits, least significant first.
  function BitsOf(c: bv32, k: nat): (s: seq<bool>)
    ensures |s| == k
    decreases k
  {
    if k == 0 then [] else [Odd(c)] + BitsOf(Shift(c), k - 1)
  }

  // The number those bits are.
  function Value(c: bv32, k: nat): nat {
    Number(BitsOf(c, k))
  }

  lemma OneMore(x: nat, n: nat, p: nat, t: nat)
    ensures x + 2 * (n + p * t) == x + 2 * n + (2 * p) * t
  {
  }

  lemma {:induction false} NumberOfJoined(s: seq<bool>, t: seq<bool>)
    ensures Number(s + t) == Number(s) + Pow2(|s|) * Number(t)
  {
    if s == [] {
      assert s + t == t;
    } else {
      assert (s + t)[1..] == s[1..] + t && (s + t)[0] == s[0];
      var x := if s[0] then 1 else 0;
      assert Number(s + t) == x + 2 * Number(s[1..] + t);
      assert Number(s) == x + 2 * Number(s[1..]) && Pow2(|s|) == 2 * Pow2(|s| - 1);
      hide Number, Pow2;
      NumberOfJoined(s[1..], t);
      OneMore(x, Number(s[1..]), Pow2(|s| - 1), Number(t));
    }
  }

  function Shift4(c: bv32): bv32 {
    c >> 4
  }

  function Shift8(c: bv32): bv32 {
    c >> 8
  }

  lemma TwoBits(c: bv32, k: nat)
    requires k >= 2
    ensures BitsOf(c, k) == [Odd(c), Odd(Shift(c))] + BitsOf(Shift(Shift(c)), k - 2)
  {
    hide Shift, Odd;
    assert BitsOf(Shift(c), k - 1) == [Odd(Shift(c))] + BitsOf(Shift(Shift(c)), k - 2);
  }

  function FourOdd(c: bv32): seq<bool> {
    [Odd(c), Odd(Shift(c)), Odd(Shift(Shift(c))), Odd(Shift(Shift(Shift(c))))]
  }

  lemma FourBits(c: bv32, k: nat)
    requires k >= 4
    ensures BitsOf(c, k)
         == FourOdd(c) + BitsOf(Shift4(c), k - 4)
  {
    assert Shift(Shift(Shift(Shift(c)))) == Shift4(c);
    hide Shift, Shift4, Odd, BitsOf;
    TwoBits(c, k);
    TwoBits(Shift(Shift(c)), k - 2);
  }

  lemma LowMasks(c: bv32)
    ensures Odd(c) <==> c & 1 != 0
    ensures Odd(Shift(c)) <==> c & 2 != 0
    ensures Odd(Shift(Shift(c))) <==> c & 4 != 0
    ensures Odd(Shift(Shift(Shift(c)))) <==> c & 8 != 0
  {
  }

  lemma HighMasks(c: bv32)
    ensures Shift4(c) & 1 != 0 <==> c & 16 != 0
    ensures Shift4(c) & 2 != 0 <==> c & 32 != 0
    ensures Shift4(c) & 4 != 0 <==> c & 64 != 0
    ensures Shift4(c) & 8 != 0 <==> c & 128 != 0
    ensures Shift4(Shift4(c)) == Shift8(c)
  {
  }

  function FirstEight(c: bv32): seq<bool>
  {
    [Odd(c), Odd(Shift(c)), Odd(Shift(Shift(c))), Odd(Shift(Shift(Shift(c)))),
     Odd(Shift4(c)), Odd(Shift(Shift4(c))), Odd(Shift(Shift(Shift4(c)))), Odd(Shift(Shift(Shift(Shift4(c)))))]
  }

  lemma LowByteBits(c: bv32)
    ensures Bits(LowByte(c)) == FirstEight(c)
  {
    hide Bits, Odd, Shift, Shift4, Shift8;
    LowMasks(c);
    LowMasks(Shift4(c));
    HighMasks(c);
  }

  lemma FirstFour(c: bv32)
    ensures FirstEight(c) == FourOdd(c) + FourOdd(Shift4(c))
  {
    hide Odd, Shift, Shift4;
  }

  lemma LowByteFirst(c: bv32, k: nat)
    requires k >= 8
    ensures BitsOf(c, k) == Bits(LowByte(c)) + BitsOf(Shift8(c), k - 8)
  {
    hide Bits, BitsOf, Odd, Shift, Shift4, Shift8, LowByte, FourOdd;
    FourBits(c, k);
    FourBits(Shift4(c), k - 4);
    assert Shift4(Shift4(c)) == Shift8(c) by { HighMasks(c); }
    LowByteBits(c);
    hide FirstEight;
    FirstFour(c);
  }

  // The lowest byte is the number's last digit to base 256.
  lemma ByteOut(c: bv32, k: nat)
    requires k >= 8
    ensures Value(c, k) == LowByte(c) + 0x100 * Value(Shift8(c), k - 8)
  {
    hide LowByte, BitsOf, Number, Shift8;
    LowByteFirst(c, k);
    NumberOfJoined(Bits(LowByte(c)), BitsOf(Shift8(c), k - 8));
    assert Pow2(8) == 0x100;
    NumberDigits(LowByte(c), 8);
  }

  lemma WholeBytes(c: bv32)
    ensures Shift8(c) == c >> 8 && Shift8(Shift8(c)) == c >> 16 && Shift8(Shift8(Shift8(c))) == c >> 24
  {
  }

  lemma PackedBytes(c: bv32)
    ensures Pack(c) == [LowByte(Shift8(Shift8(Shift8(c)))), LowByte(Shift8(Shift8(c))), LowByte(Shift8(c)), LowByte(c)]
  {
    hide LowByte;
    WholeBytes(c);
    hide Shift8;
  }

  lemma NoBits(c: bv32)
    ensures Value(c, 0) == 0
  {
  }

  // Read most significant byte first, the four bytes are the register as a number.
  lemma PackIsBigEndian(c: bv32)
    ensures var b := Pack(c);
      Value(c, 32) == b[0] as int * 0x100_0000 + b[1] as int * 0x1_0000 + b[2] as int * 0x100 + b[3] as int
  {
    hide LowByte, Pack, Shift8, Value;
    PackedBytes(c);
    ByteOut(c, 32);
    ByteOut(Shift8(c), 24);
    ByteOut(Shift8(Shift8(c)), 16);
    ByteOut(Shift8(Shift8(Shift8(c))), 8);
    assert Value(Shift8(Shift8(Shift8(Shift8(c)))), 0) == 0 by { NoBits(Shift8(Shift8(Shift8(Shift8(c))))); }
  }

  lemma {:induction false} RunConcat(reg: bv32, a: seq<bool>, b: seq<bool>)
    ensures Run(reg, a + b) == Run(Run(reg, a), b)
    decreases |a|
  {
    hide Step;
    if a == [] {
      assert a + b == b;
    } else {
      assert (a + b)[1..] == a[1..] + b;
      RunConcat(Step(reg, a[0]), a[1..], b);
    }
  }

  lemma {:induction false} StreamConcat(a: bytes, b: bytes)
    ensures Stream(a + b) == Stream(a) + Stream(b)
  {
    if a == [] {
      assert a + b == b;
    } else {
      assert (a + b)[1..] == a[1..] + b;
      StreamConcat(a[1..], b);
    }
  }

  lemma {:induction false} StreamInjective(a: bytes, b: bytes)
    requires Stream(a) == Stream(b)
    ensures a == b
  {
    assert |a| == |b|;
    if a != [] {
      assert Bits(a[0]) == Stream(a)[..8] == Stream(b)[..8] == Bits(b[0]);
      BitsInjective(a[0], b[0]);
      assert Stream(a[1..]) == Stream(a)[8..] == Stream(b)[8..] == Stream(b[1..]);
      StreamInjective(a[1..], b[1..]);
      assert a == [a[0]] + a[1..] && b == [b[0]] + b[1..];
    }
  }

  // The top bit of POLY tells which branch a step took, so a step can be undone.
  lemma StepInjective(a: bv32, b: bv32, bit: bool)
    requires Step(a, bit) == Step(b, bit)
    ensures a == b
  {
  }

  // Equal input never brings two different registers together.
  lemma {:induction false} RunInjective(a: bv32, b: bv32, bits: seq<bool>)
    requires Run(a, bits) == Run(b, bits)
    ensures a == b
    decreases |bits|
  {
    hide Step;
    if bits != [] {
      RunInjective(Step(a, bits[0]), Step(b, bits[0]), bits[1..]);
      StepInjective(a, b, bits[0]);
    }
  }

  // Some bit of `d` at position k or above is set: `d >> k` is not zero.
  predicate High(d: bv32, k: nat)
    decreases k
  {
    if k == 0 then d != 0 else High(Shift(d), k - 1)
  }

  function Double(m: bv32): bv32 {
    m << 1
  }

  function Single(k: nat): bv32 {
    if k == 0 then 1 else Double(Single(k - 1))
  }

  predicate Meet(d: bv32, m: bv32) {
    d & m != 0
  }

  lemma ShiftBoth(d: bv32, m: bv32)
    requires Meet(d, Double(m))
    ensures Meet(Shift(d), m)
  {
  }

  lemma MeetOne(d: bv32)
    requires Meet(d, 1)
    ensures d != 0
  {
  }

  lemma {:induction false} SingleIsHigh(d: bv32, k: nat)
    requires Meet(d, Single(k))
    ensures High(d, k)
    decreases k
  {
    hide Meet, Double, Shift;
    if k == 0 {
      MeetOne(d);
    } else {
      ShiftBoth(d, Single(k - 1));
      SingleIsHigh(Shift(d), k - 1);
    }
  }

  lemma {:induction false} HighIsLower(d: bv32, k: nat, j: nat)
    requires High(d, k) && j <= k
    ensures High(d, j)
    decreases k
  {
    if j > 0 {
      HighIsLower(Shift(d), k - 1, j - 1);
    } else if k > 0 {
      HighIsLower(Shift(d), k - 1, 0);
    }
  }

  lemma SingleTop()
    ensures Single(31) == 0x8000_0000
  {
    assert Single(3) == 0x8;
    assert Single(6) == 0x40;
    assert Single(9) == 0x200;
    assert Single(12) == 0x1000;
    assert Single(15) == 0x8000;
    assert Single(18) == 0x4_0000;
    assert Single(21) == 0x20_0000;
    assert Single(24) == 0x100_0000;
    assert Single(27) == 0x800_0000;
    assert Single(30) == 0x4000_0000;
  }

  lemma TopIsHigh(d: bv32, k: nat)
    requires Meet(d, 0x8000_0000) && k <= 31
    ensures High(d, k)
  {
    hide *;
    SingleTop();
    SingleIsHigh(d, 31);
    HighIsLower(d, 31, k);
  }

  lemma XorFacts(a: bv32, b: bv32)
    ensures Xor(Shift(a), Shift(b)) == Shift(Xor(a, b))
    ensures Xor(Xor(Shift(a), POLY), Xor(Shift(b), POLY)) == Shift(Xor(a, b))
  {
  }

  lemma XorTop(a: bv32, b: bv32)
    ensures Meet(Xor(Shift(a), Xor(Shift(b), POLY)), 0x8000_0000)
    ensures Meet(Xor(Xor(Shift(a), POLY), Shift(b)), 0x8000_0000)
  {
  }

  // One step shifts the difference of two registers down and may put POLY, hence the top bit, back in.
  lemma StepDifference(a: bv32, b: bv32, x: bool, y: bool)
    ensures var d := Xor(Step(a, x), Step(b, y)); d == Shift(Xor(a, b)) || Meet(d, 0x8000_0000)
    ensures a == b && x != y ==> Meet(Xor(Step(a, x), Step(b, y)), 0x8000_0000)
  {
    hide Shift, Xor, Odd, Meet;
    XorFacts(a, b);
    XorTop(a, b);
  }

  lemma StepKeepsHigh(a: bv32, b: bv32, x: bool, y: bool, k: nat)
    requires 1 <= k <= 31 && High(Xor(a, b), k)
    ensures High(Xor(Step(a, x), Step(b, y)), k - 1)
  {
    hide Step, Meet, Xor, Shift;
    var d := Xor(Step(a, x), Step(b, y));
    StepDifference(a, b, x, y);
    if d != Shift(Xor(a, b)) {
      TopIsHigh(d, k - 1);
    }
  }

  lemma XorApart(a: bv32, b: bv32)
    requires High(Xor(a, b), 0)
    ensures a != b
  {
  }

  // Registers whose difference reaches up to bit k stay apart for k more bits, whatever the input.
  lemma {:induction false} StayApart(a: bv32, b: bv32, x: seq<bool>, y: seq<bool>)
    requires |x| == |y| <= 31 && High(Xor(a, b), |x|)
    ensures Run(a, x) != Run(b, y)
    decreases |x|
  {
    hide Step, High, Xor;
    if x == [] {
      XorApart(a, b);
    } else {
      StepKeepsHigh(a, b, x[0], y[0], |x|);
      StayApart(Step(a, x[0]), Step(b, y[0]), x[1..], y[1..]);
    }
  }

  // From one register, two different inputs of at most 32 bits lead to different registers.
  lemma {:induction false} BurstApart(reg: bv32, x: seq<bool>, y: seq<bool>)
    requires |x| == |y| <= 32 && x != y
    ensures Run(reg, x) != Run(reg, y)
    decreases |x|
  {
    hide Step, High, Meet, Xor;
    assert x == [x[0]] + x[1..] && y == [y[0]] + y[1..];
    var a, b := Step(reg, x[0]), Step(reg, y[0]);
    if x[0] == y[0] {
      BurstApart(a, x[1..], y[1..]);
    } else {
      StepDifference(reg, reg, x[0], y[0]);
      TopIsHigh(Xor(a, b), |x| - 1);
      StayApart(a, b, x[1..], y[1..]);
    }
  }

  lemma ComplementInjective(a: bv32, b: bv32)
    requires Complement(a) == Complement(b)
    ensures a == b
  {
  }

  lemma CrcSplit(before: bytes, x: bytes, after: bytes)
    ensures Crc(before + x + after) == Complement(Run(Run(Run(INITIAL, Stream(before)), Stream(x)), Stream(after)))
  {
    hide Run, Stream, Complement;
    StreamConcat(before + x, after);
    StreamConcat(before, x);
    RunConcat(INITIAL, Stream(before) + Stream(x), Stream(after));
    RunConcat(INITIAL, Stream(before), Stream(x));
  }

  // Data that differ only within four consecutive bytes have different CRCs.
  lemma CrcDetectsBurst(before: bytes, x: bytes, y: bytes, after: bytes)
    requires |x| == |y| <= 4 && x != y
    ensures Crc(before + x + after) != Crc(before + y + after)
  {
    hide *;
    var reg := Run(INITIAL, Stream(before));
    var a, b := Run(reg, Stream(x)), Run(reg, Stream(y));
    if Stream(x) == Stream(y) {
      StreamInjective(x, y);
    }
    BurstApart(reg, Stream(x), Stream(y));
    CrcSplit(before, x, after);
    CrcSplit(before, y, after);
    if Crc(before + x + after) == Crc(before + y + after) {
      ComplementInjective(Run(a, Stream(after)), Run(b, Stream(after)));
      RunInjective(a, b, Stream(after));
    }
  }

  function Step8(reg: bv32, s: seq<bool>): bv32
    requires |s| == 8
  {
    Step(Step(Step(Step(Step(Step(Step(Step(reg, s[0]), s[1]), s[2]), s[3]), s[4]), s[5]), s[6]), s[7])
  }

  lemma Run4(reg: bv32, s: seq<bool>)
    requires |s| >= 4
    ensures Run(reg, s) == Run(Step(Step(Step(Step(reg, s[0]), s[1]), s[2]), s[3]), s[4..])
  {
    hide Step;
    var two := Step(Step(reg, s[0]), s[1]);
    assert s[1..][1..] == s[2..] && s[2..][1..][1..] == s[4..];
    assert Run(reg, s) == Run(two, s[2..]);
    assert Run(two, s[2..]) == Run(Step(Step(two, s[2]), s[3]), s[2..][1..][1..]);
  }

  lemma ByteStep(reg: bv32, data: bytes)
    requires data != []
    ensures Run(reg, Stream(data)) == Run(Step8(reg, Bits(data[0])), Stream(data[1..]))
  {
    hide Step, Bits;
    var s := Bits(data[0]);
    RunConcat(reg, s, Stream(data[1..]));
    Run4(reg, s);
    Run4(Step(Step(Step(Step(reg, s[0]), s[1]), s[2]), s[3]), s[4..]);
  }

  lemma EmptyRun(reg: bv32)
    ensures Run(reg, Stream([])) == reg
  {
  }

  lemma BitsAre(s: seq<bool>, b: byte)
    requires |s| == 8 && Number(s) == b
    ensures Bits(b) == s
  {
    DigitsNumber(s);
  }

  lemma CheckBits()
    ensures Bits(0x31) == [true, false, false, false, true, true, false, false]
    ensures Bits(0x32) == [false, true, false, false, true, true, false, false]
    ensures Bits(0x33) == [true, true, false, false, true, true, false, false]
    ensures Bits(0x34) == [false, false, true, false, true, true, false, false]
    ensures Bits(0x35) == [true, false, true, false, true, true, false, false]
    ensures Bits(0x36) == [false, true, true, false, true, true, false, false]
    ensures Bits(0x37) == [true, true, true, false, true, true, false, false]
    ensures Bits(0x38) == [false, false, false, true, true, true, false, false]
    ensures Bits(0x39) == [true, false, false, true, true, true, false, false]
  {
    hide Bits;
    BitsAre([true, false, false, false, true, true, false, false], 0x31);
    BitsAre([false, true, false, false, true, true, false, false], 0x32);
    BitsAre([true, true, false, false, true, true, false, false], 0x33);
    BitsAre([false, false, true, false, true, true, false, false], 0x34);
    BitsAre([true, false, true, false, true, true, false, false], 0x35);
    BitsAre([false, true, true, false, true, true, false, false], 0x36);
    BitsAre([true, true, true, false, true, true, false, false], 0x37);
    BitsAre([false, false, false, true, true, true, false, false], 0x38);
    BitsAre([true, false, false, true, true, true, false, false], 0x39);
  }

  lemma CheckSteps123()
    ensures Step8(0xFFFFFFFF, [true, false, false, false, true, true, false, false]) == 0x7C231048
    ensures Step8(0x7C231048, [false, true, false, false, true, true, false, false]) == 0xB0ACBB32
    ensures Step8(0xB0ACBB32, [true, true, false, false, true, true, false, false]) == 0x77B79C2D
  {
  }

  lemma CheckSteps456()
    ensures Step8(0x77B79C2D, [false, false, true, false, true, true, false, false]) == 0x641C1F5C
    ensures Step8(0x641C1F5C, [true, false, true, false, true, true, false, false]) == 0x340AC5E3
    ensures Step8(0x340AC5E3, [false, true, true, false, true, true, false, false]) == 0xF68D2C9E
  {
  }

  lemma CheckSteps789()
    ensures Step8(0xF68D2C9E, [true, true, true, false, true, true, false, false]) == 0xAFFC9660
    ensures Step8(0xAFFC9660, [false, false, false, true, true, true, false, false]) == 0x651F2550
    ensures Step8(0x651F2550, [true, false, false, true, true, true, false, false]) == 0x340BC6D9
  {
  }

  // The value every definition of CRC-32 quotes as its check: the CRC of "123456789".
  lemma CheckValue()
    ensures Crc([0x31, 0x32, 0x33, 0x34, 0x35, 0x36, 0x37, 0x38, 0x39]) == 0xCBF4_3926
  {
    hide Step8, Bits, Run, Stream;
    var data: bytes := [0x31, 0x32, 0x33, 0x34, 0x35, 0x36, 0x37, 0x38, 0x39];
    ByteStep(0xFFFFFFFF, data[0..]);
    assert data[0..][0] == 0x31 && data[0..][1..] == data[1..];
    ByteStep(0x7C231048, data[1..]);
    assert data[1..][0] == 0x32 && data[1..][1..] == data[2..];
    ByteStep(0xB0ACBB32, data[2..]);
    assert data[2..][0] == 0x33 && data[2..][1..] == data[3..];
    ByteStep(0x77B79C2D, data[3..]);
    assert data[3..][0] == 0x34 && data[3..][1..] == data[4..];
    ByteStep(0x641C1F5C, data[4..]);
    assert data[4..][0] == 0x35 && data[4..][1..] == data[5..];
    ByteStep(0x340AC5E3, data[5..]);
    assert data[5..][0] == 0x36 && data[5..][1..] == data[6..];
    ByteStep(0xF68D2C9E, data[6..]);
    assert data[6..][0] == 0x37 && data[6..][1..] == data[7..];
    ByteStep(0xAFFC9660, data[7..]);
    assert data[7..][0] == 0x38 && data[7..][1..] == data[8..];
    ByteStep(0x651F2550, data[8..]);
    assert data[8..][0] == 0x39 && data[8..][1..] == data[9..];
    CheckBits();
    CheckSteps123();
    CheckSteps456();
    CheckSteps789();
    assert data[0..] == data && data[9..] == [];
    EmptyRun(0x340BC6D9);
  }

  lemma SyncBits()
    ensures Bits(0xAA) == [false, true, false, true, false, true, false, true]
    ensures Bits(0x55) == [true, false, true, false, true, false, true, false]
  {
    hide Bits;
    BitsAre([false, true, false, true, false, true, false, true], 0xAA);
    BitsAre([true, false, true, false, true, false, true, false], 0x55);
  }

  lemma FieldBits()
    ensures Bits(0x01) == [true, false, false, false, false, false, false, false]
    ensures Bits(0x30) == [false, false, false, false, true, true, false, false]
    ensures Bits(0x00) == [false, false, false, false, false, false, false, false]
  {
    hide Bits;
    BitsAre([true, false, false, false, false, false, false, false], 0x01);
    BitsAre([false, false, false, false, true, true, false, false], 0x30);
    BitsAre([false, false, false, false, false, false, false, false], 0x00);
  }

  lemma HeaderSteps()
    ensures Step8(0xFFFFFFFF, [false, true, false, true, false, true, false, true]) == 0x1BFE5A84
    ensures Step8(0x1BFE5A84, [true, false, true, false, true, false, true, false]) == 0xF1CF1C18
    ensures Step8(0xF1CF1C18, [true, false, false, false, false, false, false, false]) == 0x649A67DC
    ensures Step8(0x649A67DC, [false, false, false, false, true, true, false, false]) == 0xA9D83434
  {
  }

  lemma ZeroSteps()
    ensures var zero := [false, false, false, false, false, false, false, false];
      && Step8(0xA9D83434, zero) == 0x211D2C81 && Step8(0x211D2C81, zero) == 0x9A9EAE9A
      && Step8(0x9A9EAE9A, zero) == 0x1040E4F4 && Step8(0x1040E4F4, zero) == 0xBAC076E1
  {
  }

  lemma LastSteps()
    ensures var zero := [false, false, false, false, false, false, false, false];
      && Step8(0xBAC076E1, zero) == 0xD7B71298 && Step8(0xD7B71298, zero) == 0xFE03AC64
      && Step8(0xFE03AC64, zero) == 0x4A21A6ED
  {
  }

  // The CRC of the header of an empty frame of type 0x30 under number 0.
  lemma HeaderValue()
    ensures Crc([0xAA, 0x55, 0x01, 0x30, 0, 0, 0, 0, 0, 0, 0]) == 0xB5DE_5912
  {
    hide Step8, Bits, Run, Stream;
    var data: bytes := [0xAA, 0x55, 0x01, 0x30, 0, 0, 0, 0, 0, 0, 0];
    ByteStep(0xFFFFFFFF, data[0..]);
    assert data[0..][0] == 0xAA && data[0..][1..] == data[1..];
    ByteStep(0x1BFE5A84, data[1..]);
    assert data[1..][0] == 0x55 && data[1..][1..] == data[2..];
    ByteStep(0xF1CF1C18, data[2..]);
    assert data[2..][0] == 0x01 && data[2..][1..] == data[3..];
    ByteStep(0x649A67DC, data[3..]);
    assert data[3..][0] == 0x30 && data[3..][1..] == data[4..];
    ByteStep(0xA9D83434, data[4..]);
    assert data[4..][0] == 0 && data[4..][1..] == data[5..];
    ByteStep(0x211D2C81, data[5..]);
    assert data[5..][0] == 0 && data[5..][1..] == data[6..];
    ByteStep(0x9A9EAE9A, data[6..]);
    assert data[6..][0] == 0 && data[6..][1..] == data[7..];
    ByteStep(0x1040E4F4, data[7..]);
    assert data[7..][0] == 0 && data[7..][1..] == data[8..];
    ByteStep(0xBAC076E1, data[8..]);
    assert data[8..][0] == 0 && data[8..][1..] == data[9..];
    ByteStep(0xD7B71298, data[9..]);
    assert data[9..][0] == 0 && data[9..][1..] == data[10..];
    ByteStep(0xFE03AC64, data[10..]);
    assert data[10..][0] == 0 && data[10..][1..] == data[11..];
    SyncBits();
    FieldBits();
    HeaderSteps();
    ZeroSteps();
    LastSteps();
    assert data[0..] == data && data[11..] == [];
    EmptyRun(0x4A21A6ED);
  }

  lemma HighBytes()
    ensures LowByte(0xB5) == 0xB5 && LowByte(0xB5DE) == 0xDE
  {
    hide FromBits;
    BitsAre([true, false, true, false, true, true, false, true], 0xB5);
    BitsInjective(0xB5, LowByte(0xB5));
    BitsAre([false, true, true, true, true, false, true, true], 0xDE);
    BitsInjective(0xDE, LowByte(0xB5DE));
  }

  lemma LowBytes()
    ensures LowByte(0xB5DE59) == 0x59 && LowByte(0xB5DE5912) == 0x12
  {
    hide FromBits;
    BitsAre([true, false, false, true, true, false, true, false], 0x59);
    BitsInjective(0x59, LowByte(0xB5DE59));
    BitsAre([false, true, false, false, true, false, false, false], 0x12);
    BitsInjective(0x12, LowByte(0xB5DE5912));
  }

  // And the four bytes it is sent as.
  lemma HeaderValuePacked()
    ensures Pack(0xB5DE_5912) == [0xB5, 0xDE, 0x59, 0x12]
  {
    hide LowByte;
    HighBytes();
    LowBytes();
  }
}

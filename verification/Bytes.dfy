/** Bytes, the big-endian fields that `struct.pack("!...")` lays out, and single-bit flips. */
module Bytes {
  type byte = b: int | 0 <= b < 0x100
  type bytes = seq<byte>

  const U16: nat := 0x1_0000
  const U32: nat := 0x1_0000_0000

  function UnpackU16(b: bytes): (n: nat)
    requires |b| == 2
    ensures n < U16
  {
    var hi: nat, lo: nat := b[0], b[1];
    hi * 0x100 + lo
  }

  function PackU16(n: nat): (b: bytes)
    requires n < U16
    ensures |b| == 2 && UnpackU16(b) == n
  {
    [n / 0x100, n % 0x100]
  }

  function UnpackU32(b: bytes): (n: nat)
    requires |b| == 4
    ensures n < U32
  {
    UnpackU16(b[..2]) * U16 + UnpackU16(b[2..])
  }

  function PackU32(n: nat): (b: bytes)
    requires n < U32
    ensures |b| == 4 && UnpackU32(b) == n
  {
    PackU16(n / U16) + PackU16(n % U16)
  }

  // Packing writes the most significant byte first.
  lemma FieldsAreBigEndian(n: nat, len: nat)
    requires n < U32 && len < U16
    ensures var b := PackU32(n);
      n == b[0] as int * 0x100_0000 + b[1] as int * 0x1_0000 + b[2] as int * 0x100 + b[3] as int
    ensures var b := PackU16(len); len == b[0] as int * 0x100 + b[1] as int
  {
  }

  lemma UnpackIsBigEndian(b: bytes)
    ensures |b| == 2 ==> UnpackU16(b) == b[0] as int * 0x100 + b[1] as int
    ensures |b| == 4 ==>
      UnpackU32(b) == b[0] as int * 0x100_0000 + b[1] as int * 0x1_0000 + b[2] as int * 0x100 + b[3] as int
  {
  }

  // Different fields hold different numbers, so packing also undoes unpacking.
  lemma UnpackU16Injective(a: bytes, b: bytes)
    requires |a| == |b| == 2 && UnpackU16(a) == UnpackU16(b)
    ensures a == b
  {
  }

  lemma UnpackU32Injective(a: bytes, b: bytes)
    requires |a| == |b| == 4 && UnpackU32(a) == UnpackU32(b)
    ensures a == b
  {
    UnpackU16Injective(a[..2], b[..2]);
    UnpackU16Injective(a[2..], b[2..]);
    assert a == a[..2] + a[2..] && b == b[..2] + b[2..];
  }

  // The lowest `k` binary digits of `n`, least significant first.
  function Digits(n: nat, k: nat): (s: seq<bool>)
    ensures |s| == k
  {
    if k == 0 then [] else [n % 2 == 1] + Digits(n / 2, k - 1)
  }

  function Number(s: seq<bool>): nat {
    if s == [] then 0 else (if s[0] then 1 else 0) + 2 * Number(s[1..])
  }

  function Pow2(k: nat): nat {
    if k == 0 then 1 else 2 * Pow2(k - 1)
  }

  lemma {:induction false} NumberDigits(n: nat, k: nat)
    requires n < Pow2(k)
    ensures Number(Digits(n, k)) == n
  {
    if k > 0 {
      NumberDigits(n / 2, k - 1);
      assert Digits(n, k)[1..] == Digits(n / 2, k - 1);
    }
  }

  lemma {:induction false} DigitsNumber(s: seq<bool>)
    ensures Number(s) < Pow2(|s|)
    ensures Digits(Number(s), |s|) == s
  {
    if s != [] {
      DigitsNumber(s[1..]);
      assert s == [s[0]] + s[1..];
    }
  }

  function Bits(b: byte): (s: seq<bool>)
    ensures |s| == 8
  {
    Digits(b, 8)
  }

  function FromBits(s: seq<bool>): (b: byte)
    requires |s| == 8
    ensures Bits(b) == s
  {
    DigitsNumber(s);
    assert Pow2(8) == 0x100;
    Number(s)
  }

  lemma BitsInjective(a: byte, b: byte)
    requires Bits(a) == Bits(b)
    ensures a == b
  {
    assert Pow2(8) == 0x100;
    NumberDigits(a, 8);
    NumberDigits(b, 8);
  }

  // A byte with its bit k flipped.
  function FlipBit(b: byte, k: nat): (r: byte)
    requires k < 8
    ensures r != b
    ensures Bits(r) == Bits(b)[k := !Bits(b)[k]]
  {
    var s := Bits(b);
    var r := FromBits(s[k := !s[k]]);
    assert Bits(r)[k] != s[k];
    r
  }

  function Flip(data: bytes, i: nat, k: nat): (r: bytes)
    requires i < |data| && k < 8
    ensures |r| == |data| && r[i] != data[i]
    ensures forall j :: 0 <= j < |data| && j != i ==> r[j] == data[j]
  {
    data[i := FlipBit(data[i], k)]
  }
}

/**
 * CRC-32 as zlib computes it (the ISO 3309 / ITU-T V.42 polynomial, in the
 * reflected bit order of section 8 of RFC 1952), and the two hexadecimal
 * renderings the tools print: `hex(crc)[2:]` and `f"{crc:08x}"`.
 */
module Crc32 {
  import opened Common

  /** The reflected generator polynomial. */
  const Polynomial: bv32 := 0xEDB8_8320

  /** One shift of the CRC register. */
  function Shift(c: bv32): bv32
  {
    if c & 1 == 1 then (c >> 1) ^ Polynomial else c >> 1
  }

  /** Eight shifts: the register after absorbing one byte. */
  function Absorb(c: bv32, b: byte): bv32
  {
    var x := c ^ (b as bv32);
    Shift(Shift(Shift(Shift(Shift(Shift(Shift(Shift(x))))))))
  }

  /** The register after absorbing `data` byte by byte, left to right. */
  function Register(c: bv32, data: seq<byte>): bv32
    decreases |data|
  {
    if data == [] then c else Register(Absorb(c, data[0]), data[1..])
  }

  /** `zlib.crc32(data, prev)`: continue a checksum over more data. */
  function Update(prev: bv32, data: seq<byte>): bv32
  {
    Register(prev ^ 0xFFFF_FFFF, data) ^ 0xFFFF_FFFF
  }

  /** `zlib.crc32(data)`: the checksum of a whole buffer. */
  function Checksum(data: seq<byte>): bv32
  {
    Update(0, data)
  }

  lemma {:induction false} RegisterAppend(c: bv32, a: seq<byte>, b: seq<byte>)
    ensures Register(c, a + b) == Register(Register(c, a), b)
    decreases |a|
  {
    if a == [] {
      assert a + b == b;
    } else {
      assert (a + b)[1..] == a[1..] + b;
      RegisterAppend(Absorb(c, a[0]), a[1..], b);
    }
  }

  /** Feeding the data in two pieces gives the one-shot checksum. */
  lemma UpdateAppend(prev: bv32, a: seq<byte>, b: seq<byte>)
    ensures Update(Update(prev, a), b) == Update(prev, a + b)
  {
    var r := Register(prev ^ 0xFFFF_FFFF, a);
    RegisterAppend(prev ^ 0xFFFF_FFFF, a, b);
    Resume(r, b);
  }

  /** Finishing a register and starting again from the result continues it. */
  lemma Resume(r: bv32, b: seq<byte>)
    ensures Update(r ^ 0xFFFF_FFFF, b) == Register(r, b) ^ 0xFFFF_FFFF
  {
    XorTwice(r);
  }

  lemma XorTwice(x: bv32)
    ensures (x ^ 0xFFFF_FFFF) ^ 0xFFFF_FFFF == x
  {
  }

  /** The checksum of no data is 0. */
  lemma ChecksumEmpty()
    ensures Checksum([]) == 0
  {
  }

  /** The standard check value: the checksum of the ASCII text "123456789". */
  lemma CheckValue()
    ensures Checksum([0x31, 0x32, 0x33, 0x34, 0x35, 0x36, 0x37, 0x38, 0x39]) == 0xCBF4_3926
  {
  }

  // ---------------------------------------------------------------------
  // Hexadecimal renderings

  function HexDigit(d: nat): (c: char)
    requires d < 16
    ensures ('0' <= c <= '9') || ('a' <= c <= 'f')
  {
    if d < 10 then ('0' as int + d) as char else ('a' as int + d - 10) as char
  }

  function DigitValue(c: char): nat
  {
    if '0' <= c <= '9' then c as int - '0' as int
    else if 'a' <= c <= 'f' then c as int - 'a' as int + 10
    else 0
  }

  predicate IsHex(s: string)
  {
    forall i :: 0 <= i < |s| ==> ('0' <= s[i] <= '9') || ('a' <= s[i] <= 'f')
  }

  /** The number a string of lowercase hexadecimal digits denotes. */
  function HexValue(s: string): nat
  {
    if s == [] then 0 else HexValue(s[..|s| - 1]) * 16 + DigitValue(s[|s| - 1])
  }

  /** Python `hex(n)[2:]`: lowercase digits, no padding, "0" for zero. */
  function Hex(n: nat): (s: string)
    ensures s != [] && IsHex(s)
    ensures HexValue(s) == n
    ensures n != 0 ==> s[0] != '0'
  {
    if n < 16 then [HexDigit(n)]
    else
      var s := Hex(n / 16) + [HexDigit(n % 16)];
      assert s[..|s| - 1] == Hex(n / 16);
      s
  }

  lemma {:induction false} HexLength(n: nat, k: nat)
    requires n < Pow16(k) && k >= 1
    ensures |Hex(n)| <= k
  {
    if n >= 16 {
      HexLength(n / 16, k - 1);
    }
  }

  function Pow16(k: nat): nat
  {
    if k == 0 then 1 else 16 * Pow16(k - 1)
  }

  /** `hex(zlib.crc32(data))[2:]`: between one and eight digits. */
  function HashFromBytes(data: seq<byte>): (s: string)
    ensures 1 <= |s| <= 8 && IsHex(s)
    ensures HexValue(s) == Checksum(data) as nat
  {
    var n := Checksum(data) as nat;
    assert Pow16(8) == 0x1_0000_0000;
    HexLength(n, 8);
    Hex(n)
  }

  lemma HashFromBytesEmpty()
    ensures HashFromBytes([]) == "0"
  {
    ChecksumEmpty();
  }

  /** `f"{n:08x}"`: at least eight digits, zero-padded on the left. */
  function Hex8(n: nat): (s: string)
    ensures |s| >= 8 && IsHex(s)
    ensures HexValue(s) == n
  {
    var h := Hex(n);
    var pad := seq(if |h| < 8 then 8 - |h| else 0, _ => '0');
    ZeroPadValue(pad, h);
    pad + h
  }

  lemma {:induction false} ZeroPadValue(pad: string, h: string)
    requires forall i :: 0 <= i < |pad| ==> pad[i] == '0'
    ensures HexValue(pad + h) == HexValue(h)
    decreases |h|
  {
    if h == [] {
      assert pad + h == pad;
      ZerosValue(pad);
    } else {
      assert (pad + h)[..|pad + h| - 1] == pad + h[..|h| - 1];
      ZeroPadValue(pad, h[..|h| - 1]);
    }
  }

  lemma {:induction false} ZerosValue(pad: string)
    requires forall i :: 0 <= i < |pad| ==> pad[i] == '0'
    ensures HexValue(pad) == 0
  {
    if pad != [] {
      ZerosValue(pad[..|pad| - 1]);
    }
  }

  /** A 32-bit value renders as exactly eight digits. */
  lemma Hex8Width(n: nat)
    requires n < 0x1_0000_0000
    ensures |Hex8(n)| == 8
  {
    assert Pow16(8) == 0x1_0000_0000;
    HexLength(n, 8);
  }
}

/**
 * UTF-8 as Python's `str.encode('utf-8')` and `bytes.decode('utf-8',
 * 'replace')` use it (RFC 3629; the decoder replaces each maximal ill-formed
 * subpart by one U+FFFD, as section 3.9 of the Unicode Standard recommends).
 */
module Utf8 {

  type Byte = b: int | 0 <= b < 256

  const ReplacementChar: char := '\U{FFFD}'

  /** The UTF-8 bytes of one scalar value. */
  function EncodeChar(c: char): (bs: seq<Byte>)
    ensures 1 <= |bs| <= 4
    ensures (|bs| == 1) == (c as int < 0x80)
  {
    var n := c as int;
    if n < 0x80 then [n]
    else if n < 0x800 then [0xC0 + n / 64, 0x80 + n % 64]
    else if n < 0x10000 then [0xE0 + n / 4096, 0x80 + (n / 64) % 64, 0x80 + n % 64]
    else [0xF0 + n / 262144, 0x80 + (n / 4096) % 64, 0x80 + (n / 64) % 64, 0x80 + n % 64]
  }

  /** `s.encode('utf-8')`. */
  function Encode(s: string): seq<Byte> {
    if s == "" then [] else EncodeChar(s[0]) + Encode(s[1..])
  }

  predicate IsContinuation(b: Byte) {
    0x80 <= b <= 0xBF
  }

  /** Length of the well-formed sequence a lead byte announces; 0 for a byte that cannot start one. */
  function SequenceLength(b: Byte): nat {
    if b < 0x80 then 1
    else if 0xC2 <= b <= 0xDF then 2
    else if 0xE0 <= b <= 0xEF then 3
    else if 0xF0 <= b <= 0xF4 then 4
    else 0
  }

  /** The range allowed for the byte after a multi-byte lead (Table 3-7 of the Unicode Standard). */
  function SecondLow(b: Byte): Byte {
    if b == 0xE0 then 0xA0 else if b == 0xF0 then 0x90 else 0x80
  }

  function SecondHigh(b: Byte): Byte {
    if b == 0xED then 0x9F else if b == 0xF4 then 0x8F else 0xBF
  }

  /**
   * How many bytes at the front of `bs` belong to the sequence its lead byte
   * starts, counting only bytes that can still be part of a well-formed one.
   */
  function PrefixLength(bs: seq<Byte>): (k: nat)
    requires |bs| >= 1 && SequenceLength(bs[0]) >= 2
    ensures 1 <= k <= SequenceLength(bs[0]) && k <= |bs|
  {
    var n := SequenceLength(bs[0]);
    if |bs| < 2 || !(SecondLow(bs[0]) <= bs[1] <= SecondHigh(bs[0])) then 1
    else if n == 2 then 2
    else if |bs| < 3 || !IsContinuation(bs[2]) then 2
    else if n == 3 then 3
    else if |bs| < 4 || !IsContinuation(bs[3]) then 3
    else 4
  }

  /** The scalar value of a complete well-formed multi-byte sequence. */
  function ScalarOf(bs: seq<Byte>): char
    requires |bs| >= 1 && SequenceLength(bs[0]) >= 2
    requires PrefixLength(bs) == SequenceLength(bs[0])
  {
    var n := SequenceLength(bs[0]);
    if n == 2 then
      ((bs[0] as int - 0xC0) * 64 + (bs[1] as int - 0x80)) as char
    else if n == 3 then
      var v := (bs[0] as int - 0xE0) * 4096 + (bs[1] as int - 0x80) * 64 + (bs[2] as int - 0x80);
      assert bs[0] == 0xE0 ==> v >= 0x800;
      assert bs[0] == 0xED ==> v < 0xD800;
      v as char
    else
      var v := (bs[0] as int - 0xF0) * 262144 + (bs[1] as int - 0x80) * 4096 + (bs[2] as int - 0x80) * 64 + (bs[3] as int - 0x80);
      assert bs[0] == 0xF4 ==> v < 0x110000;
      v as char
  }

  /** `bs.decode('utf-8', 'replace')`. */
  function Decode(bs: seq<Byte>): string
    decreases |bs|
  {
    if bs == [] then ""
    else if bs[0] < 0x80 then [bs[0] as char] + Decode(bs[1..])
    else if SequenceLength(bs[0]) == 0 then [ReplacementChar] + Decode(bs[1..])
    else
      var k := PrefixLength(bs);
      if k == SequenceLength(bs[0]) then [ScalarOf(bs)] + Decode(bs[k..])
      else [ReplacementChar] + Decode(bs[k..])
  }

  /** Decoding the encoding of a character yields that character, whatever follows. */
  lemma DecodeEncodeChar(c: char, rest: seq<Byte>)
    ensures Decode(EncodeChar(c) + rest) == [c] + Decode(rest)
  {
    var n := c as int;
    if n < 0x80 {
      assert (EncodeChar(c) + rest)[1..] == rest;
    } else if n < 0x800 {
      DecodeTwo(c, rest);
    } else if n < 0x10000 {
      DecodeThree(c, rest);
    } else {
      DecodeFour(c, rest);
    }
  }

  lemma DecodeTwo(c: char, rest: seq<Byte>)
    requires 0x80 <= c as int < 0x800
    ensures Decode(EncodeChar(c) + rest) == [c] + Decode(rest)
  {
    var n := c as int;
    var q, r := n / 64, n % 64;
    assert n == 64 * q + r && 2 <= q < 32 && 0 <= r < 64;
    var bs := EncodeChar(c) + rest;
    assert bs[0] == 0xC0 + q && bs[1] == 0x80 + r;
    assert PrefixLength(bs) == 2;
    assert ScalarOf(bs) == c;
    assert bs[2..] == rest;
  }

  lemma DecodeThree(c: char, rest: seq<Byte>)
    requires 0x800 <= c as int < 0x10000
    ensures Decode(EncodeChar(c) + rest) == [c] + Decode(rest)
  {
    var n := c as int;
    var q, m, r := n / 4096, (n / 64) % 64, n % 64;
    assert n / 64 == 64 * q + m;
    assert n == 4096 * q + 64 * m + r && 0 <= q < 16 && 0 <= m < 64 && 0 <= r < 64;
    var bs := EncodeChar(c) + rest;
    assert bs[0] == 0xE0 + q && bs[1] == 0x80 + m && bs[2] == 0x80 + r;
    assert q == 0 ==> m >= 0x20;
    assert q == 13 ==> m < 0x20;
    assert PrefixLength(bs) == 3;
    assert ScalarOf(bs) == c;
    assert bs[3..] == rest;
  }

  lemma DecodeFour(c: char, rest: seq<Byte>)
    requires 0x10000 <= c as int
    ensures Decode(EncodeChar(c) + rest) == [c] + Decode(rest)
  {
    var n := c as int;
    var q, m1, m2, r := n / 262144, (n / 4096) % 64, (n / 64) % 64, n % 64;
    FourDigits(n);
    var bs := EncodeChar(c) + rest;
    assert bs[0] == 0xF0 + q && bs[1] == 0x80 + m1 && bs[2] == 0x80 + m2 && bs[3] == 0x80 + r;
    assert PrefixLength(bs) == 4;
    assert ScalarOf(bs) == c;
    assert bs[4..] == rest;
  }

  /** The base-64 digits of a scalar value above U+FFFF, as its four-byte encoding writes them. */
  lemma FourDigits(n: int)
    requires 0x10000 <= n < 0x110000
    ensures var q, m1, m2, r := n / 262144, (n / 4096) % 64, (n / 64) % 64, n % 64;
      && n == 262144 * q + 4096 * m1 + 64 * m2 + r
      && 0 <= q <= 4 && 0 <= m1 < 64 && 0 <= m2 < 64 && 0 <= r < 64
      && (q == 0 ==> m1 >= 0x10) && (q == 4 ==> m1 < 0x10)
  {
    var q, m1, m2, r := n / 262144, (n / 4096) % 64, (n / 64) % 64, n % 64;
    assert n / 4096 == 64 * q + m1;
    assert n / 64 == 4096 * q + 64 * m1 + m2;
  }

  /** Decoding inverts encoding. */
  lemma {:induction false} DecodeEncode(s: string)
    ensures Decode(Encode(s)) == s
  {
    if s != "" {
      DecodeEncode(s[1..]);
      DecodeEncodeChar(s[0], Encode(s[1..]));
      assert [s[0]] + s[1..] == s;
    }
  }

}

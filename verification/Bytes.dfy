/** Machine integers as ranges of int, and their little-endian bytes. */
module Bytes {

  const MAX_UINT32: nat := 0xFFFF_FFFF

  type byte = x: int | 0 <= x < 0x100
  type uint16 = x: int | 0 <= x < 0x1_0000
  type uint32 = x: int | 0 <= x <= 0xFFFF_FFFF
  type uint64 = x: int | 0 <= x < 0x1_0000_0000_0000_0000

  function U16Bytes(x: uint16): (r: seq<byte>)
    ensures |r| == 2
  {
    [x % 0x100, x / 0x100]
  }

  function U16Of(b: seq<byte>): uint16
    requires |b| == 2
  {
    var low, high: int := b[0], b[1];
    low + 0x100 * high
  }

  function U32Bytes(x: uint32): (r: seq<byte>)
    ensures |r| == 4
  {
    U16Bytes(x % 0x1_0000) + U16Bytes(x / 0x1_0000)
  }

  function U32Of(b: seq<byte>): uint32
    requires |b| == 4
  {
    var low, high: int := U16Of(b[..2]), U16Of(b[2..]);
    low + 0x1_0000 * high
  }

  lemma U16RoundTrip(x: uint16)
    ensures U16Of(U16Bytes(x)) == x
  {
  }

  lemma U32RoundTrip(x: uint32)
    ensures U32Of(U32Bytes(x)) == x
  {
    var b := U32Bytes(x);
    assert b[..2] == U16Bytes(x % 0x1_0000) && b[2..] == U16Bytes(x / 0x1_0000);
  }

  /** The number some bytes stand for, the least significant byte first. */
  function LittleEndian(b: seq<byte>): nat {
    if b == [] then 0 else b[0] + 0x100 * LittleEndian(b[1..])
  }

  /** Bytes of one length stand for different numbers. */
  lemma {:induction false} LittleEndianIsExact(a: seq<byte>, b: seq<byte>)
    requires |a| == |b|
    ensures LittleEndian(a) == LittleEndian(b) <==> a == b
  {
    if a != [] {
      LittleEndianIsExact(a[1..], b[1..]);
      assert a == [a[0]] + a[1..] && b == [b[0]] + b[1..];
    }
  }

  lemma TwoBytes(b: seq<byte>)
    requires |b| >= 2
    ensures LittleEndian(b) == b[0] + 0x100 * b[1] + 0x1_0000 * LittleEndian(b[2..])
  {
    assert b[1..][1..] == b[2..];
  }

  lemma LittleEndianHalves(a: seq<byte>, b: seq<byte>)
    requires |a| == 4
    ensures LittleEndian(a + b) == LittleEndian(a) + 0x1_0000_0000 * LittleEndian(b)
  {
    hide LittleEndian;
    var s := a + b;
    TwoBytes(s);
    TwoBytes(s[2..]);
    assert s[2..][2..] == b && s[2..][0] == a[2] && s[2..][1] == a[3];
    TwoBytes(a);
    TwoBytes(a[2..]);
    assert a[2..][2..] == [];
    EmptyIsZero();
  }

  lemma EmptyIsZero()
    ensures LittleEndian([]) == 0
  {
  }

  /** Words of both widths are kept with the least significant byte first. */
  lemma WordsAreLittleEndian(b: seq<byte>)
    ensures |b| == 2 ==> U16Of(b) == LittleEndian(b)
    ensures |b| == 4 ==> U32Of(b) == LittleEndian(b)
  {
    hide LittleEndian;
    EmptyIsZero();
    if |b| == 2 {
      TwoBytes(b);
      assert b[2..] == [];
    } else if |b| == 4 {
      TwoBytes(b);
      TwoBytes(b[2..]);
      assert b[2..][2..] == [];
    }
  }

  lemma BytesAreLittleEndian(x: uint32)
    ensures LittleEndian(U32Bytes(x)) == x
    ensures x < 0x1_0000 ==> LittleEndian(U16Bytes(x)) == x
  {
    U32RoundTrip(x);
    WordsAreLittleEndian(U32Bytes(x));
    if x < 0x1_0000 {
      U16RoundTrip(x);
      WordsAreLittleEndian(U16Bytes(x));
    }
  }

  /** A text of 16-bit units as bytes. */
  function U16sBytes(s: seq<uint16>): (r: seq<byte>)
    ensures |r| == 2 * |s|
  {
    if s == [] then [] else U16Bytes(s[0]) + U16sBytes(s[1..])
  }

  /** The whole 16-bit units at the front of some bytes; an odd last byte is dropped. */
  function U16sOf(b: seq<byte>): (r: seq<uint16>)
    ensures |r| == |b| / 2
  {
    if |b| < 2 then [] else [U16Of(b[..2])] + U16sOf(b[2..])
  }

  lemma {:induction false} U16sRoundTrip(s: seq<uint16>)
    ensures U16sOf(U16sBytes(s)) == s
  {
    if s != [] {
      var b := U16sBytes(s);
      assert b[..2] == U16Bytes(s[0]) && b[2..] == U16sBytes(s[1..]);
      U16RoundTrip(s[0]);
      U16sRoundTrip(s[1..]);
    }
  }

  /** Each unit of a text takes two bytes, the least significant one first. */
  lemma {:induction false} UnitBytes(s: seq<uint16>, i: nat)
    requires i < |s|
    ensures U16sBytes(s)[2 * i] == s[i] % 0x100 && U16sBytes(s)[2 * i + 1] == s[i] / 0x100
  {
    if i > 0 {
      UnitBytes(s[1..], i - 1);
    }
  }
}

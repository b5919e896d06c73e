/** Big-endian integers of Go's encoding/binary, and the two's-complement conversions
    between Go's signed and unsigned integer types of one width. */
module Bytes {
  type byte = b: int | 0 <= b < 0x100
  type uint16 = v: int | 0 <= v < 0x1_0000
  type uint32 = v: int | 0 <= v < 0x1_0000_0000
  type uint64 = v: int | 0 <= v < 0x1_0000_0000_0000_0000
  type int8 = v: int | -0x80 <= v < 0x80
  type int16 = v: int | -0x8000 <= v < 0x8000
  type int32 = v: int | -0x8000_0000 <= v < 0x8000_0000
  type int64 = v: int | -0x8000_0000_0000_0000 <= v < 0x8000_0000_0000_0000

  function PutU2(v: uint16): (s: seq<byte>)
    ensures |s| == 2
  {
    [v / 0x100, v % 0x100]
  }

  function PutU4(v: uint32): (s: seq<byte>)
    ensures |s| == 4
  {
    PutU2(v / 0x1_0000) + PutU2(v % 0x1_0000)
  }

  function PutU8(v: uint64): (s: seq<byte>)
    ensures |s| == 8
  {
    PutU4(v / 0x1_0000_0000) + PutU4(v % 0x1_0000_0000)
  }

  function U2At(s: seq<byte>, i: nat): uint16
    requires i + 2 <= |s|
  {
    var hi: int := s[i];
    hi * 0x100 + s[i + 1]
  }

  function U4At(s: seq<byte>, i: nat): uint32
    requires i + 4 <= |s|
  {
    U2At(s, i) * 0x1_0000 + U2At(s, i + 2)
  }

  function U8At(s: seq<byte>, i: nat): uint64
    requires i + 8 <= |s|
  {
    U4At(s, i) * 0x1_0000_0000 + U4At(s, i + 4)
  }

  /** The bytes e stand in s at offset i. */
  ghost predicate Has(s: seq<byte>, i: nat, e: seq<byte>) {
    i + |e| <= |s| && s[i..i + |e|] == e
  }

  lemma HasSplit(s: seq<byte>, i: nat, d: seq<byte>, e: seq<byte>)
    ensures Has(s, i, d + e) <==> Has(s, i, d) && Has(s, i + |d|, e)
  {
    if i + |d| + |e| <= |s| {
      assert s[i..i + |d + e|] == s[i..i + |d|] + s[i + |d|..i + |d| + |e|];
      if Has(s, i, d + e) {
        assert (d + e)[..|d|] == d && (d + e)[|d|..] == e;
      }
    }
  }

  /** Reading back what was written, wherever it stands. */
  lemma U2RoundTrip(s: seq<byte>, i: nat, v: uint16)
    requires Has(s, i, PutU2(v))
    ensures i + 2 <= |s| && U2At(s, i) == v
  {
    assert s[i..i + 2][0] == s[i] && s[i..i + 2][1] == s[i + 1];
  }

  lemma U4RoundTrip(s: seq<byte>, i: nat, v: uint32)
    requires Has(s, i, PutU4(v))
    ensures i + 4 <= |s| && U4At(s, i) == v
  {
    hide PutU2, U2At, Has;
    HasSplit(s, i, PutU2(v / 0x1_0000), PutU2(v % 0x1_0000));
    U2RoundTrip(s, i, v / 0x1_0000);
    U2RoundTrip(s, i + 2, v % 0x1_0000);
  }

  lemma U8RoundTrip(s: seq<byte>, i: nat, v: uint64)
    requires Has(s, i, PutU8(v))
    ensures i + 8 <= |s| && U8At(s, i) == v
  {
    hide PutU4, U4At, Has;
    HasSplit(s, i, PutU4(v / 0x1_0000_0000), PutU4(v % 0x1_0000_0000));
    U4RoundTrip(s, i, v / 0x1_0000_0000);
    U4RoundTrip(s, i + 4, v % 0x1_0000_0000);
  }

  /** Writing back what was read: every byte string is the encoding of its value. */
  lemma U2Canonical(s: seq<byte>, i: nat)
    requires i + 2 <= |s|
    ensures PutU2(U2At(s, i)) == s[i..i + 2]
  {
  }

  lemma U4Canonical(s: seq<byte>, i: nat)
    requires i + 4 <= |s|
    ensures PutU4(U4At(s, i)) == s[i..i + 4]
  {
    U2Canonical(s, i);
    U2Canonical(s, i + 2);
    hide PutU2, U2At;
    assert s[i..i + 4] == s[i..i + 2] + s[i + 2..i + 4];
  }

  lemma U8Canonical(s: seq<byte>, i: nat)
    requires i + 8 <= |s|
    ensures PutU8(U8At(s, i)) == s[i..i + 8]
  {
    var hi, lo := U4At(s, i), U4At(s, i + 4);
    var v: int := U8At(s, i);
    assert v / 0x1_0000_0000 == hi && v % 0x1_0000_0000 == lo by { hide U4At; }
    U4Canonical(s, i);
    U4Canonical(s, i + 4);
    hide PutU4, U4At, U8At;
    assert s[i..i + 8] == s[i..i + 4] + s[i + 4..i + 8];
  }

  /** The number that bytes stand for in network byte order, of any length. */
  function Value(s: seq<byte>): int {
    if s == [] then 0 else 0x100 * Value(s[..|s| - 1]) + s[|s| - 1] as int
  }

  lemma ValueOfTwo(a: byte, b: byte)
    ensures Value([a, b]) == 0x100 * a as int + b as int
  {
    assert [a][..0] == [] && Value([a]) == a as int;
    assert [a, b][..1] == [a];
  }

  lemma {:induction false} ValueConcat(s: seq<byte>, a: byte, b: byte)
    ensures Value(s + [a, b]) == 0x1_0000 * Value(s) + Value([a, b])
  {
    assert (s + [a, b])[..|s| + 1] == s + [a] && (s + [a])[..|s|] == s;
    ValueOfTwo(a, b);
  }

  lemma U2IsValue(s: seq<byte>, i: nat)
    requires i + 2 <= |s|
    ensures U2At(s, i) == Value(s[i..i + 2])
  {
    ValueOfTwo(s[i], s[i + 1]);
    assert s[i..i + 2] == [s[i], s[i + 1]];
  }

  lemma U4IsValue(s: seq<byte>, i: nat)
    requires i + 4 <= |s|
    ensures U4At(s, i) == Value(s[i..i + 4])
  {
    U2IsValue(s, i);
    U2IsValue(s, i + 2);
    ValueConcat(s[i..i + 2], s[i + 2], s[i + 3]);
    hide U2At, Value;
    assert s[i..i + 4] == s[i..i + 2] + [s[i + 2], s[i + 3]] && s[i + 2..i + 4] == [s[i + 2], s[i + 3]];
  }

  /** All reads are in network byte order, and so are the writes that they undo. */
  lemma BigEndian(s: seq<byte>, i: nat)
    requires i + 8 <= |s|
    ensures U2At(s, i) == Value(s[i..i + 2]) && U4At(s, i) == Value(s[i..i + 4]) && U8At(s, i) == Value(s[i..i + 8])
  {
    U2IsValue(s, i);
    U4IsValue(s, i);
    U4IsValue(s, i + 4);
    var high, low := s[i..i + 4], s[i + 4..i + 8];
    ValueConcat(high, s[i + 4], s[i + 5]);
    ValueConcat(high + [s[i + 4], s[i + 5]], s[i + 6], s[i + 7]);
    ValueConcat([s[i + 4], s[i + 5]], s[i + 6], s[i + 7]);
    hide U2At, U4At, Value;
    assert low == [s[i + 4], s[i + 5]] + [s[i + 6], s[i + 7]];
    assert s[i..i + 8] == high + [s[i + 4], s[i + 5]] + [s[i + 6], s[i + 7]];
  }

  // ------------------------------------------------------ two's complement

  function ToInt16(v: uint16): int16 { if v < 0x8000 then v else v - 0x1_0000 }
  function ToInt32(v: uint32): int32 { if v < 0x8000_0000 then v else v - 0x1_0000_0000 }
  function ToInt64(v: uint64): int64 { if v < 0x8000_0000_0000_0000 then v else v - 0x1_0000_0000_0000_0000 }
  function ToInt8(v: byte): int8 { if v < 0x80 then v else v - 0x100 }

  /** Go's conversions to a narrower or unsigned type keep the low bits. */
  function LowByte(v: int): byte { v % 0x100 }
  function LowU2(v: int): uint16 { v % 0x1_0000 }
  function LowU4(v: int): uint32 { v % 0x1_0000_0000 }
  function LowU8(v: int): uint64 { v % 0x1_0000_0000_0000_0000 }
}

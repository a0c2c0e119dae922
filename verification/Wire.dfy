/** Bytes and the big-endian integers of the AMQP wire. */
module Wire {

  type byte = x: int | 0 <= x < 0x100
  type uint16 = x: int | 0 <= x < 0x1_0000
  type uint32 = x: int | 0 <= x < 0x1_0000_0000
  type uint64 = x: int | 0 <= x < 0x1_0000_0000_0000_0000

  function E16(v: uint16): (b: seq<byte>)
    ensures |b| == 2
  {
    [v / 0x100, v % 0x100]
  }

  function E32(v: uint32): (b: seq<byte>)
    ensures |b| == 4
  {
    E16(v / 0x1_0000) + E16(v % 0x1_0000)
  }

  function E64(v: uint64): (b: seq<byte>)
    ensures |b| == 8
  {
    E32(v / 0x1_0000_0000) + E32(v % 0x1_0000_0000)
  }

  function D16(b: seq<byte>, o: nat): (v: uint16)
    requires o + 2 <= |b|
  {
    b[o] as int * 0x100 + b[o + 1] as int
  }

  function D32(b: seq<byte>, o: nat): (v: uint32)
    requires o + 4 <= |b|
  {
    D16(b, o) as int * 0x1_0000 + D16(b, o + 2)
  }

  function D64(b: seq<byte>, o: nat): (v: uint64)
    requires o + 8 <= |b|
  {
    D32(b, o) as int * 0x1_0000_0000 + D32(b, o + 4)
  }

  /** The number that bytes in network order stand for. */
  function Number(b: seq<byte>): nat {
    if b == [] then 0 else Number(b[..|b| - 1]) * 0x100 + b[|b| - 1]
  }

  lemma NumberOf(b: seq<byte>, x: byte)
    ensures Number(b + [x]) == Number(b) * 0x100 + x
  {
    assert (b + [x])[..|b|] == b;
  }

  lemma Number2(b: seq<byte>)
    requires |b| == 2
    ensures Number(b) == b[0] as int * 0x100 + b[1]
  {
    NumberOf([b[0]], b[1]);
    assert b == [b[0]] + [b[1]];
  }

  lemma Number4(b: seq<byte>)
    requires |b| == 4
    ensures Number(b) == b[0] as int * 0x100_0000 + b[1] as int * 0x1_0000 + b[2] as int * 0x100 + b[3]
  {
    Number2(b[..2]);
    NumberOf(b[..2], b[2]);
    NumberOf(b[..3], b[3]);
    assert b[..3] == b[..2] + [b[2]] && b == b[..3] + [b[3]];
  }

  lemma Number8(b: seq<byte>)
    requires |b| == 8
    ensures Number(b) == b[0] as int * 0x100_0000_0000_0000 + b[1] as int * 0x1_0000_0000_0000
                         + b[2] as int * 0x100_0000_0000 + b[3] as int * 0x1_0000_0000
                         + b[4] as int * 0x100_0000 + b[5] as int * 0x1_0000 + b[6] as int * 0x100 + b[7]
  {
    Number4(b[..4]);
    NumberOf(b[..4], b[4]);
    NumberOf(b[..5], b[5]);
    NumberOf(b[..6], b[6]);
    NumberOf(b[..7], b[7]);
    assert b[..5] == b[..4] + [b[4]] && b[..6] == b[..5] + [b[5]];
    assert b[..7] == b[..6] + [b[6]] && b == b[..7] + [b[7]];
  }

  /** Two ways to write a number in the same number of bytes are one. */
  lemma {:induction false} NumberIsUnique(a: seq<byte>, b: seq<byte>)
    requires |a| == |b| && Number(a) == Number(b)
    ensures a == b
  {
    if a != [] {
      var k := |a| - 1;
      NumberIsUnique(a[..k], b[..k]);
      assert a == a[..k] + [a[k]] && b == b[..k] + [b[k]];
    }
  }

  /** Every width is written in network order. */
  lemma EncodedNumber16(v: uint16)
    ensures Number(E16(v)) == v
  {
    Number2(E16(v));
  }

  lemma EncodedNumber32(v: uint32)
    ensures Number(E32(v)) == v
  {
    Number4(E32(v));
  }

  lemma EncodedNumber64(v: uint64)
    ensures Number(E64(v)) == v
  {
    Number8(E64(v));
  }

  /** Every width is read in network order. */
  lemma DecodedNumber16(b: seq<byte>, o: nat)
    requires o + 2 <= |b|
    ensures D16(b, o) == Number(b[o..o + 2])
  {
    Number2(b[o..o + 2]);
  }

  lemma DecodedNumber32(b: seq<byte>, o: nat)
    requires o + 4 <= |b|
    ensures D32(b, o) == Number(b[o..o + 4])
  {
    Number4(b[o..o + 4]);
  }

  lemma DecodedNumber64(b: seq<byte>, o: nat)
    requires o + 8 <= |b|
    ensures D64(b, o) == Number(b[o..o + 8])
  {
    Number8(b[o..o + 8]);
  }

  /** Reading back an encoded integer, wherever it stands in a buffer. */
  lemma DecodeEncode16(b: seq<byte>, o: nat, v: uint16)
    requires o + 2 <= |b| && b[o..o + 2] == E16(v)
    ensures D16(b, o) == v
  {
    assert b[o] == b[o..o + 2][0] && b[o + 1] == b[o..o + 2][1];
  }

  lemma DecodeEncode32(b: seq<byte>, o: nat, v: uint32)
    requires o + 4 <= |b| && b[o..o + 4] == E32(v)
    ensures D32(b, o) == v
  {
    assert b[o..o + 2] == b[o..o + 4][..2] == E16(v / 0x1_0000);
    assert b[o + 2..o + 4] == b[o..o + 4][2..] == E16(v % 0x1_0000);
    DecodeEncode16(b, o, v / 0x1_0000);
    DecodeEncode16(b, o + 2, v % 0x1_0000);
  }

  lemma DecodeEncode64(b: seq<byte>, o: nat, v: uint64)
    requires o + 8 <= |b| && b[o..o + 8] == E64(v)
    ensures D64(b, o) == v
  {
    assert b[o..o + 4] == b[o..o + 8][..4] == E32(v / 0x1_0000_0000);
    assert b[o + 4..o + 8] == b[o..o + 8][4..] == E32(v % 0x1_0000_0000);
    DecodeEncode32(b, o, v / 0x1_0000_0000);
    DecodeEncode32(b, o + 4, v % 0x1_0000_0000);
  }

  /** Decoding looks only at the bytes it names. */
  lemma DecodePrefix(a: seq<byte>, b: seq<byte>, o: nat)
    requires o + 4 <= |a| && a <= b
    ensures D16(b, o) == D16(a, o) && D32(b, o) == D32(a, o)
  {
  }
}

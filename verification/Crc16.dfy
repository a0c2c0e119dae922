/** crc16.cpp: the table-driven CRC-16 (polynomial x^16 + x^12 + x^5 + 1, initial value 0) and the
    division of polynomials over GF(2) that it computes. */
module Crc16 {

  // ---------- polynomial division ----------

  /** The coefficients of x^12 + x^5 + 1, most significant first. */
  function Poly(): (p: seq<bool>)
    ensures |p| == 16 && forall k :: 0 <= k < 16 ==> p[k] == (k == 3 || k == 10 || k == 15)
  {
    [false, false, false, true, false, false, false, false, false, false, true, false, false, false, false, true]
  }

  function Xor(a: seq<bool>, b: seq<bool>): (c: seq<bool>)
    requires |b| <= |a|
    ensures |c| == |a| && forall i :: 0 <= i < |a| ==> c[i] == if i < |b| then a[i] != b[i] else a[i]
  {
    seq(|a|, i requires 0 <= i < |a| => if i < |b| then a[i] != b[i] else a[i])
  }

  /** Long division by x^16 + x^12 + x^5 + 1: the remainder of a dividend given by its coefficients. */
  function Remainder(d: seq<bool>): (r: seq<bool>)
    requires 16 <= |d|
    ensures |r| == 16
    decreases |d|
  {
    if |d| == 16 then d
    else if d[0] then Remainder(Xor(d[1..], Poly()))
    else Remainder(d[1..])
  }

  function Zeros(n: nat): (z: seq<bool>)
    ensures |z| == n
  {
    seq(n, _ => false)
  }

  function BitsOfByte(x: bv8): (b: seq<bool>)
    ensures |b| == 8
  {
    [x & 0x80 != 0, x & 0x40 != 0, x & 0x20 != 0, x & 0x10 != 0, x & 8 != 0, x & 4 != 0, x & 2 != 0, x & 1 != 0]
  }

  /** A text as a polynomial, first byte first, most significant bit first. */
  function BitsOf(text: seq<bv8>): seq<bool> {
    if text == [] then [] else BitsOfByte(text[0]) + BitsOf(text[1..])
  }

  /** The coefficient of x^(15 - k). */
  predicate Bit(x: bv16, k: nat) {
    if k < 8 then
      if k < 4 then
        if k == 0 then x & 0x8000 != 0 else if k == 1 then x & 0x4000 != 0
        else if k == 2 then x & 0x2000 != 0 else x & 0x1000 != 0
      else
        if k == 4 then x & 0x800 != 0 else if k == 5 then x & 0x400 != 0
        else if k == 6 then x & 0x200 != 0 else x & 0x100 != 0
    else if k < 12 then
      if k == 8 then x & 0x80 != 0 else if k == 9 then x & 0x40 != 0
      else if k == 10 then x & 0x20 != 0 else x & 0x10 != 0
    else
      if k == 12 then x & 8 != 0 else if k == 13 then x & 4 != 0 else if k == 14 then x & 2 != 0 else x & 1 != 0
  }

  function Bits16(x: bv16): (b: seq<bool>)
    ensures |b| == 16 && forall k :: 0 <= k < 16 ==> b[k] == Bit(x, k)
  {
    seq(16, k requires 0 <= k < 16 => Bit(x, k))
  }

  // ---------- the shift register ----------

  /** One step of the division in a 16-bit register, fed with the next coefficient. */
  function Feed(crc: bv16, bit: bool): bv16 {
    if Top(crc) != bit then Plus(Up(crc), 0x1021) else Up(crc)
  }

  function Top(crc: bv16): bool { crc & 0x8000 != 0 }

  function Up(crc: bv16): bv16 { crc << 1 }

  /** Addition of polynomials. */
  function Plus(a: bv16, b: bv16): bv16 { a ^ b }
  function Plus8(a: bv8, b: bv8): bv8 { a ^ b }

  /** A byte as the high byte of a register, and a register without its high byte. */
  function Raise(x: bv8): bv16 { (x as bv16) << 8 }
  function Low(crc: bv16): bv16 { crc & 0xFF }
  function LowRaised(crc: bv16): bv16 { crc << 8 }

  function FeedAll(crc: bv16, bits: seq<bool>): bv16
    decreases |bits|
  {
    if bits == [] then crc else FeedAll(Feed(crc, bits[0]), bits[1..])
  }

  lemma ShiftedBit(x: bv16, k: nat)
    requires k < 16
    ensures Bit(Up(x), k) == (k < 15 && Bit(x, k + 1))
  {
    if k < 8 {
      ShiftedHighBit(x, k);
    } else {
      ShiftedLowBit(x, k);
    }
  }

  lemma ShiftedHighBit(x: bv16, k: nat)
    requires k < 8
    ensures Bit(Up(x), k) == Bit(x, k + 1)
  {
  }

  lemma ShiftedLowBit(x: bv16, k: nat)
    requires 8 <= k < 16
    ensures Bit(Up(x), k) == (k < 15 && Bit(x, k + 1))
  {
  }

  lemma ReducedBit(x: bv16, k: nat)
    requires k < 16
    ensures Bit(Plus(x, 0x1021), k) == (Bit(x, k) != Poly()[k])
  {
    if k < 8 {
      ReducedHighBit(x, k);
    } else {
      ReducedLowBit(x, k);
    }
    hide Bit;
  }

  lemma ReducedHighBit(x: bv16, k: nat)
    requires k < 8
    ensures Bit(Plus(x, 0x1021), k) == (Bit(x, k) != (k == 3))
  {
  }

  lemma ReducedLowBit(x: bv16, k: nat)
    requires 8 <= k < 16
    ensures Bit(Plus(x, 0x1021), k) == (Bit(x, k) != (k == 10 || k == 15))
  {
  }

  lemma FeedBits(crc: bv16, bit: bool)
    ensures var up := Bits16(crc)[1..] + [false];
            Bits16(Feed(crc, bit)) == if Bits16(crc)[0] != bit then Xor(up, Poly()) else up
  {
    var up, f := Bits16(crc)[1..] + [false], Bits16(Feed(crc, bit));
    hide Bit, Feed;
    forall k | 0 <= k < 16
      ensures f[k] == if Bits16(crc)[0] != bit then Xor(up, Poly())[k] else up[k]
    {
      FedBit(crc, bit, k);
    }
  }

  lemma FedBit(crc: bv16, bit: bool, k: nat)
    requires k < 16
    ensures Bit(Feed(crc, bit), k) == ((k < 15 && Bit(crc, k + 1)) != (Bit(crc, 0) != bit && Poly()[k]))
  {
    assert Bit(crc, 0) == Top(crc);
    hide Bit, Top, Up, Plus;
    ShiftedBit(crc, k);
    ReducedBit(Up(crc), k);
  }

  /** A register fed with all coefficients of a text holds the remainder of what it stood for
      before, shifted up and added to the text times x^16. */
  lemma {:induction false} RegisterIsRemainder(crc: bv16, bits: seq<bool>)
    ensures Bits16(FeedAll(crc, bits)) == Remainder(Xor(bits + Zeros(16), Bits16(crc)))
    decreases |bits|
  {
    hide Bit, Feed;
    var reg := Bits16(crc);
    var d := Xor(bits + Zeros(16), reg);
    if bits == [] {
      assert d == reg;
    } else {
      var next := Bits16(Feed(crc, bits[0]));
      RegisterIsRemainder(Feed(crc, bits[0]), bits[1..]);
      FeedBits(crc, bits[0]);
      DivisionStep(bits, reg, next);
    }
  }

  lemma DivisionStep(bits: seq<bool>, reg: seq<bool>, next: seq<bool>)
    requires bits != [] && |reg| == 16
    requires next == if reg[0] != bits[0] then Xor(reg[1..] + [false], Poly()) else reg[1..] + [false]
    ensures Remainder(Xor(bits + Zeros(16), reg)) == Remainder(Xor(bits[1..] + Zeros(16), next))
  {
    var d, e := Xor(bits + Zeros(16), reg), Xor(bits[1..] + Zeros(16), next);
    if d[0] {
      assert Xor(d[1..], Poly()) == e;
    } else {
      assert d[1..] == e;
    }
  }

  // ---------- the table ----------

  function Row0(lo: bv8): bv16 {
    if lo == 0 then 0x0000 else if lo == 1 then 0x1021 else if lo == 2 then 0x2042 else if lo == 3 then 0x3063 else
    if lo == 4 then 0x4084 else if lo == 5 then 0x50a5 else if lo == 6 then 0x60c6 else if lo == 7 then 0x70e7 else
    if lo == 8 then 0x8108 else if lo == 9 then 0x9129 else if lo == 10 then 0xa14a else if lo == 11 then 0xb16b else
    if lo == 12 then 0xc18c else if lo == 13 then 0xd1ad else if lo == 14 then 0xe1ce else 0xf1ef
  }

  function Row1(lo: bv8): bv16 {
    if lo == 0 then 0x1231 else if lo == 1 then 0x0210 else if lo == 2 then 0x3273 else if lo == 3 then 0x2252 else
    if lo == 4 then 0x52b5 else if lo == 5 then 0x4294 else if lo == 6 then 0x72f7 else if lo == 7 then 0x62d6 else
    if lo == 8 then 0x9339 else if lo == 9 then 0x8318 else if lo == 10 then 0xb37b else if lo == 11 then 0xa35a else
    if lo == 12 then 0xd3bd else if lo == 13 then 0xc39c else if lo == 14 then 0xf3ff else 0xe3de
  }

  function Row2(lo: bv8): bv16 {
    if lo == 0 then 0x2462 else if lo == 1 then 0x3443 else if lo == 2 then 0x0420 else if lo == 3 then 0x1401 else
    if lo == 4 then 0x64e6 else if lo == 5 then 0x74c7 else if lo == 6 then 0x44a4 else if lo == 7 then 0x5485 else
    if lo == 8 then 0xa56a else if lo == 9 then 0xb54b else if lo == 10 then 0x8528 else if lo == 11 then 0x9509 else
    if lo == 12 then 0xe5ee else if lo == 13 then 0xf5cf else if lo == 14 then 0xc5ac else 0xd58d
  }

  function Row3(lo: bv8): bv16 {
    if lo == 0 then 0x3653 else if lo == 1 then 0x2672 else if lo == 2 then 0x1611 else if lo == 3 then 0x0630 else
    if lo == 4 then 0x76d7 else if lo == 5 then 0x66f6 else if lo == 6 then 0x5695 else if lo == 7 then 0x46b4 else
    if lo == 8 then 0xb75b else if lo == 9 then 0xa77a else if lo == 10 then 0x9719 else if lo == 11 then 0x8738 else
    if lo == 12 then 0xf7df else if lo == 13 then 0xe7fe else if lo == 14 then 0xd79d else 0xc7bc
  }

  function Row4(lo: bv8): bv16 {
    if lo == 0 then 0x48c4 else if lo == 1 then 0x58e5 else if lo == 2 then 0x6886 else if lo == 3 then 0x78a7 else
    if lo == 4 then 0x0840 else if lo == 5 then 0x1861 else if lo == 6 then 0x2802 else if lo == 7 then 0x3823 else
    if lo == 8 then 0xc9cc else if lo == 9 then 0xd9ed else if lo == 10 then 0xe98e else if lo == 11 then 0xf9af else
    if lo == 12 then 0x8948 else if lo == 13 then 0x9969 else if lo == 14 then 0xa90a else 0xb92b
  }

  function Row5(lo: bv8): bv16 {
    if lo == 0 then 0x5af5 else if lo == 1 then 0x4ad4 else if lo == 2 then 0x7ab7 else if lo == 3 then 0x6a96 else
    if lo == 4 then 0x1a71 else if lo == 5 then 0x0a50 else if lo == 6 then 0x3a33 else if lo == 7 then 0x2a12 else
    if lo == 8 then 0xdbfd else if lo == 9 then 0xcbdc else if lo == 10 then 0xfbbf else if lo == 11 then 0xeb9e else
    if lo == 12 then 0x9b79 else if lo == 13 then 0x8b58 else if lo == 14 then 0xbb3b else 0xab1a
  }

  function Row6(lo: bv8): bv16 {
    if lo == 0 then 0x6ca6 else if lo == 1 then 0x7c87 else if lo == 2 then 0x4ce4 else if lo == 3 then 0x5cc5 else
    if lo == 4 then 0x2c22 else if lo == 5 then 0x3c03 else if lo == 6 then 0x0c60 else if lo == 7 then 0x1c41 else
    if lo == 8 then 0xedae else if lo == 9 then 0xfd8f else if lo == 10 then 0xcdec else if lo == 11 then 0xddcd else
    if lo == 12 then 0xad2a else if lo == 13 then 0xbd0b else if lo == 14 then 0x8d68 else 0x9d49
  }

  function Row7(lo: bv8): bv16 {
    if lo == 0 then 0x7e97 else if lo == 1 then 0x6eb6 else if lo == 2 then 0x5ed5 else if lo == 3 then 0x4ef4 else
    if lo == 4 then 0x3e13 else if lo == 5 then 0x2e32 else if lo == 6 then 0x1e51 else if lo == 7 then 0x0e70 else
    if lo == 8 then 0xff9f else if lo == 9 then 0xefbe else if lo == 10 then 0xdfdd else if lo == 11 then 0xcffc else
    if lo == 12 then 0xbf1b else if lo == 13 then 0xaf3a else if lo == 14 then 0x9f59 else 0x8f78
  }

  function Row8(lo: bv8): bv16 {
    if lo == 0 then 0x9188 else if lo == 1 then 0x81a9 else if lo == 2 then 0xb1ca else if lo == 3 then 0xa1eb else
    if lo == 4 then 0xd10c else if lo == 5 then 0xc12d else if lo == 6 then 0xf14e else if lo == 7 then 0xe16f else
    if lo == 8 then 0x1080 else if lo == 9 then 0x00a1 else if lo == 10 then 0x30c2 else if lo == 11 then 0x20e3 else
    if lo == 12 then 0x5004 else if lo == 13 then 0x4025 else if lo == 14 then 0x7046 else 0x6067
  }

  function Row9(lo: bv8): bv16 {
    if lo == 0 then 0x83b9 else if lo == 1 then 0x9398 else if lo == 2 then 0xa3fb else if lo == 3 then 0xb3da else
    if lo == 4 then 0xc33d else if lo == 5 then 0xd31c else if lo == 6 then 0xe37f else if lo == 7 then 0xf35e else
    if lo == 8 then 0x02b1 else if lo == 9 then 0x1290 else if lo == 10 then 0x22f3 else if lo == 11 then 0x32d2 else
    if lo == 12 then 0x4235 else if lo == 13 then 0x5214 else if lo == 14 then 0x6277 else 0x7256
  }

  function Row10(lo: bv8): bv16 {
    if lo == 0 then 0xb5ea else if lo == 1 then 0xa5cb else if lo == 2 then 0x95a8 else if lo == 3 then 0x8589 else
    if lo == 4 then 0xf56e else if lo == 5 then 0xe54f else if lo == 6 then 0xd52c else if lo == 7 then 0xc50d else
    if lo == 8 then 0x34e2 else if lo == 9 then 0x24c3 else if lo == 10 then 0x14a0 else if lo == 11 then 0x0481 else
    if lo == 12 then 0x7466 else if lo == 13 then 0x6447 else if lo == 14 then 0x5424 else 0x4405
  }

  function Row11(lo: bv8): bv16 {
    if lo == 0 then 0xa7db else if lo == 1 then 0xb7fa else if lo == 2 then 0x8799 else if lo == 3 then 0x97b8 else
    if lo == 4 then 0xe75f else if lo == 5 then 0xf77e else if lo == 6 then 0xc71d else if lo == 7 then 0xd73c else
    if lo == 8 then 0x26d3 else if lo == 9 then 0x36f2 else if lo == 10 then 0x0691 else if lo == 11 then 0x16b0 else
    if lo == 12 then 0x6657 else if lo == 13 then 0x7676 else if lo == 14 then 0x4615 else 0x5634
  }

  function Row12(lo: bv8): bv16 {
    if lo == 0 then 0xd94c else if lo == 1 then 0xc96d else if lo == 2 then 0xf90e else if lo == 3 then 0xe92f else
    if lo == 4 then 0x99c8 else if lo == 5 then 0x89e9 else if lo == 6 then 0xb98a else if lo == 7 then 0xa9ab else
    if lo == 8 then 0x5844 else if lo == 9 then 0x4865 else if lo == 10 then 0x7806 else if lo == 11 then 0x6827 else
    if lo == 12 then 0x18c0 else if lo == 13 then 0x08e1 else if lo == 14 then 0x3882 else 0x28a3
  }

  function Row13(lo: bv8): bv16 {
    if lo == 0 then 0xcb7d else if lo == 1 then 0xdb5c else if lo == 2 then 0xeb3f else if lo == 3 then 0xfb1e else
    if lo == 4 then 0x8bf9 else if lo == 5 then 0x9bd8 else if lo == 6 then 0xabbb else if lo == 7 then 0xbb9a else
    if lo == 8 then 0x4a75 else if lo == 9 then 0x5a54 else if lo == 10 then 0x6a37 else if lo == 11 then 0x7a16 else
    if lo == 12 then 0x0af1 else if lo == 13 then 0x1ad0 else if lo == 14 then 0x2ab3 else 0x3a92
  }

  function Row14(lo: bv8): bv16 {
    if lo == 0 then 0xfd2e else if lo == 1 then 0xed0f else if lo == 2 then 0xdd6c else if lo == 3 then 0xcd4d else
    if lo == 4 then 0xbdaa else if lo == 5 then 0xad8b else if lo == 6 then 0x9de8 else if lo == 7 then 0x8dc9 else
    if lo == 8 then 0x7c26 else if lo == 9 then 0x6c07 else if lo == 10 then 0x5c64 else if lo == 11 then 0x4c45 else
    if lo == 12 then 0x3ca2 else if lo == 13 then 0x2c83 else if lo == 14 then 0x1ce0 else 0x0cc1
  }

  function Row15(lo: bv8): bv16 {
    if lo == 0 then 0xef1f else if lo == 1 then 0xff3e else if lo == 2 then 0xcf5d else if lo == 3 then 0xdf7c else
    if lo == 4 then 0xaf9b else if lo == 5 then 0xbfba else if lo == 6 then 0x8fd9 else if lo == 7 then 0x9ff8 else
    if lo == 8 then 0x6e17 else if lo == 9 then 0x7e36 else if lo == 10 then 0x4e55 else if lo == 11 then 0x5e74 else
    if lo == 12 then 0x2e93 else if lo == 13 then 0x3eb2 else if lo == 14 then 0x0ed1 else 0x1ef0
  }

  /** crc16tab[x] */
  function Entry(x: bv8): bv16 {
    var hi, lo := x >> 4, x & 0xF;
    if hi == 0 then Row0(lo)
    else if hi == 1 then Row1(lo)
    else if hi == 2 then Row2(lo)
    else if hi == 3 then Row3(lo)
    else if hi == 4 then Row4(lo)
    else if hi == 5 then Row5(lo)
    else if hi == 6 then Row6(lo)
    else if hi == 7 then Row7(lo)
    else if hi == 8 then Row8(lo)
    else if hi == 9 then Row9(lo)
    else if hi == 10 then Row10(lo)
    else if hi == 11 then Row11(lo)
    else if hi == 12 then Row12(lo)
    else if hi == 13 then Row13(lo)
    else if hi == 14 then Row14(lo)
    else Row15(lo)
  }

  /** Eight steps with the coefficients of a byte. */
  function FeedByte(crc: bv16, x: bv8): bv16 {
    Feed(Feed(Feed(Feed(Feed(Feed(Feed(Feed(crc, x & 0x80 != 0), x & 0x40 != 0), x & 0x20 != 0), x & 0x10 != 0),
      x & 8 != 0), x & 4 != 0), x & 2 != 0), x & 1 != 0)
  }

  /** Every entry is what eight steps make of its index. */
  lemma EntryIsRemainder(x: bv8)
    ensures Entry(x) == FeedByte(Raise(x), 0)
  {
    hide *;
    if x < 0x40 {
      LowEntry(x);
    } else if x < 0x80 {
      LowerEntry(x);
    } else if x < 0xC0 {
      HigherEntry(x);
    } else {
      HighEntry(x);
    }
  }

  lemma LowEntry(x: bv8)
    requires x < 0x40
    ensures Entry(x) == FeedByte(Raise(x), 0)
  {
  }

  lemma LowerEntry(x: bv8)
    requires 0x40 <= x < 0x80
    ensures Entry(x) == FeedByte(Raise(x), 0)
  {
  }

  lemma HigherEntry(x: bv8)
    requires 0x80 <= x < 0xC0
    ensures Entry(x) == FeedByte(Raise(x), 0)
  {
  }

  lemma HighEntry(x: bv8)
    requires 0xC0 <= x
    ensures Entry(x) == FeedByte(Raise(x), 0)
  {
  }

  lemma TopLinear(a: bv16, b: bv16)
    ensures Top(Plus(a, b)) <==> Top(a) != Top(b)
  {
  }

  lemma UpLinear(a: bv16, b: bv16)
    ensures Up(Plus(a, b)) == Plus(Up(a), Up(b))
  {
  }

  lemma PlusGroup(u: bv16, v: bv16, g: bv16)
    ensures Plus(Plus(u, v), g) == Plus(Plus(u, g), v) == Plus(u, Plus(v, g))
    ensures Plus(Plus(u, g), Plus(v, g)) == Plus(u, v)
  {
  }

  lemma FeedLinear(a: bv16, b: bv16, p: bool, q: bool)
    ensures Feed(Plus(a, b), p != q) == Plus(Feed(a, p), Feed(b, q))
  {
    hide Top, Up, Plus;
    TopLinear(a, b);
    UpLinear(a, b);
    PlusGroup(Up(a), Up(b), 0x1021);
  }

  lemma MaskLinear(x: bv8, y: bv8)
    ensures Plus8(x, y) & 0x80 != 0 <==> (x & 0x80 != 0) != (y & 0x80 != 0)
    ensures Plus8(x, y) & 0x40 != 0 <==> (x & 0x40 != 0) != (y & 0x40 != 0)
    ensures Plus8(x, y) & 0x20 != 0 <==> (x & 0x20 != 0) != (y & 0x20 != 0)
    ensures Plus8(x, y) & 0x10 != 0 <==> (x & 0x10 != 0) != (y & 0x10 != 0)
    ensures Plus8(x, y) & 8 != 0 <==> (x & 8 != 0) != (y & 8 != 0)
    ensures Plus8(x, y) & 4 != 0 <==> (x & 4 != 0) != (y & 4 != 0)
    ensures Plus8(x, y) & 2 != 0 <==> (x & 2 != 0) != (y & 2 != 0)
    ensures Plus8(x, y) & 1 != 0 <==> (x & 1 != 0) != (y & 1 != 0)
  {
  }

  /** Division is linear. */
  lemma FeedByteLinear(a: bv16, b: bv16, x: bv8, y: bv8)
    ensures FeedByte(Plus(a, b), Plus8(x, y)) == Plus(FeedByte(a, x), FeedByte(b, y))
  {
    MaskLinear(x, y);
    hide Feed, Plus, Plus8;
    FeedLinear(a, b, x & 0x80 != 0, y & 0x80 != 0);
    var a1, b1 := Feed(a, x & 0x80 != 0), Feed(b, y & 0x80 != 0);
    FeedLinear(a1, b1, x & 0x40 != 0, y & 0x40 != 0);
    var a2, b2 := Feed(a1, x & 0x40 != 0), Feed(b1, y & 0x40 != 0);
    FeedLinear(a2, b2, x & 0x20 != 0, y & 0x20 != 0);
    var a3, b3 := Feed(a2, x & 0x20 != 0), Feed(b2, y & 0x20 != 0);
    FeedLinear(a3, b3, x & 0x10 != 0, y & 0x10 != 0);
    var a4, b4 := Feed(a3, x & 0x10 != 0), Feed(b3, y & 0x10 != 0);
    FeedLinear(a4, b4, x & 8 != 0, y & 8 != 0);
    var a5, b5 := Feed(a4, x & 8 != 0), Feed(b4, y & 8 != 0);
    FeedLinear(a5, b5, x & 4 != 0, y & 4 != 0);
    var a6, b6 := Feed(a5, x & 4 != 0), Feed(b5, y & 4 != 0);
    FeedLinear(a6, b6, x & 2 != 0, y & 2 != 0);
    var a7, b7 := Feed(a6, x & 2 != 0), Feed(b6, y & 2 != 0);
    FeedLinear(a7, b7, x & 1 != 0, y & 1 != 0);
  }

  lemma LowByteMovesUp(crc: bv16)
    ensures FeedByte(Low(crc), 0) == LowRaised(crc)
  {
  }

  lemma SameByteCancels(x: bv8)
    ensures FeedByte(Raise(x), x) == 0
  {
    hide Feed, Raise;
    HighNibbleCancels(x);
    LowNibbleCancels(x);
  }

  /** The four coefficients that are left when the high ones have met their equals. */
  function LeftOver(x: bv8): bv16 { (x as bv16) << 12 }

  lemma HighNibbleCancels(x: bv8)
    ensures Feed(Feed(Feed(Feed(Raise(x), x & 0x80 != 0), x & 0x40 != 0), x & 0x20 != 0), x & 0x10 != 0) == LeftOver(x)
  {
  }

  lemma LowNibbleCancels(x: bv8)
    ensures Feed(Feed(Feed(Feed(LeftOver(x), x & 8 != 0), x & 4 != 0), x & 2 != 0), x & 1 != 0) == 0
  {
  }

  function Index(crc: bv16, x: bv8): bv8 {
    (((crc >> 8) ^ (x as bv16)) & 0xFF) as bv8
  }

  lemma RegisterSplits(crc: bv16, x: bv8)
    ensures crc == Plus(Low(crc), Plus(Raise(Index(crc, x)), Raise(x)))
  {
  }

  lemma ZeroByte(x: bv8)
    ensures Plus8(0, x) == x
  {
  }

  lemma PlusZero(a: bv16, b: bv16)
    ensures Plus(a, Plus(b, 0)) == Plus(a, b)
  {
  }

  /** Dividing eight coefficients at once: the register's high byte and the new byte together select
      what the eight steps amount to. */
  lemma ByteAtOnce(crc: bv16, x: bv8)
    ensures Plus(LowRaised(crc), Entry(Index(crc, x))) == FeedByte(crc, x)
  {
    hide *;
    var i, up := Raise(Index(crc, x)), Raise(x);
    RegisterSplits(crc, x);
    ZeroByte(x);
    FeedByteLinear(Low(crc), Plus(i, up), 0, x);
    FeedByteLinear(i, up, 0, x);
    LowByteMovesUp(crc);
    SameByteCancels(x);
    EntryIsRemainder(Index(crc, x));
    PlusZero(LowRaised(crc), Entry(Index(crc, x)));
  }

  // ---------- the loop ----------

  /** The CRC of a text: the remainder of the text times x^16. */
  ghost function Crc(text: seq<bv8>): bv16 {
    FeedAll(0, BitsOf(text))
  }

  lemma {:induction false} FeedAllAppend(crc: bv16, a: seq<bool>, b: seq<bool>)
    ensures FeedAll(crc, a + b) == FeedAll(FeedAll(crc, a), b)
    decreases |a|
  {
    if a == [] {
      assert a + b == b;
    } else {
      assert (a + b)[1..] == a[1..] + b;
      FeedAllAppend(Feed(crc, a[0]), a[1..], b);
    }
  }

  lemma {:induction false} BitsOfAppend(a: seq<bv8>, b: seq<bv8>)
    ensures BitsOf(a + b) == BitsOf(a) + BitsOf(b)
    decreases |a|
  {
    if a == [] {
      assert a + b == b;
    } else {
      assert (a + b)[1..] == a[1..] + b;
      BitsOfAppend(a[1..], b);
    }
  }

  /** Going on from an intermediate register value is hashing the concatenation. */
  lemma CrcContinues(a: seq<bv8>, b: seq<bv8>)
    ensures Crc(a + b) == FeedAll(Crc(a), BitsOf(b))
  {
    BitsOfAppend(a, b);
    FeedAllAppend(0, BitsOf(a), BitsOf(b));
  }

  lemma FeedFour(crc: bv16, p: bool, q: bool, r: bool, s: bool)
    ensures FeedAll(crc, [p, q, r, s]) == Feed(Feed(Feed(Feed(crc, p), q), r), s)
  {
    hide Feed;
    var bits := [p, q, r, s];
    assert bits[1..] == [q, r, s] && [q, r, s][1..] == [r, s] && [r, s][1..] == [s];
    var c3 := Feed(Feed(Feed(crc, p), q), r);
    assert FeedAll(c3, [s]) == Feed(c3, s) by {
      assert [s][1..] == [];
    }
    assert FeedAll(Feed(Feed(crc, p), q), [r, s]) == FeedAll(c3, [s]);
    assert FeedAll(Feed(crc, p), [q, r, s]) == FeedAll(Feed(Feed(crc, p), q), [r, s]);
  }

  lemma FeedByteIsFeedAll(crc: bv16, x: bv8)
    ensures FeedAll(crc, BitsOf([x])) == FeedByte(crc, x)
  {
    hide Feed, FeedAll;
    var b := BitsOfByte(x);
    assert BitsOf([x]) == b && b == [b[0], b[1], b[2], b[3]] + [b[4], b[5], b[6], b[7]];
    FeedAllAppend(crc, [b[0], b[1], b[2], b[3]], [b[4], b[5], b[6], b[7]]);
    FeedFour(crc, b[0], b[1], b[2], b[3]);
    FeedFour(Feed(Feed(Feed(Feed(crc, b[0]), b[1]), b[2]), b[3]), b[4], b[5], b[6], b[7]);
  }

  /** crc16 */
  method Compute(text: seq<bv8>) returns (crc: bv16)
    ensures crc == Crc(text)
  {
    crc := 0;
    var counter := 0;
    while counter < |text|
      invariant 0 <= counter <= |text| && crc == Crc(text[..counter])
    {
      var x := text[counter];
      ByteAtOnce(crc, x);
      FeedByteIsFeedAll(crc, x);
      CrcContinues(text[..counter], [x]);
      assert text[..counter + 1] == text[..counter] + [x];
      hide *;
      crc := Plus(LowRaised(crc), Entry(Index(crc, x)));
      counter := counter + 1;
    }
    assert text[..counter] == text;
  }

  /** The table-driven loop computes a remainder of polynomial division. */
  lemma CrcIsRemainder(text: seq<bv8>)
    ensures Bits16(Crc(text)) == Remainder(BitsOf(text) + Zeros(16))
  {
    RegisterIsRemainder(0, BitsOf(text));
    assert forall k :: 0 <= k < 16 ==> !Bit(0, k);
    assert Xor(BitsOf(text) + Zeros(16), Bits16(0)) == BitsOf(text) + Zeros(16);
  }

  // ---------- the documented value ----------

  lemma OneMoreByte(text: seq<bv8>, k: nat, crc: bv16, x: bv8, next: bv16)
    requires k < |text| && text[k] == x && Crc(text[..k]) == crc
    requires Plus(LowRaised(crc), Entry(Index(crc, x))) == next
    ensures Crc(text[..k + 1]) == next
  {
    hide *;
    assert text[..k + 1] == text[..k] + [x];
    ByteAtOnce(crc, x);
    FeedByteIsFeedAll(crc, x);
    CrcContinues(text[..k], [x]);
  }

  /** The output the code documents for "123456789". */
  lemma CheckValue()
    ensures Crc([0x31, 0x32, 0x33, 0x34, 0x35, 0x36, 0x37, 0x38, 0x39]) == 0x31C3
  {
    hide *;
    var text: seq<bv8> := [0x31, 0x32, 0x33, 0x34, 0x35, 0x36, 0x37, 0x38, 0x39];
    NothingHashed(text);
    FirstSteps();
    ThreeMoreBytes(text, 0, 0, 0x2672, 0x20B5, 0x9752);
    MiddleSteps();
    ThreeMoreBytes(text, 3, 0x9752, 0xD789, 0x546C, 0x20E4);
    LastSteps();
    ThreeMoreBytes(text, 6, 0x20E4, 0x86D6, 0x9015, 0x31C3);
    assert text[..9] == text;
  }

  lemma FirstSteps()
    ensures Plus(LowRaised(0), Entry(Index(0, 0x31))) == 0x2672
    ensures Plus(LowRaised(0x2672), Entry(Index(0x2672, 0x32))) == 0x20B5
    ensures Plus(LowRaised(0x20B5), Entry(Index(0x20B5, 0x33))) == 0x9752
  {
  }

  lemma MiddleSteps()
    ensures Plus(LowRaised(0x9752), Entry(Index(0x9752, 0x34))) == 0xD789
    ensures Plus(LowRaised(0xD789), Entry(Index(0xD789, 0x35))) == 0x546C
    ensures Plus(LowRaised(0x546C), Entry(Index(0x546C, 0x36))) == 0x20E4
  {
  }

  lemma LastSteps()
    ensures Plus(LowRaised(0x20E4), Entry(Index(0x20E4, 0x37))) == 0x86D6
    ensures Plus(LowRaised(0x86D6), Entry(Index(0x86D6, 0x38))) == 0x9015
    ensures Plus(LowRaised(0x9015), Entry(Index(0x9015, 0x39))) == 0x31C3
  {
  }

  lemma ThreeMoreBytes(text: seq<bv8>, k: nat, crc: bv16, one: bv16, two: bv16, three: bv16)
    requires k + 3 <= |text| && Crc(text[..k]) == crc
    requires Plus(LowRaised(crc), Entry(Index(crc, text[k]))) == one
    requires Plus(LowRaised(one), Entry(Index(one, text[k + 1]))) == two
    requires Plus(LowRaised(two), Entry(Index(two, text[k + 2]))) == three
    ensures Crc(text[..k + 3]) == three
  {
    hide *;
    OneMoreByte(text, k, crc, text[k], one);
    OneMoreByte(text, k + 1, one, text[k + 1], two);
    OneMoreByte(text, k + 2, two, text[k + 2], three);
  }

  lemma NothingHashed(text: seq<bv8>)
    ensures Crc(text[..0]) == 0
  {
  }
}

/** SHA-1 as FIPS PUB 180-1 defines it: section 4 (padding), section 5 (functions), section 6
    (constants) and section 7 (computing the digest with an 80-word schedule). */
module Fips180 {
  import opened Arithmetic

  type byte = bv8
  type word = bv32

  function S1(x: word): word { (x << 1) | (x >> 31) }
  function S5(x: word): word { (x << 5) | (x >> 27) }
  function S30(x: word): word { (x << 30) | (x >> 2) }

  function F(t: nat, b: word, c: word, d: word): word {
    if t < 20 then (b & c) | (!b & d)
    else if t < 40 then b ^ c ^ d
    else if t < 60 then (b & c) | (b & d) | (c & d)
    else b ^ c ^ d
  }

  function K(t: nat): word {
    if t < 20 then 0x5A827999
    else if t < 40 then 0x6ED9EBA1
    else if t < 60 then 0x8F1BBCDC
    else 0xCA62C1D6
  }

  /** The message schedule of a block of sixteen words. */
  function W(m: seq<word>, t: nat): word
    requires |m| == 16
  {
    if t < 16 then m[t] else S1(W(m, t - 3) ^ W(m, t - 8) ^ W(m, t - 14) ^ W(m, t - 16))
  }

  datatype Regs = Regs(a: word, b: word, c: word, d: word, e: word)

  /** Addition modulo 2^32. */
  function Sum(a: word, b: word, c: word, d: word, e: word): word { a + b + c + d + e }

  /** TEMP of step (d) in section 7. */
  function Temp(a: word, b: word, c: word, d: word, e: word, t: nat, w: word): word {
    Sum(S5(a), F(t, b, c, d), e, w, K(t))
  }

  function Round(r: Regs, t: nat, w: word): Regs {
    Regs(Temp(r.a, r.b, r.c, r.d, r.e, t, w), r.a, S30(r.b), r.c, r.d)
  }

  function Rounds(h: Regs, m: seq<word>, n: nat): Regs
    requires |m| == 16
  {
    if n == 0 then h else Round(Rounds(h, m, n - 1), n - 1, W(m, n - 1))
  }

  function Plus(x: word, y: word): word { x + y }

  function AddRegs(h: Regs, r: Regs): Regs {
    Regs(Plus(h.a, r.a), Plus(h.b, r.b), Plus(h.c, r.c), Plus(h.d, r.d), Plus(h.e, r.e))
  }

  function Compress(h: Regs, m: seq<word>): Regs
    requires |m| == 16
  {
    AddRegs(h, Rounds(h, m, 80))
  }

  function BigEndian(b0: byte, b1: byte, b2: byte, b3: byte): word {
    ((b0 as word) << 24) | ((b1 as word) << 16) | ((b2 as word) << 8) | (b3 as word)
  }

  function Words(b: seq<byte>): (m: seq<word>)
    requires |b| == 64
    ensures |m| == 16
  {
    seq(16, i requires 0 <= i < 16 => BigEndian(b[4 * i], b[4 * i + 1], b[4 * i + 2], b[4 * i + 3]))
  }

  const H0 := Regs(0x67452301, 0xEFCDAB89, 0x98BADCFE, 0x10325476, 0xC3D2E1F0)

  /** All complete 64-byte blocks of a text, one after the other. */
  function HashBlocks(text: seq<byte>): Regs
    requires |text| % 64 == 0
  {
    if |text| == 0 then H0
    else Compress(HashBlocks(text[..|text| - 64]), Words(text[|text| - 64..]))
  }

  function ToByte(n: nat): byte { (n % 0x100) as byte }

  /** The 64-bit length field, for a number of bits modulo 2^64 (the standard stops below 2^64). */
  function LengthField(bits: nat): (b: seq<byte>)
    ensures |b| == 8
  {
    [ToByte(bits / 0x100_0000_0000_0000), ToByte(bits / 0x1_0000_0000_0000),
     ToByte(bits / 0x100_0000_0000), ToByte(bits / 0x1_0000_0000),
     ToByte(bits / 0x100_0000), ToByte(bits / 0x1_0000), ToByte(bits / 0x100), ToByte(bits)]
  }

  lemma DigitOf(n: nat, p: nat, q: nat, d: nat, r: nat)
    requires n == p * (0x100 * q + d) + r && d < 0x100 && r < p
    ensures n / p % 0x100 == d
  {
    Divides(n, p, 0x100 * q + d, r);
    Divides(0x100 * q + d, 0x100, q, d);
  }

  /** In network order the field stands for the number of bits: its bytes are the digits of that number
      to the base 256, most significant first. */
  lemma LengthFieldIs(bits: nat, d: seq<nat>)
    requires |d| == 8 && forall i :: 0 <= i < 8 ==> d[i] < 0x100
    requires bits == d[0] * 0x100_0000_0000_0000 + d[1] * 0x1_0000_0000_0000 + d[2] * 0x100_0000_0000
                     + d[3] * 0x1_0000_0000 + d[4] * 0x100_0000 + d[5] * 0x1_0000 + d[6] * 0x100 + d[7]
    ensures LengthField(bits) == [d[0] as byte, d[1] as byte, d[2] as byte, d[3] as byte,
                                  d[4] as byte, d[5] as byte, d[6] as byte, d[7] as byte]
  {
    hide ToByte;
    var low := d[4] * 0x100_0000 + d[5] * 0x1_0000 + d[6] * 0x100 + d[7];
    var high := d[0] * 0x100_0000 + d[1] * 0x1_0000 + d[2] * 0x100 + d[3];
    HighDigits(bits, low, d[0], d[1], d[2], d[3]);
    LowDigits(bits, high, d[4], d[5], d[6], d[7]);
    FieldOfDigits(bits, d[0], d[1], d[2], d[3], d[4], d[5], d[6], d[7]);
  }

  lemma ToByteIs(n: nat, d: nat)
    requires n % 0x100 == d < 0x100
    ensures ToByte(n) == d as byte
  {
  }

  lemma FieldOfDigits(n: nat, a: nat, b: nat, c: nat, d: nat, e: nat, f: nat, g: nat, h: nat)
    requires n / 0x100_0000_0000_0000 % 0x100 == a && n / 0x1_0000_0000_0000 % 0x100 == b
    requires n / 0x100_0000_0000 % 0x100 == c && n / 0x1_0000_0000 % 0x100 == d
    requires n / 0x100_0000 % 0x100 == e && n / 0x1_0000 % 0x100 == f && n / 0x100 % 0x100 == g && n % 0x100 == h
    ensures LengthField(n) == [a as byte, b as byte, c as byte, d as byte, e as byte, f as byte, g as byte, h as byte]
  {
    hide ToByte;
    ToByteIs(n / 0x100_0000_0000_0000, a);
    ToByteIs(n / 0x1_0000_0000_0000, b);
    ToByteIs(n / 0x100_0000_0000, c);
    ToByteIs(n / 0x1_0000_0000, d);
    ToByteIs(n / 0x100_0000, e);
    ToByteIs(n / 0x1_0000, f);
    ToByteIs(n / 0x100, g);
    ToByteIs(n, h);
  }

  lemma HighDigits(n: nat, low: nat, a: nat, b: nat, c: nat, d: nat)
    requires a < 0x100 && b < 0x100 && c < 0x100 && d < 0x100 && low < 0x1_0000_0000
    requires n == a * 0x100_0000_0000_0000 + b * 0x1_0000_0000_0000 + c * 0x100_0000_0000 + d * 0x1_0000_0000 + low
    ensures n / 0x100_0000_0000_0000 % 0x100 == a && n / 0x1_0000_0000_0000 % 0x100 == b
    ensures n / 0x100_0000_0000 % 0x100 == c && n / 0x1_0000_0000 % 0x100 == d
  {
    DigitOf(n, 0x1_0000_0000, a * 0x1_0000 + b * 0x100 + c, d, low);
    DigitOf(n, 0x100_0000_0000, a * 0x100 + b, c, d * 0x1_0000_0000 + low);
    DigitOf(n, 0x1_0000_0000_0000, a, b, c * 0x100_0000_0000 + d * 0x1_0000_0000 + low);
    DigitOf(n, 0x100_0000_0000_0000, 0, a, b * 0x1_0000_0000_0000 + c * 0x100_0000_0000 + d * 0x1_0000_0000 + low);
  }

  lemma LowDigits(n: nat, high: nat, a: nat, b: nat, c: nat, d: nat)
    requires a < 0x100 && b < 0x100 && c < 0x100 && d < 0x100
    requires n == high * 0x1_0000_0000 + a * 0x100_0000 + b * 0x1_0000 + c * 0x100 + d
    ensures n / 0x100_0000 % 0x100 == a && n / 0x1_0000 % 0x100 == b && n / 0x100 % 0x100 == c && n % 0x100 == d
  {
    DigitOf(n, 1, high * 0x100_0000 + a * 0x1_0000 + b * 0x100 + c, d, 0);
    DigitOf(n, 0x100, high * 0x1_0000 + a * 0x100 + b, c, d);
    DigitOf(n, 0x1_0000, high * 0x100 + a, b, c * 0x100 + d);
    DigitOf(n, 0x100_0000, high, a, b * 0x1_0000 + c * 0x100 + d);
  }

  function Zeros(n: nat): (z: seq<byte>)
    ensures |z| == n
  {
    seq(n, _ => 0)
  }

  /** How many zero bytes bring the text to 56 modulo 64. */
  function PadLength(n: nat): (z: nat)
    ensures z < 64 && (n + z + 9) % 64 == 0
  {
    if n % 64 < 56 then 55 - n % 64 else 119 - n % 64
  }

  function Pad(m: seq<byte>): (p: seq<byte>)
    ensures |p| % 64 == 0
  {
    m + [0x80] + Zeros(PadLength(|m|)) + LengthField(8 * |m| % 0x1_0000_0000_0000_0000)
  }

  function WordBytes(w: word): (b: seq<byte>)
    ensures |b| == 4
  {
    [((w >> 24) & 0xFF) as byte, ((w >> 16) & 0xFF) as byte, ((w >> 8) & 0xFF) as byte, (w & 0xFF) as byte]
  }

  function BytesOf(h: Regs): (b: seq<byte>)
    ensures |b| == 20
  {
    WordBytes(h.a) + WordBytes(h.b) + WordBytes(h.c) + WordBytes(h.d) + WordBytes(h.e)
  }

  function Digest(m: seq<byte>): seq<byte> {
    BytesOf(HashBlocks(Pad(m)))
  }
}

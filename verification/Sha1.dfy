/** sha1.cpp: the block transformation with its circular schedule and rotating registers, and the
    streaming interface around it. */
module Sha1 {
  import opened Arithmetic
  import opened Fips180

  // ---------- the rewritten forms ----------

  function Rol1(x: word): word { (x << 1) | (x >> 31) }
  function Rol5(x: word): word { (x << 5) | (x >> 27) }
  function Rol8(x: word): word { (x << 8) | (x >> 24) }
  function Rol24(x: word): word { (x << 24) | (x >> 8) }
  function Rol30(x: word): word { (x << 30) | (x >> 2) }

  function Choice(b: word, c: word, d: word): word { (b & (c ^ d)) ^ d }
  function Parity(b: word, c: word, d: word): word { b ^ c ^ d }
  function Majority(b: word, c: word, d: word): word { ((b | c) & d) | (b & c) }

  lemma ChoiceForm(b: word, c: word, d: word)
    ensures Choice(b, c, d) == (b & c) | (!b & d)
  {
  }

  lemma MajorityForm(b: word, c: word, d: word)
    ensures Majority(b, c, d) == (b & c) | (b & d) | (c & d)
  {
  }

  /** A word as a little-endian machine loads it from four bytes. */
  function LittleEndian(b0: byte, b1: byte, b2: byte, b3: byte): word {
    ((b3 as word) << 24) | ((b2 as word) << 16) | ((b1 as word) << 8) | (b0 as word)
  }

  function Swap(l: word): word { (Rol24(l) & 0xFF00FF00) | (Rol8(l) & 0x00FF00FF) }

  /** The swap of blk0 yields the big-endian word. */
  lemma SwapIsBigEndian(b0: byte, b1: byte, b2: byte, b3: byte)
    ensures Swap(LittleEndian(b0, b1, b2, b3)) == BigEndian(b0, b1, b2, b3)
  {
  }

  // ---------- one block ----------

  /** The sixteen words of a block as they stand in memory, before round `t`: word `t` and its
      successors up to 15 are still as loaded, the others are the last sixteen of the schedule. */
  ghost predicate Schedule(b: seq<word>, m: seq<word>, t: nat) {
    && |b| == 16 && |m| == 16
    && (forall s :: t - 16 <= s < t && 0 <= s ==> b[s % 16] == W(m, s))
    && (forall s :: t <= s < 16 ==> Swap(b[s]) == m[s])
  }

  ghost predicate Holds(block: array<word>, m: seq<word>, t: nat)
    reads block
  {
    Schedule(block[..], m, t)
  }

  lemma LoadedWord(b: seq<word>, m: seq<word>, i: nat)
    requires i < 16 && Schedule(b, m, i)
    ensures Swap(b[i]) == W(m, i)
  {
  }

  lemma NextWord(b: seq<word>, m: seq<word>, i: nat)
    requires 16 <= i < 80 && Schedule(b, m, i)
    ensures Rol1(b[(i + 13) % 16] ^ b[(i + 8) % 16] ^ b[(i + 2) % 16] ^ b[i % 16]) == W(m, i)
  {
    hide Swap, Rol1, S1;
    assert (i + 13) % 16 == (i - 3) % 16 && (i + 8) % 16 == (i - 8) % 16;
    assert (i + 2) % 16 == (i - 14) % 16 && i % 16 == (i - 16) % 16;
    var x := b[(i + 13) % 16] ^ b[(i + 8) % 16] ^ b[(i + 2) % 16] ^ b[i % 16];
    assert x == W(m, i - 3) ^ W(m, i - 8) ^ W(m, i - 14) ^ W(m, i - 16);
    SameRotation(x);
  }

  lemma SameRotation(x: word)
    ensures Rol1(x) == S1(x)
  {
  }

  /** The word of round `i` replaces the oldest one. */
  lemma ScheduleMoves(b: seq<word>, m: seq<word>, i: nat)
    requires Schedule(b, m, i)
    ensures Schedule(b[i % 16 := W(m, i)], m, i + 1)
  {
    hide W, Swap;
    forall s | i + 1 - 16 <= s < i && 0 <= s ensures s % 16 != i % 16 {
    }
  }

  /** The five registers before round `t`, in the order in which the macros take them. */
  ghost predicate Before(h: Regs, m: seq<word>, t: nat, v: word, w: word, x: word, y: word, z: word) {
    |m| == 16 && Rounds(h, m, t) == Regs(v, w, x, y, z)
  }

  /** The common shape of the macros: z += f + blk + k + rol(v, 5). */
  function Increase(z: word, f: word, blk: word, k: word, r: word): word { z + (f + blk + k + r) }

  lemma Reorder(z: word, f: word, blk: word, k: word, r: word)
    ensures Increase(z, f, blk, k, r) == Sum(r, f, z, blk, k)
  {
  }

  lemma NextRound(h: Regs, m: seq<word>, i: nat, v: word, w: word, x: word, y: word, z: word, z': word, w': word)
    requires Before(h, m, i, v, w, x, y, z)
    requires z' == Temp(v, w, x, y, z, i, W(m, i)) && w' == Rol30(w)
    ensures Before(h, m, i + 1, z', v, w', x, y)
  {
    assert Rol30(w) == S30(w);
    hide Temp, S30, Rol30, W;
  }

  /** The macro blk0: swaps the bytes of a loaded word. */
  method Blk0(i: nat, block: array<word>, ghost m: seq<word>) returns (w: word)
    requires i < 16 && Holds(block, m, i)
    modifies block
    ensures |m| == 16 && w == W(m, i) && Holds(block, m, i + 1)
  {
    hide W, Swap;
    LoadedWord(block[..], m, i);
    ScheduleMoves(block[..], m, i);
    ghost var b := block[..];
    assert i % 16 == i;
    block[i] := Swap(block[i]);
    assert block[..] == b[i := W(m, i)];
    w := block[i];
  }

  /** The macro blk: replaces the oldest word by the next one of the schedule. */
  method Blk(i: nat, block: array<word>, ghost m: seq<word>) returns (w: word)
    requires 16 <= i < 80 && Holds(block, m, i)
    modifies block
    ensures |m| == 16 && w == W(m, i) && Holds(block, m, i + 1)
  {
    hide W, Rol1, Swap;
    NextWord(block[..], m, i);
    ScheduleMoves(block[..], m, i);
    ghost var b := block[..];
    w := Rol1(block[(i + 13) % 16] ^ block[(i + 8) % 16] ^ block[(i + 2) % 16] ^ block[i % 16]);
    block[i % 16] := w;
    assert block[..] == b[i % 16 := w];
  }

  // The macros R0 to R4: one round each.  The registers stand still; their roles rotate.

  function R0Sum(v: word, w: word, x: word, y: word, z: word, word: word): word {
    Increase(z, Choice(w, x, y), word, 0x5A827999, Rol5(v))
  }

  lemma R0SumIsTemp(v: word, w: word, x: word, y: word, z: word, i: nat, word: word)
    requires 0 <= i < 16
    ensures R0Sum(v, w, x, y, z, word) == Temp(v, w, x, y, z, i, word)
  {
    ChoiceForm(w, x, y);
    assert Choice(w, x, y) == F(i, w, x, y) && Rol5(v) == S5(v) && K(i) == 0x5A827999;
    hide Choice, Parity, Majority, F, K, S5, Rol5, Sum, Increase;
    Reorder(z, F(i, w, x, y), word, K(i), S5(v));
  }

  function R1Sum(v: word, w: word, x: word, y: word, z: word, word: word): word {
    Increase(z, Choice(w, x, y), word, 0x5A827999, Rol5(v))
  }

  lemma R1SumIsTemp(v: word, w: word, x: word, y: word, z: word, i: nat, word: word)
    requires 16 <= i < 20
    ensures R1Sum(v, w, x, y, z, word) == Temp(v, w, x, y, z, i, word)
  {
    ChoiceForm(w, x, y);
    assert Choice(w, x, y) == F(i, w, x, y) && Rol5(v) == S5(v) && K(i) == 0x5A827999;
    hide Choice, Parity, Majority, F, K, S5, Rol5, Sum, Increase;
    Reorder(z, F(i, w, x, y), word, K(i), S5(v));
  }

  function R2Sum(v: word, w: word, x: word, y: word, z: word, word: word): word {
    Increase(z, Parity(w, x, y), word, 0x6ED9EBA1, Rol5(v))
  }

  lemma R2SumIsTemp(v: word, w: word, x: word, y: word, z: word, i: nat, word: word)
    requires 20 <= i < 40
    ensures R2Sum(v, w, x, y, z, word) == Temp(v, w, x, y, z, i, word)
  {
    assert Parity(w, x, y) == F(i, w, x, y) && Rol5(v) == S5(v) && K(i) == 0x6ED9EBA1;
    hide Choice, Parity, Majority, F, K, S5, Rol5, Sum, Increase;
    Reorder(z, F(i, w, x, y), word, K(i), S5(v));
  }

  function R3Sum(v: word, w: word, x: word, y: word, z: word, word: word): word {
    Increase(z, Majority(w, x, y), word, 0x8F1BBCDC, Rol5(v))
  }

  lemma R3SumIsTemp(v: word, w: word, x: word, y: word, z: word, i: nat, word: word)
    requires 40 <= i < 60
    ensures R3Sum(v, w, x, y, z, word) == Temp(v, w, x, y, z, i, word)
  {
    MajorityForm(w, x, y);
    assert Majority(w, x, y) == F(i, w, x, y) && Rol5(v) == S5(v) && K(i) == 0x8F1BBCDC;
    hide Choice, Parity, Majority, F, K, S5, Rol5, Sum, Increase;
    Reorder(z, F(i, w, x, y), word, K(i), S5(v));
  }

  function R4Sum(v: word, w: word, x: word, y: word, z: word, word: word): word {
    Increase(z, Parity(w, x, y), word, 0xCA62C1D6, Rol5(v))
  }

  lemma R4SumIsTemp(v: word, w: word, x: word, y: word, z: word, i: nat, word: word)
    requires 60 <= i < 80
    ensures R4Sum(v, w, x, y, z, word) == Temp(v, w, x, y, z, i, word)
  {
    assert Parity(w, x, y) == F(i, w, x, y) && Rol5(v) == S5(v) && K(i) == 0xCA62C1D6;
    hide Choice, Parity, Majority, F, K, S5, Rol5, Sum, Increase;
    Reorder(z, F(i, w, x, y), word, K(i), S5(v));
  }

  method R0(v: word, w: word, x: word, y: word, z: word, i: nat, block: array<word>, ghost h: Regs, ghost m: seq<word>)
    returns (z': word, w': word)
    requires 0 <= i < 16 && Before(h, m, i, v, w, x, y, z) && Holds(block, m, i)
    modifies block
    ensures Before(h, m, i + 1, z', v, w', x, y) && Holds(block, m, i + 1)
  {
    hide *;
    var word := Blk0(i, block, m);
    z' := R0Sum(v, w, x, y, z, word);
    w' := Rol30(w);
    R0SumIsTemp(v, w, x, y, z, i, word);
    NextRound(h, m, i, v, w, x, y, z, z', w');
  }

  method R1(v: word, w: word, x: word, y: word, z: word, i: nat, block: array<word>, ghost h: Regs, ghost m: seq<word>)
    returns (z': word, w': word)
    requires 16 <= i < 20 && Before(h, m, i, v, w, x, y, z) && Holds(block, m, i)
    modifies block
    ensures Before(h, m, i + 1, z', v, w', x, y) && Holds(block, m, i + 1)
  {
    hide *;
    var word := Blk(i, block, m);
    z' := R1Sum(v, w, x, y, z, word);
    w' := Rol30(w);
    R1SumIsTemp(v, w, x, y, z, i, word);
    NextRound(h, m, i, v, w, x, y, z, z', w');
  }

  method R2(v: word, w: word, x: word, y: word, z: word, i: nat, block: array<word>, ghost h: Regs, ghost m: seq<word>)
    returns (z': word, w': word)
    requires 20 <= i < 40 && Before(h, m, i, v, w, x, y, z) && Holds(block, m, i)
    modifies block
    ensures Before(h, m, i + 1, z', v, w', x, y) && Holds(block, m, i + 1)
  {
    hide *;
    var word := Blk(i, block, m);
    z' := R2Sum(v, w, x, y, z, word);
    w' := Rol30(w);
    R2SumIsTemp(v, w, x, y, z, i, word);
    NextRound(h, m, i, v, w, x, y, z, z', w');
  }

  method R3(v: word, w: word, x: word, y: word, z: word, i: nat, block: array<word>, ghost h: Regs, ghost m: seq<word>)
    returns (z': word, w': word)
    requires 40 <= i < 60 && Before(h, m, i, v, w, x, y, z) && Holds(block, m, i)
    modifies block
    ensures Before(h, m, i + 1, z', v, w', x, y) && Holds(block, m, i + 1)
  {
    hide *;
    var word := Blk(i, block, m);
    z' := R3Sum(v, w, x, y, z, word);
    w' := Rol30(w);
    R3SumIsTemp(v, w, x, y, z, i, word);
    NextRound(h, m, i, v, w, x, y, z, z', w');
  }

  method R4(v: word, w: word, x: word, y: word, z: word, i: nat, block: array<word>, ghost h: Regs, ghost m: seq<word>)
    returns (z': word, w': word)
    requires 60 <= i < 80 && Before(h, m, i, v, w, x, y, z) && Holds(block, m, i)
    modifies block
    ensures Before(h, m, i + 1, z', v, w', x, y) && Holds(block, m, i + 1)
  {
    hide *;
    var word := Blk(i, block, m);
    z' := R4Sum(v, w, x, y, z, word);
    w' := Rol30(w);
    R4SumIsTemp(v, w, x, y, z, i, word);
    NextRound(h, m, i, v, w, x, y, z, z', w');
  }

  // The eighty rounds, unrolled.

  method Rounds0To9(r: Regs, block: array<word>, ghost h: Regs, ghost m: seq<word>) returns (r': Regs)
    requires Before(h, m, 0, r.a, r.b, r.c, r.d, r.e) && Holds(block, m, 0)
    modifies block
    ensures Before(h, m, 10, r'.a, r'.b, r'.c, r'.d, r'.e) && Holds(block, m, 10)
  {
    hide *;
    var a, b, c, d, e := r.a, r.b, r.c, r.d, r.e;
    e, b := R0(a, b, c, d, e, 0, block, h, m);
    d, a := R0(e, a, b, c, d, 1, block, h, m);
    c, e := R0(d, e, a, b, c, 2, block, h, m);
    b, d := R0(c, d, e, a, b, 3, block, h, m);
    a, c := R0(b, c, d, e, a, 4, block, h, m);
    e, b := R0(a, b, c, d, e, 5, block, h, m);
    d, a := R0(e, a, b, c, d, 6, block, h, m);
    c, e := R0(d, e, a, b, c, 7, block, h, m);
    b, d := R0(c, d, e, a, b, 8, block, h, m);
    a, c := R0(b, c, d, e, a, 9, block, h, m);
    r' := Regs(a, b, c, d, e);
  }

  method Rounds10To19(r: Regs, block: array<word>, ghost h: Regs, ghost m: seq<word>) returns (r': Regs)
    requires Before(h, m, 10, r.a, r.b, r.c, r.d, r.e) && Holds(block, m, 10)
    modifies block
    ensures Before(h, m, 20, r'.a, r'.b, r'.c, r'.d, r'.e) && Holds(block, m, 20)
  {
    hide *;
    var a, b, c, d, e := r.a, r.b, r.c, r.d, r.e;
    e, b := R0(a, b, c, d, e, 10, block, h, m);
    d, a := R0(e, a, b, c, d, 11, block, h, m);
    c, e := R0(d, e, a, b, c, 12, block, h, m);
    b, d := R0(c, d, e, a, b, 13, block, h, m);
    a, c := R0(b, c, d, e, a, 14, block, h, m);
    e, b := R0(a, b, c, d, e, 15, block, h, m);
    d, a := R1(e, a, b, c, d, 16, block, h, m);
    c, e := R1(d, e, a, b, c, 17, block, h, m);
    b, d := R1(c, d, e, a, b, 18, block, h, m);
    a, c := R1(b, c, d, e, a, 19, block, h, m);
    r' := Regs(a, b, c, d, e);
  }

  method Rounds20To29(r: Regs, block: array<word>, ghost h: Regs, ghost m: seq<word>) returns (r': Regs)
    requires Before(h, m, 20, r.a, r.b, r.c, r.d, r.e) && Holds(block, m, 20)
    modifies block
    ensures Before(h, m, 30, r'.a, r'.b, r'.c, r'.d, r'.e) && Holds(block, m, 30)
  {
    hide *;
    var a, b, c, d, e := r.a, r.b, r.c, r.d, r.e;
    e, b := R2(a, b, c, d, e, 20, block, h, m);
    d, a := R2(e, a, b, c, d, 21, block, h, m);
    c, e := R2(d, e, a, b, c, 22, block, h, m);
    b, d := R2(c, d, e, a, b, 23, block, h, m);
    a, c := R2(b, c, d, e, a, 24, block, h, m);
    e, b := R2(a, b, c, d, e, 25, block, h, m);
    d, a := R2(e, a, b, c, d, 26, block, h, m);
    c, e := R2(d, e, a, b, c, 27, block, h, m);
    b, d := R2(c, d, e, a, b, 28, block, h, m);
    a, c := R2(b, c, d, e, a, 29, block, h, m);
    r' := Regs(a, b, c, d, e);
  }

  method Rounds30To39(r: Regs, block: array<word>, ghost h: Regs, ghost m: seq<word>) returns (r': Regs)
    requires Before(h, m, 30, r.a, r.b, r.c, r.d, r.e) && Holds(block, m, 30)
    modifies block
    ensures Before(h, m, 40, r'.a, r'.b, r'.c, r'.d, r'.e) && Holds(block, m, 40)
  {
    hide *;
    var a, b, c, d, e := r.a, r.b, r.c, r.d, r.e;
    e, b := R2(a, b, c, d, e, 30, block, h, m);
    d, a := R2(e, a, b, c, d, 31, block, h, m);
    c, e := R2(d, e, a, b, c, 32, block, h, m);
    b, d := R2(c, d, e, a, b, 33, block, h, m);
    a, c := R2(b, c, d, e, a, 34, block, h, m);
    e, b := R2(a, b, c, d, e, 35, block, h, m);
    d, a := R2(e, a, b, c, d, 36, block, h, m);
    c, e := R2(d, e, a, b, c, 37, block, h, m);
    b, d := R2(c, d, e, a, b, 38, block, h, m);
    a, c := R2(b, c, d, e, a, 39, block, h, m);
    r' := Regs(a, b, c, d, e);
  }

  method Rounds40To49(r: Regs, block: array<word>, ghost h: Regs, ghost m: seq<word>) returns (r': Regs)
    requires Before(h, m, 40, r.a, r.b, r.c, r.d, r.e) && Holds(block, m, 40)
    modifies block
    ensures Before(h, m, 50, r'.a, r'.b, r'.c, r'.d, r'.e) && Holds(block, m, 50)
  {
    hide *;
    var a, b, c, d, e := r.a, r.b, r.c, r.d, r.e;
    e, b := R3(a, b, c, d, e, 40, block, h, m);
    d, a := R3(e, a, b, c, d, 41, block, h, m);
    c, e := R3(d, e, a, b, c, 42, block, h, m);
    b, d := R3(c, d, e, a, b, 43, block, h, m);
    a, c := R3(b, c, d, e, a, 44, block, h, m);
    e, b := R3(a, b, c, d, e, 45, block, h, m);
    d, a := R3(e, a, b, c, d, 46, block, h, m);
    c, e := R3(d, e, a, b, c, 47, block, h, m);
    b, d := R3(c, d, e, a, b, 48, block, h, m);
    a, c := R3(b, c, d, e, a, 49, block, h, m);
    r' := Regs(a, b, c, d, e);
  }

  method Rounds50To59(r: Regs, block: array<word>, ghost h: Regs, ghost m: seq<word>) returns (r': Regs)
    requires Before(h, m, 50, r.a, r.b, r.c, r.d, r.e) && Holds(block, m, 50)
    modifies block
    ensures Before(h, m, 60, r'.a, r'.b, r'.c, r'.d, r'.e) && Holds(block, m, 60)
  {
    hide *;
    var a, b, c, d, e := r.a, r.b, r.c, r.d, r.e;
    e, b := R3(a, b, c, d, e, 50, block, h, m);
    d, a := R3(e, a, b, c, d, 51, block, h, m);
    c, e := R3(d, e, a, b, c, 52, block, h, m);
    b, d := R3(c, d, e, a, b, 53, block, h, m);
    a, c := R3(b, c, d, e, a, 54, block, h, m);
    e, b := R3(a, b, c, d, e, 55, block, h, m);
    d, a := R3(e, a, b, c, d, 56, block, h, m);
    c, e := R3(d, e, a, b, c, 57, block, h, m);
    b, d := R3(c, d, e, a, b, 58, block, h, m);
    a, c := R3(b, c, d, e, a, 59, block, h, m);
    r' := Regs(a, b, c, d, e);
  }

  method Rounds60To69(r: Regs, block: array<word>, ghost h: Regs, ghost m: seq<word>) returns (r': Regs)
    requires Before(h, m, 60, r.a, r.b, r.c, r.d, r.e) && Holds(block, m, 60)
    modifies block
    ensures Before(h, m, 70, r'.a, r'.b, r'.c, r'.d, r'.e) && Holds(block, m, 70)
  {
    hide *;
    var a, b, c, d, e := r.a, r.b, r.c, r.d, r.e;
    e, b := R4(a, b, c, d, e, 60, block, h, m);
    d, a := R4(e, a, b, c, d, 61, block, h, m);
    c, e := R4(d, e, a, b, c, 62, block, h, m);
    b, d := R4(c, d, e, a, b, 63, block, h, m);
    a, c := R4(b, c, d, e, a, 64, block, h, m);
    e, b := R4(a, b, c, d, e, 65, block, h, m);
    d, a := R4(e, a, b, c, d, 66, block, h, m);
    c, e := R4(d, e, a, b, c, 67, block, h, m);
    b, d := R4(c, d, e, a, b, 68, block, h, m);
    a, c := R4(b, c, d, e, a, 69, block, h, m);
    r' := Regs(a, b, c, d, e);
  }

  method Rounds70To79(r: Regs, block: array<word>, ghost h: Regs, ghost m: seq<word>) returns (r': Regs)
    requires Before(h, m, 70, r.a, r.b, r.c, r.d, r.e) && Holds(block, m, 70)
    modifies block
    ensures Before(h, m, 80, r'.a, r'.b, r'.c, r'.d, r'.e) && Holds(block, m, 80)
  {
    hide *;
    var a, b, c, d, e := r.a, r.b, r.c, r.d, r.e;
    e, b := R4(a, b, c, d, e, 70, block, h, m);
    d, a := R4(e, a, b, c, d, 71, block, h, m);
    c, e := R4(d, e, a, b, c, 72, block, h, m);
    b, d := R4(c, d, e, a, b, 73, block, h, m);
    a, c := R4(b, c, d, e, a, 74, block, h, m);
    e, b := R4(a, b, c, d, e, 75, block, h, m);
    d, a := R4(e, a, b, c, d, 76, block, h, m);
    c, e := R4(d, e, a, b, c, 77, block, h, m);
    b, d := R4(c, d, e, a, b, 78, block, h, m);
    a, c := R4(b, c, d, e, a, 79, block, h, m);
    r' := Regs(a, b, c, d, e);
  }

  ghost function StateOf(state: array<word>): Regs
    requires state.Length == 5
    reads state
  {
    Regs(state[0], state[1], state[2], state[3], state[4])
  }

  /** memcpy of 64 bytes into the union, seen as words of a little-endian machine. */
  method LoadBlock(buffer: seq<byte>) returns (block: array<word>)
    requires |buffer| == 64
    ensures fresh(block) && Holds(block, Words(buffer), 0)
  {
    block := new word[16](_ => 0);
    forall i | 0 <= i < 16 {
      block[i] := LittleEndian(buffer[4 * i], buffer[4 * i + 1], buffer[4 * i + 2], buffer[4 * i + 3]);
    }
    forall i | 0 <= i < 16
      ensures Swap(block[i]) == Words(buffer)[i]
    {
      SwapIsBigEndian(buffer[4 * i], buffer[4 * i + 1], buffer[4 * i + 2], buffer[4 * i + 3]);
    }
  }

  method AllRounds(start: Regs, block: array<word>, ghost m: seq<word>) returns (r: Regs)
    requires Before(start, m, 0, start.a, start.b, start.c, start.d, start.e) && Holds(block, m, 0)
    modifies block
    ensures Before(start, m, 80, r.a, r.b, r.c, r.d, r.e)
  {
    hide *;
    r := start;
    r := Rounds0To9(r, block, start, m);
    r := Rounds10To19(r, block, start, m);
    r := Rounds20To29(r, block, start, m);
    r := Rounds30To39(r, block, start, m);
    r := Rounds40To49(r, block, start, m);
    r := Rounds50To59(r, block, start, m);
    r := Rounds60To69(r, block, start, m);
    r := Rounds70To79(r, block, start, m);
  }

  /** SHA1Transform: one block of FIPS PUB 180-1. */
  method Transform(state: array<word>, buffer: seq<byte>)
    requires state.Length == 5 && |buffer| == 64
    modifies state
    ensures StateOf(state) == Compress(old(StateOf(state)), Words(buffer))
  {
    var start := Regs(state[0], state[1], state[2], state[3], state[4]);
    assert StateOf(state) == start;
    hide *;
    StartsBefore(start, Words(buffer));
    var block := LoadBlock(buffer);
    var r := AllRounds(start, block, Words(buffer));
    CompressIs(start, Words(buffer), r);
    AddState(state, r);
  }

  lemma StartsBefore(h: Regs, m: seq<word>)
    requires |m| == 16
    ensures Before(h, m, 0, h.a, h.b, h.c, h.d, h.e)
  {
  }

  lemma CompressIs(h: Regs, m: seq<word>, r: Regs)
    requires |m| == 16 && Before(h, m, 80, r.a, r.b, r.c, r.d, r.e)
    ensures Compress(h, m) == AddRegs(h, r)
  {
    hide AddRegs;
  }

  method AddState(state: array<word>, r: Regs)
    requires state.Length == 5
    modifies state
    ensures StateOf(state) == AddRegs(old(StateOf(state)), r)
  {
    hide Plus;
    state[0] := Plus(state[0], r.a);
    state[1] := Plus(state[1], r.b);
    state[2] := Plus(state[2], r.c);
    state[3] := Plus(state[3], r.d);
    state[4] := Plus(state[4], r.e);
  }

  // ---------- the streaming interface ----------

  const TWO32 := 0x1_0000_0000

  /** 32-bit arithmetic on numbers. */
  function Wrap32(x: nat): nat { x % TWO32 }

  function ShiftLeft3(x: nat): nat { 8 * x % TWO32 }

  function ShiftRight29(x: nat): nat { x / 0x2000_0000 }
  const TWO64 := 0x1_0000_0000_0000_0000

  class Context {
    const state: array<word>
    /** Two 32-bit halves of the number of bits, low half first. */
    var count0: nat
    var count1: nat
    const buffer: array<byte>
    /** What has been hashed so far. */
    ghost var message: seq<byte>

    ghost predicate Valid()
      reads this, state, buffer
    {
      && state.Length == 5 && buffer.Length == 64
      && Counts(count0, count1, |message|)
      && Absorbed(message, StateOf(state), buffer[..])
    }

    /** SHA1Init */
    constructor ()
      ensures Valid() && message == [] && fresh(state) && fresh(buffer)
    {
      state := new word[5] [0x67452301, 0xEFCDAB89, 0x98BADCFE, 0x10325476, 0xC3D2E1F0];
      buffer := new byte[64];
      count0, count1, message := 0, 0, [];
    }

    /** The counting part of SHA1Update, in 32-bit arithmetic. */
    method CountBits(len: nat)
      requires len < TWO32 && Counts(count0, count1, |message|)
      modifies this`count0, this`count1
      ensures Counts(count0, count1, |message| + len)
    {
      hide *;
      CountAdds(count0, count1, |message|, len);
      var j := count0;
      count0 := Wrap32(count0 + ShiftLeft3(len));
      if count0 < j {
        count1 := Wrap32(count1 + 1);
      }
      count1 := Wrap32(count1 + ShiftRight29(len));
    }

    /** SHA1Update.  The source tests j + len in 32-bit arithmetic; the precondition is exactly that
        this sum does not wrap (see LengthTestWraps). */
    method Update(data: seq<byte>)
      requires Valid() && |data| < TWO32 && count0 / 8 % 64 + |data| < TWO32
      modifies this`count0, this`count1, this`message, state, buffer
      ensures Valid() && message == old(message) + data
    {
      CountGivesPosition(count0, count1, |message|);
      var j := count0 / 8 % 64;
      CountBits(|data|);
      AbsorbData(state, buffer, data, j, message);
      message := message + data;
    }

    /** The padding of SHA1Final: a one bit, zeros up to 448 modulo 512 bits, and the bit count. */
    method PadMessage()
      requires Valid()
      modifies this`count0, this`count1, this`message, state, buffer
      ensures Valid() && message == Pad(old(message))
    {
      ghost var m := message;
      var finalCount := CountField(count0, count1);
      CountFieldIsLengthField(count0, count1, |message|);
      hide Valid;
      UpdateByte(0x80);
      PadZeros(m);
      assert Valid() && |finalCount| == 8;
      UpdateField(finalCount);
    }

    method PadZeros(ghost m: seq<byte>)
      requires Valid() && message == m + [0x80]
      modifies this`count0, this`count1, this`message, state, buffer
      ensures Valid() && message == m + [0x80] + Zeros(PadLength(|m|))
    {
      ghost var k := 0;
      hide Valid, PadLength;
      assert message == m + [0x80] + Zeros(0);
      PositionIsLength();
      while count0 / 8 % 64 != 56
        invariant Valid() && k <= PadLength(|m|) && message == m + [0x80] + Zeros(k)
        invariant count0 / 8 % 64 == (|m| + 1 + k) % 64
        decreases PadLength(|m|) - k
      {
        UpdateByte(0);
        PadGoesOn(|m|, k);
        assert Zeros(k + 1) == Zeros(k) + [0];
        k := k + 1;
        PositionIsLength();
      }
      PadGoesOn(|m|, k);
    }

    lemma PositionIsLength()
      requires Valid()
      ensures count0 / 8 % 64 == |message| % 64
    {
      CountGivesPosition(count0, count1, |message|);
    }

    method UpdateByte(b: byte)
      requires Valid()
      modifies this`count0, this`count1, this`message, state, buffer
      ensures Valid() && message == old(message) + [b]
    {
      Update([b]);
    }

    method UpdateField(field: seq<byte>)
      requires Valid() && |field| == 8
      modifies this`count0, this`count1, this`message, state, buffer
      ensures Valid() && message == old(message) + field
    {
      Update(field);
    }

    /** SHA1Final: the digest of everything hashed since SHA1Init; the context is wiped. */
    method Final() returns (digest: array<byte>)
      requires Valid()
      modifies this`count0, this`count1, this`message, state, buffer
      ensures fresh(digest) && digest[..] == Digest(old(message))
    {
      PadMessage();
      AbsorbedAll(message, StateOf(state), buffer[..]);
      digest := EmitDigest(state);
      hide *;
      count0, count1 := 0, 0;
      Wipe(state, buffer);
    }
  }

  lemma PadGoesOn(n: nat, k: nat)
    requires k <= PadLength(n)
    ensures (n + 1 + k) % 64 == 56 <==> k == PadLength(n)
  {
  }

  method Wipe(state: array<word>, buffer: array<byte>)
    modifies state, buffer
    ensures forall k :: 0 <= k < state.Length ==> state[k] == 0
    ensures forall k :: 0 <= k < buffer.Length ==> buffer[k] == 0
  {
    forall k | 0 <= k < state.Length {
      state[k] := 0;
    }
    forall k | 0 <= k < buffer.Length {
      buffer[k] := 0;
    }
  }

  /** The twenty bytes of the state, most significant first. */
  method EmitDigest(state: array<word>) returns (digest: array<byte>)
    requires state.Length == 5
    ensures fresh(digest) && digest[..] == BytesOf(StateOf(state))
  {
    hide *;
    ghost var h := StateOf(state);
    DigestBytes(h);
    digest := new byte[20](_ => 0);
    var i := 0;
    while i < 20
      invariant 0 <= i <= 20 && forall k :: 0 <= k < i ==> digest[k] == BytesOf(h)[k]
    {
      DigestByteOfState(state, i);
      digest[i] := ByteOf(state[i / 4], i % 4);
      i := i + 1;
    }
  }

  lemma DigestByteOfState(state: array<word>, i: nat)
    requires state.Length == 5 && i < 20
    ensures i / 4 < 5 && i % 4 < 4 && DigestByte(StateOf(state), i) == ByteOf(state[i / 4], i % 4)
  {
    hide ByteOf;
  }

  /** Hashing a text in pieces of any size up to 2^32 - 64 bytes gives the digest of the whole. */
  method HashPieces(pieces: seq<seq<byte>>) returns (digest: array<byte>)
    requires forall i :: 0 <= i < |pieces| ==> |pieces[i]| <= TWO32 - 64
    ensures digest[..] == Digest(Concat(pieces))
  {
    var context := new Context();
    hide Context.Valid, Digest;
    var i := 0;
    assert pieces[0..] == pieces;
    while i < |pieces|
      invariant i <= |pieces| && context.Valid() && fresh(context) && fresh(context.state) && fresh(context.buffer)
      invariant context.message + Concat(pieces[i..]) == Concat(pieces)
    {
      assert pieces[i..][0] == pieces[i] && pieces[i..][1..] == pieces[i + 1..];
      context.PositionIsLength();
      context.Update(pieces[i]);
      i := i + 1;
    }
    assert context.message == Concat(pieces);
    digest := context.Final();
  }

  function Concat(pieces: seq<seq<byte>>): seq<byte> {
    if pieces == [] then [] else pieces[0] + Concat(pieces[1..])
  }

  /** The 32-bit test of SHA1Update is right exactly when j + len does not wrap. */
  lemma LengthTestWraps(j: nat, len: nat)
    requires j < 64 && len < TWO32
    ensures (63 < (j + len) % TWO32 <==> 63 < j + len) <==> j + len < TWO32
  {
  }

  function CountField(count0: nat, count1: nat): (b: seq<byte>)
    ensures |b| == 8
  {
    [ToByte(count1 / 0x100_0000), ToByte(count1 / 0x1_0000), ToByte(count1 / 0x100), ToByte(count1),
     ToByte(count0 / 0x100_0000), ToByte(count0 / 0x1_0000), ToByte(count0 / 0x100), ToByte(count0)]
  }

  lemma CountFieldIsLengthField(count0: nat, count1: nat, n: nat)
    requires Counts(count0, count1, n)
    ensures CountField(count0, count1) == LengthField(8 * n % TWO64)
  {
    var bits := count0 + TWO32 * count1;
    HighByte24(count1, count0);
    HighByte16(count1, count0);
    HighByte8(count1, count0);
    assert bits / 0x1_0000_0000 == count1;
    LowByte(count1, count0);
  }

  lemma HighByte24(high: nat, low: nat)
    requires high < TWO32 && low < TWO32
    ensures (low + TWO32 * high) / 0x100_0000_0000_0000 == high / 0x100_0000
  {
    Divides(low + TWO32 * high, 0x100_0000_0000_0000, high / 0x100_0000, TWO32 * (high % 0x100_0000) + low);
  }

  lemma HighByte16(high: nat, low: nat)
    requires high < TWO32 && low < TWO32
    ensures (low + TWO32 * high) / 0x1_0000_0000_0000 == high / 0x1_0000
  {
    Divides(low + TWO32 * high, 0x1_0000_0000_0000, high / 0x1_0000, TWO32 * (high % 0x1_0000) + low);
  }

  lemma HighByte8(high: nat, low: nat)
    requires high < TWO32 && low < TWO32
    ensures (low + TWO32 * high) / 0x100_0000_0000 == high / 0x100
  {
    Divides(low + TWO32 * high, 0x100_0000_0000, high / 0x100, TWO32 * (high % 0x100) + low);
  }

  lemma LowByte(high: nat, low: nat)
    requires high < TWO32 && low < TWO32
    ensures var bits := low + TWO32 * high;
            && bits / 0x100_0000 % 0x100 == low / 0x100_0000 % 0x100
            && bits / 0x1_0000 % 0x100 == low / 0x1_0000 % 0x100
            && bits / 0x100 % 0x100 == low / 0x100 % 0x100
            && bits % 0x100 == low % 0x100
  {
    var bits := low + TWO32 * high;
    Divides(bits, 0x100_0000, low / 0x100_0000 + 0x100 * high, low % 0x100_0000);
    Divides(bits, 0x1_0000, low / 0x1_0000 + 0x1_0000 * high, low % 0x1_0000);
    Divides(bits, 0x100, low / 0x100 + 0x100_0000 * high, low % 0x100);
    ModShift(low / 0x100_0000, 0x100, high);
    ModShift(low / 0x1_0000, 0x100, 0x100 * high);
    ModShift(low / 0x100, 0x100, 0x1_0000 * high);
  }

  lemma AbsorbedAll(text: seq<byte>, h: Regs, buffer: seq<byte>)
    requires Absorbed(text, h, buffer) && |text| % 64 == 0
    ensures h == HashBlocks(text)
  {
    assert text[..|text|] == text;
    hide HashBlocks;
  }

  /** (state[i >> 2] >> ((3 - (i & 3)) * 8)) & 255 */
  function ByteOf(w: word, k: nat): byte {
    if k == 0 then ((w >> 24) & 0xFF) as byte
    else if k == 1 then ((w >> 16) & 0xFF) as byte
    else if k == 2 then ((w >> 8) & 0xFF) as byte
    else (w & 0xFF) as byte
  }

  function Pick<T>(a: T, b: T, c: T, d: T, e: T, j: nat): T {
    if j == 0 then a else if j == 1 then b else if j == 2 then c else if j == 3 then d else e
  }

  function DigestByte(h: Regs, k: nat): byte {
    ByteOf(Pick(h.a, h.b, h.c, h.d, h.e, k / 4), k % 4)
  }

  lemma DigestBytes(h: Regs)
    ensures forall k :: 0 <= k < 20 ==> BytesOf(h)[k] == DigestByte(h, k)
  {
    forall k | 0 <= k < 20
      ensures BytesOf(h)[k] == DigestByte(h, k)
    {
      hide WordBytes, ByteOf;
      WordBytesAt(Pick(h.a, h.b, h.c, h.d, h.e, k / 4), k % 4);
      FlatAt(WordBytes(h.a), WordBytes(h.b), WordBytes(h.c), WordBytes(h.d), WordBytes(h.e), k);
    }
  }

  lemma FlatAt(a: seq<byte>, b: seq<byte>, c: seq<byte>, d: seq<byte>, e: seq<byte>, k: nat)
    requires k < 20 && |a| == |b| == |c| == |d| == |e| == 4
    ensures (a + b + c + d + e)[k] == Pick(a, b, c, d, e, k / 4)[k % 4]
  {
  }

  lemma WordBytesAt(w: word, k: nat)
    requires k < 4
    ensures WordBytes(w)[k] == ByteOf(w, k)
  {
  }

  /** The copying part of SHA1Update: fills up the buffer, hashes it and all complete blocks of the
      data, and keeps the rest.  Index arithmetic is modulo 2^32. */
  method AbsorbData(state: array<word>, buffer: array<byte>, data: seq<byte>, j: nat, ghost m: seq<byte>)
    requires state.Length == 5 && buffer.Length == 64 && j == |m| % 64 && j + |data| < TWO32
    requires Absorbed(m, StateOf(state), buffer[..])
    modifies state, buffer
    ensures Absorbed(m + data, StateOf(state), buffer[..])
  {
    ghost var p := AbsorbedPrefix(m, data, StateOf(state), buffer[..]);
    hide *;
    if 63 < (j + |data|) % TWO32 {
      AbsorbFull(state, buffer, data, j, m + data, p);
    } else {
      KeepRest(state, buffer, j, data, m + data, p);
    }
  }

  /** The branch in which the buffered block becomes complete. */
  method AbsorbFull(state: array<word>, buffer: array<byte>, data: seq<byte>, j: nat,
                    ghost text: seq<byte>, ghost p: nat)
    requires state.Length == 5 && buffer.Length == 64 && j < 64 && 64 <= j + |data| < TWO32
    requires p % 64 == 0 && p + j + |data| == |text| && buffer[..j] + data == text[p..]
    requires StateOf(state) == HashBlocks(text[..p])
    modifies state, buffer
    ensures Absorbed(text, StateOf(state), buffer[..])
  {
    hide *;
    ghost var n := p + j;
    Behind(text, p, buffer[..j], data);
    BlockEnd(p, j);
    FillBuffer(state, buffer, data, j, text, p);
    assert n + (64 - j) == p + 64;
    var i := AbsorbBlocks(state, data, 64 - j, text, n);
    var rest := data[i..];
    BehindRest(text, n, data, i);
    assert |text| == n + |data|;
    assert buffer[..0] + rest == rest;
    KeepRest(state, buffer, 0, rest, text, n + i);
  }

  /** The last memcpy: what is left of the data goes behind the `j` bytes that are buffered. */
  lemma BehindRest(text: seq<byte>, n: nat, data: seq<byte>, i: nat)
    requires n <= |text| && text[n..] == data && i <= |data|
    ensures text[n + i..] == data[i..]
  {
  }

  lemma BlockEnd(p: nat, j: nat)
    requires p % 64 == 0 && j < 64
    ensures (p + j) % 64 == j && (p + j + (64 - j)) % 64 == 0
  {
  }

  lemma Behind(text: seq<byte>, p: nat, a: seq<byte>, b: seq<byte>)
    requires p <= |text|
    ensures text[p..] == a + b ==> p + |a| <= |text| && text[p + |a|..] == b
  {
    if text[p..] == a + b {
      assert (a + b)[|a|..] == b && text[p..][|a|..] == text[p + |a|..];
    }
  }

  method KeepRest(state: array<word>, buffer: array<byte>, j: nat, rest: seq<byte>, ghost text: seq<byte>, ghost p: nat)
    requires state.Length == 5 && buffer.Length == 64 && j + |rest| < 64
    requires p % 64 == 0 && p + j + |rest| == |text| && buffer[..j] + rest == text[p..]
    requires StateOf(state) == HashBlocks(text[..p])
    modifies buffer
    ensures Absorbed(text, StateOf(state), buffer[..])
  {
    CopyBytes(buffer, j, rest);
    assert buffer[..][..|text| - p] == buffer[..j + |rest|];
    KeepsRest(text, p, StateOf(state), buffer[..]);
  }

  /** Completes the buffered block with the first bytes of the data and hashes it. */
  method FillBuffer(state: array<word>, buffer: array<byte>, data: seq<byte>, j: nat,
                    ghost text: seq<byte>, ghost p: nat)
    requires state.Length == 5 && buffer.Length == 64 && j < 64 <= j + |data|
    requires p % 64 == 0 && p + j + |data| == |text| && buffer[..j] + data == text[p..]
    requires StateOf(state) == HashBlocks(text[..p])
    modifies state, buffer
    ensures StateOf(state) == HashBlocks(text[..p + 64])
  {
    hide HashBlocks, Compress, Words;
    assert (buffer[..j] + data)[..64] == buffer[..j] + data[..64 - j];
    CopyBytes(buffer, j, data[..64 - j]);
    assert buffer[..] == buffer[..64] == text[p..][..64] == text[p..p + 64];
    HashNext(text, p);
    Transform(state, buffer[..]);
  }

  /** The loop over the complete blocks of the data. */
  method AbsorbBlocks(state: array<word>, data: seq<byte>, from: nat, ghost text: seq<byte>, ghost n: nat)
    returns (i: nat)
    requires state.Length == 5 && n <= |text| && text[n..] == data && from <= |data| && (n + from) % 64 == 0
    requires n % 64 + |data| < TWO32
    requires StateOf(state) == HashBlocks(text[..n + from])
    modifies state
    ensures i <= |data| < i + 64 && (n + i) % 64 == 0 && StateOf(state) == HashBlocks(text[..n + i])
  {
    i := from;
    hide HashBlocks, Compress, Words;
    NoWrap(n, i, |data|);
    while (i + 63) % TWO32 < |data|
      invariant i <= |data| && (n + i) % 64 == 0 && (i + 63) % TWO32 == i + 63
      invariant StateOf(state) == HashBlocks(text[..n + i])
    {
      assert text[n + i..n + i + 64] == data[i..i + 64];
      HashNext(text, n + i);
      Transform(state, data[i..i + 64]);
      i := i + 64;
      NoWrap(n, i, |data|);
    }
  }

  /** The loop index never gets near 2^32. */
  lemma NoWrap(n: nat, i: nat, len: nat)
    requires (n + i) % 64 == 0 && i <= len && n % 64 + len < TWO32
    ensures (i + 63) % TWO32 == i + 63
  {
    assert (n % 64 + i) % 64 == 0;
  }

  lemma AbsorbedPrefix(m: seq<byte>, data: seq<byte>, h: Regs, buffer: seq<byte>) returns (p: nat)
    requires Absorbed(m, h, buffer)
    ensures p % 64 == 0 && p + |m| % 64 == |m| && |buffer| == 64
    ensures h == HashBlocks((m + data)[..p]) && buffer[..|m| % 64] + data == (m + data)[p..]
  {
    p := |m| - |m| % 64;
    assert (m + data)[..p] == m[..p];
  }

  lemma KeepsRest(text: seq<byte>, p: nat, h: Regs, buffer: seq<byte>)
    requires p % 64 == 0 && p <= |text| < p + 64 && |buffer| == 64
    requires h == HashBlocks(text[..p]) && buffer[..|text| - p] == text[p..]
    ensures Absorbed(text, h, buffer)
  {
    Divides(|text|, 64, p / 64, |text| - p);
    hide HashBlocks;
  }

  method CopyBytes(buffer: array<byte>, offset: nat, data: seq<byte>)
    requires offset + |data| <= buffer.Length
    modifies buffer
    ensures buffer[..offset + |data|] == old(buffer[..offset]) + data
  {
    forall i | 0 <= i < |data| {
      buffer[offset + i] := data[i];
    }
  }

  /** The complete blocks of the text are in the state, the rest is at the start of the buffer. */
  ghost predicate Absorbed(text: seq<byte>, h: Regs, buffer: seq<byte>) {
    var n := |text| - |text| % 64;
    |buffer| == 64 && h == HashBlocks(text[..n]) && buffer[..|text| % 64] == text[n..]
  }

  lemma HashNext(text: seq<byte>, p: nat)
    requires p % 64 == 0 && p + 64 <= |text|
    ensures HashBlocks(text[..p + 64]) == Compress(HashBlocks(text[..p]), Words(text[p..p + 64]))
  {
    var t := text[..p + 64];
    assert t[..|t| - 64] == text[..p] && t[|t| - 64..] == text[p..p + 64];
    hide Compress, Words;
  }

  // ---------- the bit counter ----------

  ghost predicate Counts(count0: nat, count1: nat, n: nat) {
    count0 < TWO32 && count1 < TWO32 && count0 + TWO32 * count1 == 8 * n % TWO64
  }

  /** The buffer position is read off the low half of the counter. */
  lemma CountGivesPosition(count0: nat, count1: nat, n: nat)
    requires Counts(count0, count1, n)
    ensures count0 / 8 % 64 == n % 64
  {
    var q := 8 * n / TWO64;
    assert count0 == 8 * (n - 0x2000_0000_0000_0000 * q - 0x2000_0000 * count1);
    var k := 0x80_0000_0000_0000 * q + 0x80_0000 * count1;
    ModShift(count0 / 8, 64, k);
  }

  /** The two-word addition with carry. */
  lemma CountAdds(count0: nat, count1: nat, n: nat, len: nat)
    requires Counts(count0, count1, n) && len < TWO32
    ensures var low := Wrap32(count0 + ShiftLeft3(len));
            var carried := if low < count0 then Wrap32(count1 + 1) else count1;
            Counts(low, Wrap32(carried + ShiftRight29(len)), n + len)
  {
    hide Wrap32, ShiftLeft3, ShiftRight29;
    var l, h := ShiftLeft3(len), ShiftRight29(len);
    var low := Wrap32(count0 + l);
    var carry := if low < count0 then 1 else 0;
    var carried := if low < count0 then Wrap32(count1 + 1) else count1;
    SplitLength(len);
    LowHalf(count0, l);
    HighHalf(count1, low < count0, h);
    AddParts(8 * n, count0, count1, 8 * len, l, h, low, carry, Wrap32(carried + h));
  }

  lemma AddParts(bits: nat, c0: nat, c1: nat, more: nat, l: nat, h: nat, low: nat, carry: nat, high: nat)
    requires c0 + TWO32 * c1 == bits % TWO64 && more == TWO32 * h + l && low < TWO32
    requires c0 + l == low + TWO32 * carry
    requires high == (if c1 + carry + h < TWO32 then c1 + carry + h else c1 + carry + h - TWO32) < TWO32
    ensures low + TWO32 * high == (bits + more) % TWO64
  {
    var q := if c1 + carry + h < TWO32 then 0 else 1;
    Combine(bits, c0, c1, more, low, high, q);
  }

  lemma SplitLength(len: nat)
    requires len < TWO32
    ensures 8 * len == TWO32 * ShiftRight29(len) + ShiftLeft3(len)
    ensures ShiftLeft3(len) < TWO32 && ShiftRight29(len) < 0x8000_0000
  {
  }

  lemma LowHalf(c: nat, l: nat)
    requires c < TWO32 && l < TWO32
    ensures var low := Wrap32(c + l); low < TWO32 && c + l == low + TWO32 * (if low < c then 1 else 0)
  {
  }

  lemma HighHalf(c: nat, carries: bool, h: nat)
    requires c < TWO32 && h < 0x8000_0000
    ensures var s, carried := c + (if carries then 1 else 0) + h, if carries then Wrap32(c + 1) else c;
            Wrap32(carried + h) == (if s < TWO32 then s else s - TWO32) < TWO32
  {
  }

  lemma Combine(bits: nat, c0: nat, c1: nat, more: nat, low: nat, high: nat, q: nat)
    requires c0 + TWO32 * c1 == bits % TWO64 && low < TWO32 && high < TWO32
    requires c0 + TWO32 * c1 + more == low + TWO32 * high + TWO64 * q
    ensures low + TWO32 * high == (bits + more) % TWO64
  {
    var p := bits / TWO64;
    assert bits + more == TWO64 * (p + q) + (low + TWO32 * high);
  }
}

/** Which of the 16384 slots of a Redis cluster a key belongs to: the CRC of the key, or of its hash
    tag if it has one. */
module KeySlots {
  import Crc16

  type key = seq<bv8>

  const CLUSTER_SLOTS := 16384
  const OPEN: bv8 := 0x7B
  const CLOSE: bv8 := 0x7D

  /** The first position of `c` at or after `from`, or the length of the key. */
  function Find(k: key, c: bv8, from: nat): (i: nat)
    requires from <= |k|
    ensures from <= i <= |k| && (i < |k| ==> k[i] == c)
    ensures forall j :: from <= j < i ==> k[j] != c
    decreases |k| - from
  {
    if from == |k| || k[from] == c then from else Find(k, c, from + 1)
  }

  /** What is hashed: the text between the first '{' and the first '}' behind it, unless there is no
      such pair or nothing in between. */
  function HashedPart(k: key): key {
    var s := Find(k, OPEN, 0);
    if s == |k| then k
    else
      var e := Find(k, CLOSE, s + 1);
      if e == |k| || e == s + 1 then k else k[s + 1..e]
  }

  /** `tag` is the hash tag of the key. */
  ghost predicate HasTag(k: key, before: key, tag: key, after: key) {
    k == before + [0x7B] + tag + [0x7D] + after && 0x7B !in before && 0x7D !in tag && tag != []
  }

  lemma FindIs(k: key, c: bv8, from: nat, i: nat)
    requires from <= i <= |k| && (i < |k| ==> k[i] == c) && forall j :: from <= j < i ==> k[j] != c
    ensures Find(k, c, from) == i
  {
  }

  lemma TagIsHashed(k: key, before: key, tag: key, after: key)
    requires HasTag(k, before, tag, after)
    ensures HashedPart(k) == tag
  {
    var s := |before|;
    FindIs(k, OPEN, 0, s);
    forall j | s + 1 <= j < s + 1 + |tag|
      ensures k[j] != CLOSE
    {
      assert k[j] == tag[j - s - 1];
    }
    FindIs(k, CLOSE, s + 1, s + 1 + |tag|);
    assert k[s + 1..s + 1 + |tag|] == tag;
  }

  /** The hashed part is the hash tag of a key that has one, and the whole of any other key. */
  lemma HashedPartIff(k: key)
    ensures (exists before, tag, after :: HasTag(k, before, tag, after)) ==>
              exists before, tag, after :: HasTag(k, before, tag, after) && HashedPart(k) == tag
    ensures (forall before, tag, after :: !HasTag(k, before, tag, after)) ==> HashedPart(k) == k
  {
    if before, tag, after :| HasTag(k, before, tag, after) {
      TagIsHashed(k, before, tag, after);
    } else {
      var s := Find(k, OPEN, 0);
      if s < |k| {
        var e := Find(k, CLOSE, s + 1);
        if s + 1 < e < |k| {
          assert k == k[..s] + [OPEN] + k[s + 1..e] + [CLOSE] + k[e + 1..];
          assert HasTag(k, k[..s], k[s + 1..e], k[e + 1..]);
        }
      }
    }
  }

  /** The low 14 bits. */
  function LowBits(crc: bv16): bv16 { crc & 0x3FFF }

  /** The lowest 14 bits are kept, the two above them cleared. */
  lemma LowBitsAre(crc: bv16)
    ensures LowBits(crc) < 0x4000
    ensures Crc16.Bits16(LowBits(crc)) == [false, false] + Crc16.Bits16(crc)[2..]
  {
    hide LowBits, Crc16.Bit;
    LowBitsBelow(crc);
    forall k | 0 <= k < 16
      ensures Crc16.Bit(LowBits(crc), k) == (2 <= k && Crc16.Bit(crc, k))
    {
      LowBit(crc, k);
    }
  }

  lemma LowBitsBelow(crc: bv16)
    ensures LowBits(crc) < 0x4000
  {
  }

  lemma LowBit(crc: bv16, k: nat)
    requires k < 16
    ensures Crc16.Bit(LowBits(crc), k) == (2 <= k && Crc16.Bit(crc, k))
  {
    if k < 8 {
      HighBit(crc, k);
    } else {
      LowerBit(crc, k);
    }
    hide *;
  }

  lemma HighBit(crc: bv16, k: nat)
    requires k < 8
    ensures Crc16.Bit(LowBits(crc), k) == (2 <= k && Crc16.Bit(crc, k))
  {
  }

  lemma LowerBit(crc: bv16, k: nat)
    requires 8 <= k < 16
    ensures Crc16.Bit(LowBits(crc), k) == Crc16.Bit(crc, k)
  {
  }

  ghost function SlotOf(k: key): bv16 {
    LowBits(Crc16.Crc(HashedPart(k)))
  }

  /** The search for the hash tag in keyHashSlot. */
  method FindHashedPart(k: key) returns (part: key)
    ensures part == HashedPart(k)
  {
    part := k;
    var s := 0;
    while s < |k| && k[s] != OPEN
      invariant 0 <= s <= |k| && Find(k, OPEN, s) == Find(k, OPEN, 0)
    {
      s := s + 1;
    }
    if s < |k| {
      var e := s + 1;
      while e < |k| && k[e] != CLOSE
        invariant s < e <= |k| && Find(k, CLOSE, e) == Find(k, CLOSE, s + 1)
      {
        e := e + 1;
      }
      if e != |k| && e != s + 1 {
        part := k[s + 1..e];
      }
    }
  }

  /** keyHashSlot */
  method KeyHashSlot(k: key) returns (slot: bv16)
    ensures slot == SlotOf(k) && slot < 0x4000
    ensures var dividend := Crc16.BitsOf(HashedPart(k)) + Crc16.Zeros(16);
            Crc16.Bits16(slot) == [false, false] + Crc16.Remainder(dividend)[2..]
  {
    hide LowBits, HashedPart, Crc16.Crc, Crc16.Bit, Crc16.BitsOf, Crc16.Remainder;
    var part := FindHashedPart(k);
    var crc := Crc16.Compute(part);
    LowBitsAre(crc);
    Crc16.CrcIsRemainder(part);
    slot := LowBits(crc);
  }

  /** The keys "foo" and "a{foo}b". */
  lemma ExampleSlots()
    ensures SlotOf([0x66, 0x6F, 0x6F]) == 12182 == SlotOf([0x61, 0x7B, 0x66, 0x6F, 0x6F, 0x7D, 0x62])
  {
    var foo, k: key := [0x66, 0x6F, 0x6F], [0x61, 0x7B, 0x66, 0x6F, 0x6F, 0x7D, 0x62];
    assert HashedPart(foo) == foo by {
      WithoutBrace(foo);
    }
    assert HashedPart(k) == foo by {
      assert k == [0x61] + [0x7B] + foo + [0x7D] + [0x62];
      TagIsHashed(k, [0x61], foo, [0x62]);
    }
    FooHashed();
    assert LowBits(0xAF96) == 12182;
  }

  lemma FooHashed()
    ensures Crc16.Crc([0x66, 0x6F, 0x6F]) == 0xAF96
  {
    hide *;
    var foo: key := [0x66, 0x6F, 0x6F];
    Crc16.NothingHashed(foo);
    FooSteps();
    Crc16.ThreeMoreBytes(foo, 0, 0, 0x0C60, 0x3CC5, 0xAF96);
    assert foo[..3] == foo;
  }

  lemma FooSteps()
    ensures Crc16.Plus(Crc16.LowRaised(0), Crc16.Entry(Crc16.Index(0, 0x66))) == 0x0C60
    ensures Crc16.Plus(Crc16.LowRaised(0x0C60), Crc16.Entry(Crc16.Index(0x0C60, 0x6F))) == 0x3CC5
    ensures Crc16.Plus(Crc16.LowRaised(0x3CC5), Crc16.Entry(Crc16.Index(0x3CC5, 0x6F))) == 0xAF96
  {
  }

  lemma WithoutBrace(k: key)
    requires OPEN !in k
    ensures HashedPart(k) == k
  {
    FindIs(k, OPEN, 0, |k|);
  }

  /** Keys with the same non-empty first hash tag share a slot, which is also that of the tag itself
      when it contains no '{'. */
  lemma SameTagSameSlot(k: key, b: key, a: key, k': key, b': key, a': key, tag: key)
    requires HasTag(k, b, tag, a) && HasTag(k', b', tag, a')
    ensures SlotOf(k) == SlotOf(k')
    ensures OPEN !in tag ==> SlotOf(tag) == SlotOf(k)
  {
    hide HasTag, HashedPart, Crc16.Crc;
    TagIsHashed(k, b, tag, a);
    TagIsHashed(k', b', tag, a');
    if OPEN !in tag {
      WithoutBrace(tag);
    }
  }
}

/** The 32-bit accumulator of the 7-bit varint reader: each group ORed in at
    its shift. */
module GroupBits {
  import opened Common

  /** A 32-bit pattern read as an unsigned integer. */
  function Value(x: bv32): (r: nat)
    ensures r < 0x1_0000_0000
  {
    x as int
  }

  /** The shift 7k of the k-th group. */
  function ShiftOf(k: nat): (r: bv32)
    requires k <= 5
    ensures k < 5 ==> r <= 28
  {
    if k == 0 then 0
    else if k == 1 then 7
    else if k == 2 then 14
    else if k == 3 then 21
    else if k == 4 then 28
    else 35
  }

  /** 2^7k: the weight of the k-th group. */
  function Weight(k: nat): (r: nat)
    requires k < 5
    ensures 1 <= r <= 0x1000_0000
  {
    if k == 0 then 1
    else if k == 1 then 0x80
    else if k == 2 then 0x4000
    else if k == 3 then 0x20_0000
    else 0x1000_0000
  }

  /** 2^7k as a 32-bit pattern: after k groups every set bit lies below it. */
  function Room(k: nat): bv32
    requires k < 5
  {
    if k == 0 then 1
    else if k == 1 then 0x80
    else if k == 2 then 0x4000
    else if k == 3 then 0x20_0000
    else 0x1000_0000
  }

  /** The eight bits of a byte. */
  function ByteBits(b: byte): (r: bv8)
    ensures r as int == b
  {
    if b == 0 then 0 else
      var r := ByteBits(b - 1);
      Increment(r);
      r + 1
  }

  /** Adding one to a byte below 0xFF does not wrap. */
  lemma Increment(x: bv8)
    requires x as int < 0xFF
    ensures (x + 1) as int == x as int + 1
  {
  }

  /** `b & 0x7F` widened to 32 bits: the byte's group, its low seven bits. */
  function Group(b: byte): (g: bv32)
    ensures g < 0x80 && Value(g) == b % 0x80
  {
    LowSevenBits(ByteBits(b));
    (ByteBits(b) & 0x7F) as bv32
  }

  lemma LowSevenBits(x: bv8)
    ensures var g := (x & 0x7F) as bv32; g < 0x80 && g as int == x as int % 0x80
  {
  }

  /** The accumulation step `result |= g << shift`. */
  function Accumulate(result: bv32, g: bv32, shift: bv32): bv32
    requires shift <= 28
  {
    result | (g << shift)
  }

  /** The shifts step by seven; the fifth group's is the last below 35. */
  lemma NextShift(k: nat)
    requires k <= 5
    ensures ShiftOf(0) == 0 && (k < 5 ==> ShiftOf(k + 1) == ShiftOf(k) + 7)
    ensures ShiftOf(k) >= 35 <==> k == 5
  {
  }

  /** On a 32-bit int whose set bits all lie below bit 7k, the step adds
      the group at weight 2^7k: the bits are disjoint. What the shift pushes
      past bit 31 is lost. */
  lemma OrGroup(result: bv32, g: bv32, k: nat)
    requires k < 5 && result < Room(k) && Value(result) < Weight(k) && g < 0x80 && Value(g) < 0x80
    ensures Value(Accumulate(result, g, ShiftOf(k))) == (Value(result) + Value(g) * Weight(k)) % 0x1_0000_0000
    ensures k < 4 ==> Accumulate(result, g, ShiftOf(k)) < Room(k + 1)
  {
    hide *;
    if k == 0 {
      OrAt0(result, g, k);
    } else if k == 1 {
      OrAt7(result, g, k);
    } else if k == 2 {
      OrAt14(result, g, k);
    } else if k == 3 {
      OrAt21(result, g, k);
    } else {
      OrAt28(result, g, k);
    }
  }

  /** The step at each of the five shifts: `At` names the shift and the
      weights, `Disjoint` is the fact about the bits. */
  lemma OrAt0(a: bv32, g: bv32, k: nat)
    requires k == 0 && a < Room(k) && Value(a) < Weight(k) && g < 0x80 && Value(g) < 0x80
    ensures Value(Accumulate(a, g, ShiftOf(k))) == (Value(a) + Value(g) * Weight(k)) % 0x1_0000_0000
    ensures Accumulate(a, g, ShiftOf(k)) < Room(k + 1)
  {
    hide *;
    At0(a, g, k);
    Disjoint0(a, g);
    NoWrap(a as int + g as int * 1);
  }

  lemma At0(a: bv32, g: bv32, k: nat)
    requires k == 0
    ensures Accumulate(a, g, ShiftOf(k)) == a | (g << 0) && Value(Accumulate(a, g, ShiftOf(k))) == (a | (g << 0)) as int
    ensures Value(a) == a as int && Value(g) == g as int && Weight(k) == 1 && Room(k) == 1 && Room(k + 1) == 0x80
  {
  }

  lemma Disjoint0(a: bv32, g: bv32)
    requires a < 1 && g < 0x80
    ensures (a | (g << 0)) as int == a as int + g as int * 1 && a | (g << 0) < 0x80
  {
  }

  lemma OrAt7(a: bv32, g: bv32, k: nat)
    requires k == 1 && a < Room(k) && Value(a) < Weight(k) && g < 0x80 && Value(g) < 0x80
    ensures Value(Accumulate(a, g, ShiftOf(k))) == (Value(a) + Value(g) * Weight(k)) % 0x1_0000_0000
    ensures Accumulate(a, g, ShiftOf(k)) < Room(k + 1)
  {
    hide *;
    At7(a, g, k);
    Disjoint7(a, g);
    NoWrap(a as int + g as int * 0x80);
  }

  lemma At7(a: bv32, g: bv32, k: nat)
    requires k == 1
    ensures Accumulate(a, g, ShiftOf(k)) == a | (g << 7) && Value(Accumulate(a, g, ShiftOf(k))) == (a | (g << 7)) as int
    ensures Value(a) == a as int && Value(g) == g as int && Weight(k) == 0x80 && Room(k) == 0x80 && Room(k + 1) == 0x4000
  {
  }

  lemma Disjoint7(a: bv32, g: bv32)
    requires a < 0x80 && g < 0x80
    ensures (a | (g << 7)) as int == a as int + g as int * 0x80 && a | (g << 7) < 0x4000
  {
  }

  lemma OrAt14(a: bv32, g: bv32, k: nat)
    requires k == 2 && a < Room(k) && Value(a) < Weight(k) && g < 0x80 && Value(g) < 0x80
    ensures Value(Accumulate(a, g, ShiftOf(k))) == (Value(a) + Value(g) * Weight(k)) % 0x1_0000_0000
    ensures Accumulate(a, g, ShiftOf(k)) < Room(k + 1)
  {
    hide *;
    At14(a, g, k);
    Disjoint14(a, g);
    NoWrap(a as int + g as int * 0x4000);
  }

  lemma At14(a: bv32, g: bv32, k: nat)
    requires k == 2
    ensures Accumulate(a, g, ShiftOf(k)) == a | (g << 14) && Value(Accumulate(a, g, ShiftOf(k))) == (a | (g << 14)) as int
    ensures Value(a) == a as int && Value(g) == g as int && Weight(k) == 0x4000 && Room(k) == 0x4000 && Room(k + 1) == 0x20_0000
  {
  }

  lemma Disjoint14(a: bv32, g: bv32)
    requires a < 0x4000 && g < 0x80
    ensures (a | (g << 14)) as int == a as int + g as int * 0x4000 && a | (g << 14) < 0x20_0000
  {
  }

  lemma OrAt21(a: bv32, g: bv32, k: nat)
    requires k == 3 && a < Room(k) && Value(a) < Weight(k) && g < 0x80 && Value(g) < 0x80
    ensures Value(Accumulate(a, g, ShiftOf(k))) == (Value(a) + Value(g) * Weight(k)) % 0x1_0000_0000
    ensures Accumulate(a, g, ShiftOf(k)) < Room(k + 1)
  {
    hide *;
    At21(a, g, k);
    Disjoint21(a, g);
    NoWrap(a as int + g as int * 0x20_0000);
  }

  lemma At21(a: bv32, g: bv32, k: nat)
    requires k == 3
    ensures Accumulate(a, g, ShiftOf(k)) == a | (g << 21) && Value(Accumulate(a, g, ShiftOf(k))) == (a | (g << 21)) as int
    ensures Value(a) == a as int && Value(g) == g as int && Weight(k) == 0x20_0000 && Room(k) == 0x20_0000 && Room(k + 1) == 0x1000_0000
  {
  }

  lemma Disjoint21(a: bv32, g: bv32)
    requires a < 0x20_0000 && g < 0x80
    ensures (a | (g << 21)) as int == a as int + g as int * 0x20_0000 && a | (g << 21) < 0x1000_0000
  {
  }

  lemma OrAt28(a: bv32, g: bv32, k: nat)
    requires k == 4 && a < Room(k) && Value(a) < Weight(k) && g < 0x80 && Value(g) < 0x80
    ensures Value(Accumulate(a, g, ShiftOf(k))) == (Value(a) + Value(g) * Weight(k)) % 0x1_0000_0000
  {
    hide *;
    At28(a, g, k);
    Disjoint28(a, g);
  }

  lemma At28(a: bv32, g: bv32, k: nat)
    requires k == 4
    ensures Accumulate(a, g, ShiftOf(k)) == a | (g << 28) && Value(Accumulate(a, g, ShiftOf(k))) == (a | (g << 28)) as int
    ensures Value(a) == a as int && Value(g) == g as int && Weight(k) == 0x1000_0000 && Room(k) == 0x1000_0000
  {
  }

  /** At shift 28 only the group's low four bits stay inside 32 bits. */
  lemma Disjoint28(a: bv32, g: bv32)
    requires a < 0x1000_0000 && a as int < 0x1000_0000 && g < 0x80 && g as int < 0x80
    ensures (a | (g << 28)) as int == (a as int + g as int * 0x1000_0000) % 0x1_0000_0000
  {
    LowFour(g);
    Disjoint28Low(a, g);
    FifthWeight(a as int, g as int, (g & 0xF) as int);
  }

  lemma LowFour(g: bv32)
    requires g < 0x80
    ensures (g & 0xF) as int == g as int % 16
  {
  }

  lemma Disjoint28Low(a: bv32, g: bv32)
    requires a < 0x1000_0000 && g < 0x80
    ensures (a | (g << 28)) as int == a as int + (g & 0xF) as int * 0x1000_0000
  {
  }

  /** A value below 2^32 is unchanged by the 32-bit cut. */
  lemma NoWrap(x: int)
    requires 0 <= x < 0x1_0000_0000
    ensures x % 0x1_0000_0000 == x
  {
  }

  /** Cut to 32 bits, only the low four bits of a group at bit 28 survive. */
  lemma FifthWeight(a: nat, g: nat, low: nat)
    requires a < 0x1000_0000 && g < 0x80 && low == g % 16
    ensures (a + g * 0x1000_0000) % 0x1_0000_0000 == a + low * 0x1000_0000
  {
    var high := g / 16;
    assert g * 0x1000_0000 == low * 0x1000_0000 + high * 0x1_0000_0000;
  }
}

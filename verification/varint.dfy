/** The 7-bit variable-length integer codec shared by the Alt7Bit and UCSP
    formats: seven bits per byte, least significant group first, bit 0x80 set
    on every byte but the last. */
module VarInt {
  import opened Common
  import opened GroupBits

  /** 128^k, the weight of the k-th seven-bit group (shift 7k). */
  function Pow128(k: nat): (r: nat)
    ensures r >= 1
  {
    if k == 0 then 1 else 0x80 * Pow128(k - 1)
  }

  /** The bytes written for the unsigned magnitude `v`. */
  function EncodeU32(v: nat): (r: seq<byte>)
    ensures 1 <= |r|
    ensures v < 0x80 ==> r == [v]
    ensures forall i :: 0 <= i < |r| - 1 ==> r[i] >= 0x80
    ensures r[|r| - 1] < 0x80
    decreases v
  {
    if v < 0x80 then [v] else [v % 0x80 + 0x80] + EncodeU32(v / 0x80)
  }

  /** The bytes `Write7BitEncodedInt` writes for the C# int `value`: its bit
      pattern is first reinterpreted as unsigned. */
  function Encode(value: int32): (r: seq<byte>)
    ensures 1 <= |r| <= 5
    ensures value < 0 ==> |r| == 5
    ensures 0 <= value < 0x80 ==> r == [value]
  {
    var u := ToUint32(value);
    Uint32Length(u);
    EncodeU32(u)
  }

  /** Every 32-bit magnitude takes at most five bytes, and one with a bit at or
      above bit 28 takes exactly five. */
  lemma Uint32Length(u: uint32)
    ensures |EncodeU32(u)| <= 5
    ensures u >= 0x1000_0000 ==> |EncodeU32(u)| == 5
  {
    assert Pow128(5) == 0x8_0000_0000;
    EncodeLengthAtMost(u, 5);
    if u >= 0x1000_0000 {
      assert Pow128(4) == 0x1000_0000;
      EncodeLengthAbove(u, 4);
    }
  }

  /** A magnitude below 128^n takes at most n bytes. */
  lemma {:induction false} EncodeLengthAtMost(v: nat, n: nat)
    requires n >= 1 && v < Pow128(n)
    ensures |EncodeU32(v)| <= n
    decreases v
  {
    if v >= 0x80 {
      assert v / 0x80 < Pow128(n - 1) by {
        assert Pow128(n) == 0x80 * Pow128(n - 1);
      }
      assert n - 1 >= 1;
      EncodeLengthAtMost(v / 0x80, n - 1);
      assert EncodeU32(v) == [v % 0x80 + 0x80] + EncodeU32(v / 0x80);
    }
  }

  /** A magnitude of at least 128^n takes more than n bytes. */
  lemma {:induction false} EncodeLengthAbove(v: nat, n: nat)
    requires Pow128(n) <= v
    ensures |EncodeU32(v)| > n
    decreases v
  {
    if n > 0 {
      assert Pow128(n - 1) <= v / 0x80;
      EncodeLengthAbove(v / 0x80, n - 1);
    }
  }

  /** The method as written: a loop that emits low groups while the rest is
      at least 0x80, then the last group. */
  method Write7BitEncodedInt(value: int32) returns (out: seq<byte>)
    ensures out == Encode(value)
  {
    var v: nat := ToUint32(value);
    out := [];
    while v >= 0x80
      invariant out + EncodeU32(v) == Encode(value)
      decreases v
    {
      EmitGroup(out, v);
      var group: byte := v % 0x80 + 0x80;
      out := out + [group];
      v := v / 0x80;
    }
    var last: byte := v;
    out := out + [last];
  }

  /** Emitting the low group with the continuation bit leaves the rest of
      the encoding to write. */
  lemma EmitGroup(out: seq<byte>, v: nat)
    requires v >= 0x80
    ensures (out + [v % 0x80 + 0x80]) + EncodeU32(v / 0x80) == out + EncodeU32(v)
  {
    assert EncodeU32(v) == [v % 0x80 + 0x80] + EncodeU32(v / 0x80);
  }

  /** The value carried by a run of encoded bytes: the low seven bits of
      byte i weigh 128^i. */
  function GroupsValue(bs: seq<byte>): nat
  {
    if |bs| == 0 then 0 else bs[0] % 0x80 + 0x80 * GroupsValue(bs[1..])
  }

  /** How many bytes the decoding loop consumes at `start`, having consumed
      `i` with the continuation bit already: it stops at the first byte with
      the bit clear, fails before a sixth read (shift 35), and fails when the
      file ends first. */
  function ScanFrom(s: seq<byte>, start: nat, i: nat): (r: Result<nat>)
    requires start + i <= |s| && i <= 5
    ensures r.Ok? ==> i < r.value <= 5 && start + r.value <= |s|
    ensures r.Ok? ==> s[start + r.value - 1] < 0x80
    ensures r.Fail? ==> r.error == VarIntTooLong || r.error == EndOfStream
    decreases 5 - i
  {
    if i >= 5 then Fail(VarIntTooLong)
    else if start + i >= |s| then Fail(EndOfStream)
    else if s[start + i] < 0x80 then Ok(i + 1)
    else ScanFrom(s, start, i + 1)
  }

  /** `Read7BitEncodedInt` on the file `s` at position `pos`: the bytes up to
      the terminator, their groups summed and cut to 32 bits. The source ORs
      each group in at shift 7i; the groups occupy disjoint bits, so this is
      the sum, and `(b & 0x7F) << 28` keeps only the low four bits of the
      fifth group, which is the final `% 0x1_0000_0000`. */
  function ReadVarInt(s: seq<byte>, pos: nat): (r: Result<Parsed<int32>>)
    requires pos <= |s|
    ensures r.Ok? ==> pos < r.value.next <= pos + 5 && r.value.next <= |s|
    ensures r.Ok? ==> s[r.value.next - 1] < 0x80
    ensures r.Fail? ==> r.error == VarIntTooLong || r.error == EndOfStream
  {
    var n :- ScanFrom(s, pos, 0);
    Ok(Parsed(ToInt32(GroupsValue(s[pos..pos + n]) % 0x1_0000_0000), pos + n))
  }

  /** The scan consumes every byte that carries the continuation bit. */
  lemma {:induction false} ScanContinues(s: seq<byte>, start: nat, i: nat)
    requires start + i <= |s| && i <= 5 && ScanFrom(s, start, i).Ok?
    ensures forall j :: start + i <= j < start + ScanFrom(s, start, i).value - 1 ==> s[j] >= 0x80
    decreases 5 - i
  {
    if s[start + i] >= 0x80 {
      ScanContinues(s, start, i + 1);
    }
  }

  /** The overflow guard: five bytes with the continuation bit make the read
      fail, and only then; no sixth byte is looked at. */
  lemma {:induction false} ScanTooLong(s: seq<byte>, start: nat, i: nat)
    requires start + i <= |s| && i <= 5
    ensures ScanFrom(s, start, i) == Fail(VarIntTooLong) <==>
              start + 5 <= |s| && forall j :: start + i <= j < start + 5 ==> s[j] >= 0x80
    decreases 5 - i
  {
    if i < 5 && start + i < |s| && s[start + i] >= 0x80 {
      ScanTooLong(s, start, i + 1);
    }
  }

  /** The end of the file before a terminating byte makes the read fail. */
  lemma {:induction false} ScanEndOfStream(s: seq<byte>, start: nat, i: nat)
    requires start + i <= |s| && i <= 5
    ensures ScanFrom(s, start, i) == Fail(EndOfStream) <==>
              |s| < start + 5 && forall j :: start + i <= j < |s| ==> s[j] >= 0x80
    decreases 5 - i
  {
    if i < 5 && start + i < |s| && s[start + i] >= 0x80 {
      ScanEndOfStream(s, start, i + 1);
    }
  }

  /** What a successful read consumed: bytes with the continuation bit, then
      one without, at most five in all. */
  lemma ReadConsumes(s: seq<byte>, pos: nat)
    requires pos <= |s| && ReadVarInt(s, pos).Ok?
    ensures var next := ReadVarInt(s, pos).value.next;
            && next <= pos + 5
            && s[next - 1] < 0x80
            && forall j :: pos <= j < next - 1 ==> s[j] >= 0x80
  {
    ScanContinues(s, pos, 0);
  }

  /** The read fails with the overflow error exactly when the first five
      bytes all carry the continuation bit. */
  lemma ReadTooLong(s: seq<byte>, pos: nat)
    requires pos <= |s|
    ensures ReadVarInt(s, pos) == Fail(VarIntTooLong) <==>
              pos + 5 <= |s| && forall j :: pos <= j < pos + 5 ==> s[j] >= 0x80
  {
    ScanTooLong(s, pos, 0);
  }

  /** The read fails with end of stream exactly when the file ends within
      five bytes and before any byte without the continuation bit. */
  lemma ReadEndOfStream(s: seq<byte>, pos: nat)
    requires pos <= |s|
    ensures ReadVarInt(s, pos) == Fail(EndOfStream) <==>
              |s| < pos + 5 && forall j :: pos <= j < |s| ==> s[j] >= 0x80
  {
    ScanEndOfStream(s, pos, 0);
  }

  /** `n` groups carry less than 128^n. */
  lemma {:induction false} GroupsValueBound(bs: seq<byte>)
    ensures GroupsValue(bs) < Pow128(|bs|)
  {
    if |bs| > 0 {
      GroupsValueBound(bs[1..]);
    }
  }

  lemma GroupsValueCons(b: byte, rest: seq<byte>)
    ensures GroupsValue([b] + rest) == b % 0x80 + 0x80 * GroupsValue(rest)
  {
    assert ([b] + rest)[1..] == rest;
  }

  /** `g << 7k` on unbounded integers: the group `g` moved to weight 128^k. */
  function Shifted(g: nat, k: nat): nat
  {
    if k == 0 then g else 0x80 * Shifted(g, k - 1)
  }

  /** Appending a byte adds its group at the next weight. */
  lemma {:induction false} GroupsValueSnoc(bs: seq<byte>, b: byte)
    ensures GroupsValue(bs + [b]) == GroupsValue(bs) + Shifted(b % 0x80, |bs|)
  {
    if |bs| > 0 {
      assert (bs + [b])[1..] == bs[1..] + [b];
      GroupsValueSnoc(bs[1..], b);
    }
  }


  /** The method as written: a do-while loop that checks the shift before
      every read, ORs each byte's masked group into a 32-bit accumulator at
      the shift (`Accumulate`), and steps the shift by seven. The loop
      condition `(b & 0x80) != 0` is `b >= 0x80`. */
  method Read7BitEncodedInt(s: seq<byte>, pos: nat) returns (r: Result<Parsed<int32>>)
    requires pos <= |s|
    ensures r == ReadVarInt(s, pos)
  {
    hide *;
    NothingAccumulated(s, pos);
    NextShift(0);
    var result: bv32 := 0;
    var shift: bv32 := 0;
    var k: nat := 0;
    while true
      invariant k <= 5 && pos + k <= |s| && shift == ShiftOf(k)
      invariant ScanFrom(s, pos, k) == ScanFrom(s, pos, 0)
      invariant result == Accumulated(s, pos, k)
      decreases 5 - k
    {
      NextShift(k);
      ReadFails(s, pos, k);
      if shift >= 35 {
        return Fail(VarIntTooLong);
      }
      if pos + k >= |s| {
        return Fail(EndOfStream);
      }
      var b := s[pos + k];
      AccumulatedNext(s, pos, k);
      result := Accumulate(result, Group(b), shift);
      shift := shift + 7;
      ScanOn(s, pos, k);
      if b < 0x80 {
        AccumulatedValue(s, pos, k + 1);
        ReadStops(s, pos, k);
        return Ok(Parsed(ToInt32(Value(result)), pos + k + 1));
      }
      k := k + 1;
    }
  }

  /** The accumulator after the first `k` bytes at `pos`: each byte's group
      ORed in at its shift. */
  function Accumulated(s: seq<byte>, pos: nat, k: nat): bv32
    requires k <= 5 && pos + k <= |s|
  {
    if k == 0 then 0
    else Accumulate(Accumulated(s, pos, k - 1), Group(s[pos + k - 1]), ShiftOf(k - 1))
  }

  /** The 32-bit accumulator holds the groups read so far cut to 32 bits;
      below the fifth byte nothing is cut and every set bit lies below bit
      7k. */
  lemma {:induction false} AccumulatedValue(s: seq<byte>, pos: nat, k: nat)
    requires k <= 5 && pos + k <= |s|
    ensures Value(Accumulated(s, pos, k)) == GroupsValue(s[pos..pos + k]) % 0x1_0000_0000
    ensures k < 5 ==> Value(Accumulated(s, pos, k)) == GroupsValue(s[pos..pos + k]) && Accumulated(s, pos, k) < Room(k)
  {
    hide *;
    if k == 0 {
      NothingAccumulated(s, pos);
      NoGroups(s[pos..pos]);
    } else {
      AccumulatedValue(s, pos, k - 1);
      AccumulatedNext(s, pos, k - 1);
      ReadStep(s, pos, k - 1, Accumulated(s, pos, k - 1));
    }
  }

  /** Before the first read the accumulator is zero. */
  lemma NothingAccumulated(s: seq<byte>, pos: nat)
    requires pos <= |s|
    ensures Accumulated(s, pos, 0) == 0 && Value(Accumulated(s, pos, 0)) == 0 && Accumulated(s, pos, 0) < Room(0)
  {
  }

  /** One more byte read: its group ORed into the accumulator. */
  lemma AccumulatedNext(s: seq<byte>, pos: nat, k: nat)
    requires k < 5 && pos + k < |s|
    ensures Accumulated(s, pos, k + 1) == Accumulate(Accumulated(s, pos, k), Group(s[pos + k]), ShiftOf(k))
  {
  }

  /** No bytes carry no value. */
  lemma NoGroups(bs: seq<byte>)
    requires |bs| == 0
    ensures GroupsValue(bs) == 0
  {
  }

  /** One turn of the decoding loop over the first `k` bytes at `pos`:
      ORing the next group in gives the groups of `k + 1` bytes cut to 32
      bits, and below the fifth byte nothing is cut. */
  lemma ReadStep(s: seq<byte>, pos: nat, k: nat, result: bv32)
    requires k < 5 && pos + k < |s| && Value(result) == GroupsValue(s[pos..pos + k]) && result < Room(k)
    ensures Value(Accumulate(result, Group(s[pos + k]), ShiftOf(k))) == GroupsValue(s[pos..pos + k + 1]) % 0x1_0000_0000
    ensures k + 1 < 5 ==> Value(Accumulate(result, Group(s[pos + k]), ShiftOf(k))) == GroupsValue(s[pos..pos + k + 1])
    ensures k + 1 < 5 ==> Accumulate(result, Group(s[pos + k]), ShiftOf(k)) < Room(k + 1)
  {
    hide *;
    var g := Group(s[pos + k]);
    assert s[pos..pos + k] + [s[pos + k]] == s[pos..pos + k + 1];
    GroupsValueBound(s[pos..pos + k]);
    GroupsValueSnoc(s[pos..pos + k], s[pos + k]);
    ShiftedWeight(Value(g), k);
    OrGroup(result, g, k);
    if k + 1 < 5 {
      GroupsValueBound(s[pos..pos + k + 1]);
      ShiftedWeight(1, k + 1);
      NoWrap(GroupsValue(s[pos..pos + k + 1]));
    }
  }

  /** `Shifted` moves a group to the weight the accumulator ORs it in at. */
  lemma ShiftedWeight(g: nat, k: nat)
    requires k < 5
    ensures Shifted(g, k) == g * Weight(k) && Pow128(k) == Weight(k)
  {
    assert Shifted(g, 1) == 0x80 * g;
    assert Shifted(g, 2) == 0x4000 * g;
    assert Shifted(g, 3) == 0x20_0000 * g;
    assert Shifted(g, 4) == 0x1000_0000 * g;
  }

  /** A byte with the continuation bit lets the scan go on. */
  lemma ScanOn(s: seq<byte>, pos: nat, k: nat)
    requires k < 5 && pos + k < |s|
    ensures s[pos + k] >= 0x80 ==> ScanFrom(s, pos, k + 1) == ScanFrom(s, pos, k)
  {
  }

  /** Five bytes scanned, or the end of the file reached, ends the read
      there with its error. */
  lemma ReadFails(s: seq<byte>, pos: nat, k: nat)
    requires k <= 5 && pos + k <= |s| && ScanFrom(s, pos, k) == ScanFrom(s, pos, 0)
    ensures k == 5 ==> ReadVarInt(s, pos) == Fail(VarIntTooLong)
    ensures k < 5 && pos + k == |s| ==> ReadVarInt(s, pos) == Fail(EndOfStream)
  {
  }

  /** A byte without the continuation bit at offset `k` ends the read there. */
  lemma ReadStops(s: seq<byte>, pos: nat, k: nat)
    requires k < 5 && pos + k < |s| && s[pos + k] < 0x80 && ScanFrom(s, pos, k) == ScanFrom(s, pos, 0)
    ensures ReadVarInt(s, pos) ==
              Ok(Parsed(ToInt32(GroupsValue(s[pos..pos + k + 1]) % 0x1_0000_0000), pos + k + 1))
  {
  }

  /** Scanning an encoding stops exactly at its last byte. */
  lemma {:induction false} ScanEncoded(s: seq<byte>, start: nat, i: nat, e: seq<byte>)
    requires |e| <= 5 && 0 < |e| && start + |e| <= |s| && s[start..start + |e|] == e && i < |e|
    requires e[|e| - 1] < 0x80 && forall j :: 0 <= j < |e| - 1 ==> e[j] >= 0x80
    ensures ScanFrom(s, start, i) == Ok(|e|)
    decreases 5 - i
  {
    assert s[start + i] == e[i];
    if i < |e| - 1 {
      ScanEncoded(s, start, i + 1, e);
    }
  }

  /** The groups of an encoding add up to the encoded magnitude. */
  lemma {:induction false} GroupsValueEncode(v: nat)
    ensures GroupsValue(EncodeU32(v)) == v
    decreases v
  {
    if v >= 0x80 {
      var low := v % 0x80;
      EncodeU32Unfold(v);
      hide *;
      GroupsValueCons(low + 0x80, EncodeU32(v / 0x80));
      ContinuedGroup(low);
      GroupsValueEncode(v / 0x80);
      assert v == 0x80 * (v / 0x80) + low;
    }
  }

  /** A magnitude of two or more groups: its low group with the continuation
      bit, then the rest. */
  lemma EncodeU32Unfold(v: nat)
    requires v >= 0x80
    ensures EncodeU32(v) == [v % 0x80 + 0x80] + EncodeU32(v / 0x80)
  {
  }

  /** A group with the continuation bit set still carries its seven bits. */
  lemma ContinuedGroup(low: nat)
    requires low < 0x80
    ensures (low + 0x80) % 0x80 == low
  {
  }

  /** Round trip: decoding an encoding returns the same 32-bit value and
      leaves the position exactly after the encoded bytes. */
  lemma ReadEncoded(s: seq<byte>, pos: nat, v: int32)
    requires pos + |Encode(v)| <= |s| && s[pos..pos + |Encode(v)|] == Encode(v)
    ensures ReadVarInt(s, pos) == Ok(Parsed(v, pos + |Encode(v)|))
  {
    EncodedScan(s, pos, v);
    EncodedGroups(s, pos, v);
    ReadScanned(s, pos, |Encode(v)|, ToUint32(v));
    Int32RoundTrip(v);
  }

  /** The same round trip, for an encoding that lies at `pos`. */
  lemma ReadEncodedAt(s: seq<byte>, pos: nat, v: int32)
    requires At(s, pos, Encode(v))
    ensures ReadVarInt(s, pos) == Ok(Parsed(v, pos + |Encode(v)|))
  {
    ReadEncoded(s, pos, v);
  }

  lemma EncodedScan(s: seq<byte>, pos: nat, v: int32)
    requires pos + |Encode(v)| <= |s| && s[pos..pos + |Encode(v)|] == Encode(v)
    ensures ScanFrom(s, pos, 0) == Ok(|Encode(v)|)
  {
    ScanEncoded(s, pos, 0, Encode(v));
  }

  lemma EncodedGroups(s: seq<byte>, pos: nat, v: int32)
    requires pos + |Encode(v)| <= |s| && s[pos..pos + |Encode(v)|] == Encode(v)
    ensures GroupsValue(s[pos..pos + |Encode(v)|]) == ToUint32(v)
  {
    GroupsValueEncode(ToUint32(v));
  }

  /** A scan of `n` bytes whose groups add up to a 32-bit `u` reads `u`. */
  lemma ReadScanned(s: seq<byte>, pos: nat, n: nat, u: uint32)
    requires pos + n <= |s| && ScanFrom(s, pos, 0) == Ok(n) && GroupsValue(s[pos..pos + n]) == u
    ensures ReadVarInt(s, pos) == Ok(Parsed(ToInt32(u), pos + n))
  {
  }

  /** The same round trip stated on a stream that starts with the encoding. */
  lemma DecodeEncode(v: int32, rest: seq<byte>)
    ensures ReadVarInt(Encode(v) + rest, 0) == Ok(Parsed(v, |Encode(v)|))
  {
    var s := Encode(v) + rest;
    assert s[0..|Encode(v)|] == Encode(v);
    ReadEncoded(s, 0, v);
  }

  /** The reader never looks beyond five bytes: cutting the file after the
      window of five at `pos` does not change the outcome. */
  lemma {:induction false} ScanWindow(s: seq<byte>, start: nat, i: nat)
    requires start + i <= |s| && i <= 5
    ensures ScanFrom(s, start, i) == ScanFrom(s[..Min(|s|, start + 5)], start, i)
    decreases 5 - i
  {
    var t := s[..Min(|s|, start + 5)];
    if i < 5 && start + i < |s| {
      assert t[start + i] == s[start + i];
      ScanWindow(s, start, i + 1);
    }
  }

  lemma ReadWindow(s: seq<byte>, pos: nat)
    requires pos <= |s|
    ensures ReadVarInt(s, pos) == ReadVarInt(s[..Min(|s|, pos + 5)], pos)
  {
    var t := s[..Min(|s|, pos + 5)];
    ScanWindow(s, pos, 0);
    var r := ScanFrom(s, pos, 0);
    if r.Ok? {
      assert s[pos..pos + r.value] == t[pos..pos + r.value];
    }
  }

  /** Decoding is not injective: the fifth byte contributes only its low four
      bits, so a five-byte form and the one-byte form of zero agree. */
  lemma NotInjective()
    ensures ReadVarInt([0x80, 0x80, 0x80, 0x80, 0x10], 0) == Ok(Parsed(0, 5))
    ensures ReadVarInt(Encode(0), 0) == Ok(Parsed(0, 1))
  {
    OverlongZero();
    assert ReadVarInt(Encode(0), 0) == Ok(Parsed(0, 1)) by {
      DecodeEncode(0, []);
      assert Encode(0) + [] == Encode(0);
    }
  }

  lemma OverlongZero()
    ensures ReadVarInt([0x80, 0x80, 0x80, 0x80, 0x10], 0) == Ok(Parsed(0, 5))
  {
    var s: seq<byte> := [0x80, 0x80, 0x80, 0x80, 0x10];
    assert ScanFrom(s, 0, 0) == Ok(5) by {
      assert s[0..5] == s;
      ScanEncoded(s, 0, 0, s);
    }
    assert GroupsValue(s[0..5]) == 0x1_0000_0000 by {
      assert s[0..5] == s;
      assert s[1..][1..][1..][1..][1..] == [];
    }
  }
}

/** The few BinaryReader / BinaryWriter operations the formats use, as pure
    functions over a whole file `s` read from a position `pos`.

    A reader that succeeds returns the value and the position just after it.
    `ReadBytes` mirrors the .NET behaviour the formats rely on: it never fails
    because the file is too short, it returns the bytes that are there. */
module BinaryIO {
  import opened Common

  /** `BinaryWriter.Write(int)`: four bytes, least significant first, of the
      two's-complement pattern of `v`. */
  function Int32Le(v: int32): (r: seq<byte>)
    ensures |r| == 4
    ensures r[0] as int + 0x100 * (r[1] as int) + 0x1_0000 * (r[2] as int) + 0x100_0000 * (r[3] as int) == ToUint32(v)
  {
    var u := ToUint32(v);
    var q1 := u / 0x100;
    var q2 := q1 / 0x100;
    var q3 := q2 / 0x100;
    [u % 0x100, q1 % 0x100, q2 % 0x100, q3]
  }

  /** The value `BinaryReader.ReadInt32` assembles from four bytes. */
  function Int32FromLe(b0: byte, b1: byte, b2: byte, b3: byte): int32
  {
    ToInt32(b0 + 0x100 * b1 + 0x1_0000 * b2 + 0x100_0000 * b3)
  }

  /** `ReadInt32` inverts `Write(int)`: the four bytes assemble to the value. */
  lemma Int32LeInverse(v: int32)
    ensures var r := Int32Le(v); Int32FromLe(r[0], r[1], r[2], r[3]) == v
  {
  }

  /** `BinaryReader.ReadByte`. */
  function ReadByte(s: seq<byte>, pos: nat): (r: Result<Parsed<byte>>)
    ensures r.Ok? <==> pos < |s|
    ensures r.Ok? ==> r.value.value == s[pos] && r.value.next == pos + 1
    ensures r.Fail? ==> r.error == EndOfStream
  {
    if pos < |s| then Ok(Parsed(s[pos], pos + 1)) else Fail(EndOfStream)
  }

  /** `BinaryReader.ReadInt32`: needs all four bytes, otherwise end of stream. */
  function ReadInt32(s: seq<byte>, pos: nat): (r: Result<Parsed<int32>>)
    ensures r.Ok? <==> pos + 4 <= |s|
    ensures r.Ok? ==> r.value.next == pos + 4
    ensures r.Fail? ==> r.error == EndOfStream
  {
    if pos + 4 <= |s| then
      Ok(Parsed(Int32FromLe(s[pos], s[pos + 1], s[pos + 2], s[pos + 3]), pos + 4))
    else
      Fail(EndOfStream)
  }

  /** `BinaryReader.ReadBytes(count)`: a negative count is rejected; otherwise
      up to `count` bytes, fewer when the file ends first. The position may lie
      beyond the end of the file (after a seek), in which case nothing is read. */
  function ReadBytes(s: seq<byte>, pos: nat, count: int): (r: Result<Parsed<seq<byte>>>)
    ensures r.Ok? <==> count >= 0
    ensures r.Fail? ==> r.error == NegativeCount
    ensures r.Ok? ==> |r.value.value| <= count && r.value.next == pos + |r.value.value|
    ensures r.Ok? && pos <= |s| ==> r.value.next <= |s|
    ensures r.Ok? && pos + count <= |s| ==> r.value.value == s[pos..pos + count]
    ensures r.Ok? && pos <= |s| < pos + count ==> r.value.value == s[pos..]
    ensures r.Ok? && pos >= |s| ==> r.value.value == []
  {
    if count < 0 then
      Fail(NegativeCount)
    else
      var start := Min(pos, |s|);
      var end := Min(pos + count, |s|);
      Ok(Parsed(s[start..end], if pos >= |s| then pos else end))
  }

  /** Reading back what `Int32Le` wrote, wherever it sits in the file. */
  lemma ReadInt32Le(s: seq<byte>, pos: nat, v: int32)
    requires pos + 4 <= |s| && s[pos..pos + 4] == Int32Le(v)
    ensures ReadInt32(s, pos) == Ok(Parsed(v, pos + 4))
  {
    var w := Int32Le(v);
    Int32LeInverse(v);
    assert s[pos] == w[0] && s[pos + 1] == w[1] && s[pos + 2] == w[2] && s[pos + 3] == w[3] by {
      assert s[pos..pos + 4][0] == s[pos] && s[pos..pos + 4][1] == s[pos + 1];
      assert s[pos..pos + 4][2] == s[pos + 2] && s[pos..pos + 4][3] == s[pos + 3];
    }
  }

  /** Reading back a field that was written as `a + b` at `pos`. */
  lemma SliceConcat(s: seq<byte>, pos: nat, a: seq<byte>, b: seq<byte>)
    requires pos + |a| + |b| <= |s| && s[pos..pos + |a| + |b|] == a + b
    ensures s[pos..pos + |a|] == a
    ensures s[pos + |a|..pos + |a| + |b|] == b
  {
    assert s[pos..pos + |a|] == s[pos..pos + |a| + |b|][..|a|];
    assert s[pos + |a|..pos + |a| + |b|] == s[pos..pos + |a| + |b|][|a|..];
  }

  /** The fields of a record `a + b + c + d` written at `pos`: the first
      two together, the third, the fourth, and the last two together. */
  lemma SliceFour(s: seq<byte>, pos: nat, a: seq<byte>, b: seq<byte>, c: seq<byte>, d: seq<byte>)
    requires pos + |a + b + c + d| <= |s| && s[pos..pos + |a + b + c + d|] == a + b + c + d
    ensures s[pos..pos + |a| + |b|] == a + b
    ensures s[pos + |a| + |b|..pos + |a| + |b| + |c|] == c
    ensures s[pos + |a| + |b| + |c|..pos + |a| + |b| + |c| + |d|] == d
    ensures s[pos + |a| + |b|..pos + |a| + |b| + |c| + |d|] == c + d
  {
    SliceConcat(s, pos, a + b + c, d);
    SliceConcat(s, pos, a + b, c);
    assert a + b + c + d == (a + b) + (c + d);
    SliceConcat(s, pos, a + b, c + d);
  }

  /** The two halves of a field `a + b` that lies at `pos`. */
  lemma SliceAt(s: seq<byte>, pos: nat, a: seq<byte>, b: seq<byte>)
    requires At(s, pos, a + b)
    ensures pos + |a| + |b| <= |s|
    ensures At(s, pos, a) && At(s, pos + |a|, b)
  {
    SliceConcat(s, pos, a, b);
  }

  /** Where the four fields of `a + b + c + d` lie. */
  lemma FourFields(a: seq<byte>, b: seq<byte>, c: seq<byte>, d: seq<byte>)
    ensures var s := a + b + c + d;
            && At(s, 0, a) && At(s, |a|, b) && At(s, |a| + |b|, c) && At(s, |a| + |b| + |c|, d)
  {
    var s := a + b + c + d;
    WholeAt(s);
    SliceAt(s, 0, a + b + c, d);
    SliceAt(s, 0, a + b, c);
    SliceAt(s, 0, a, b);
  }

  /** A file lies at its own start. */
  lemma WholeAt(s: seq<byte>)
    ensures At(s, 0, s)
  {
    assert s[0..|s|] == s;
  }

  /** Reading back a byte field of known length, wherever it sits in the file. */
  lemma ReadBytesExact(s: seq<byte>, pos: nat, a: seq<byte>)
    requires pos + |a| <= |s| && s[pos..pos + |a|] == a
    ensures ReadBytes(s, pos, |a|) == Ok(Parsed(a, pos + |a|))
  {
  }

  /** The same, for a field that lies at `pos`. */
  lemma ReadBytesAt(s: seq<byte>, pos: nat, a: seq<byte>)
    requires At(s, pos, a)
    ensures ReadBytes(s, pos, |a|) == Ok(Parsed(a, pos + |a|))
  {
    ReadBytesExact(s, pos, a);
  }
}

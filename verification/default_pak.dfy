/** The Default format: a four-byte little-endian entry count, then per entry
    a four-byte name length, the name, a four-byte compressed length and the
    compressed bytecode, in dictionary order. */
module DefaultPak {
  import opened Common
  import opened BinaryIO
  import opened Compression
  import opened ShaderPaks
  import opened SaveLimits

  /** One entry as `Save` frames it. */
  function EncodeEntry(e: Entry, z: Compressor): seq<byte>
    requires |e.name| < TWO_31 && |z.compress(e.bytecode)| < TWO_31
  {
    var compressed := z.compress(e.bytecode);
    Int32Le(|e.name|) + e.name + Int32Le(|compressed|) + compressed
  }

  function EncodeEntries(entries: seq<Entry>, z: Compressor): seq<byte>
    requires EntriesFit(entries, z)
  {
    if |entries| == 0 then [] else EncodeEntry(entries[0], z) + EncodeEntries(entries[1..], z)
  }

  /** The size every entry costs: eight bytes of lengths plus the name and
      the compressed bytecode. */
  function FramedSize(entries: seq<Entry>, z: Compressor): nat
  {
    if |entries| == 0 then 0
    else 8 + |entries[0].name| + |z.compress(entries[0].bytecode)| + FramedSize(entries[1..], z)
  }

  /** `Save`: the count of the dictionary, then its entries in `order`. */
  function Save(pak: ShaderPak, order: seq<Name>, z: Compressor): (r: seq<byte>)
    requires Saveable(pak, order, z)
    ensures |r| == 4 + FramedSize(EntriesOf(pak, order), z)
    ensures r[..4] == Int32Le(|pak.shaders|)
  {
    var entries := EntriesOf(pak, order);
    EncodedSize(entries, z);
    Int32Le(|pak.shaders|) + EncodeEntries(entries, z)
  }

  lemma {:induction false} EncodedSize(entries: seq<Entry>, z: Compressor)
    requires EntriesFit(entries, z)
    ensures |EncodeEntries(entries, z)| == FramedSize(entries, z)
    decreases |entries|
  {
    if entries != [] {
      EncodedSize(entries[1..], z);
    }
  }

  /** `Load`: read the count, then that many entries, adding each to a fresh
      package. A count of zero or less reads nothing more. */
  function Load(s: seq<byte>, z: Compressor): (r: Result<ShaderPak>)
    ensures |s| < 4 ==> r == Fail(EndOfStream)
    ensures r.Fail? ==> r.error in {EndOfStream, NegativeCount, CorruptBlock}
  {
    var count :- ReadInt32(s, 0);
    LoadEntries(s, count.next, count.value, Empty, z)
  }

  /** One iteration of the loading loop: the name length, the name, the
      compressed length, the compressed bytecode, then decompression. */
  function ReadEntry(s: seq<byte>, pos: nat, z: Compressor): (r: Result<Parsed<Entry>>)
    requires pos <= |s|
    ensures r.Ok? ==> pos + 8 <= r.value.next <= |s|
    ensures r.Fail? ==> r.error in {EndOfStream, NegativeCount, CorruptBlock}
  {
    var nameLength :- ReadInt32(s, pos);
    var name :- ReadBytes(s, nameLength.next, nameLength.value);
    var compressedLength :- ReadInt32(s, name.next);
    var compressed :- ReadBytes(s, compressedLength.next, compressedLength.value);
    var bytecode :- Decompress(z, compressed.value);
    Ok(Parsed(Entry(name.value, bytecode), compressed.next))
  }

  /** The `for (int i = 0; i < count; i++)` loop with `remaining` iterations
      still to run, each adding the entry it read. */
  function LoadEntries(s: seq<byte>, pos: nat, remaining: int, pak: ShaderPak, z: Compressor): (r: Result<ShaderPak>)
    requires pos <= |s|
    ensures r.Fail? ==> r.error in {EndOfStream, NegativeCount, CorruptBlock}
    decreases remaining
  {
    if remaining <= 0 then Ok(pak)
    else
      var entry :- ReadEntry(s, pos, z);
      LoadEntries(s, entry.next, remaining - 1, AddShader(pak, entry.value.name, entry.value.bytecode), z)
  }

  /** One turn of the loop: a successful read adds its entry and moves on. */
  lemma LoadEntriesStep(s: seq<byte>, pos: nat, remaining: int, pak: ShaderPak, z: Compressor, e: Entry, next: nat)
    requires pos <= |s| && remaining > 0 && ReadEntry(s, pos, z) == Ok(Parsed(e, next))
    ensures LoadEntries(s, pos, remaining, pak, z) ==
              LoadEntries(s, next, remaining - 1, AddShader(pak, e.name, e.bytecode), z)
  {
  }

  /** Reading back one entry that `EncodeEntry` wrote at `pos`. */
  lemma ReadEncodedEntry(s: seq<byte>, pos: nat, e: Entry, z: Compressor)
    requires Lossless(z) && |e.name| < TWO_31 && |z.compress(e.bytecode)| < TWO_31
    requires At(s, pos, EncodeEntry(e, z))
    ensures ReadEntry(s, pos, z) == Ok(Parsed(e, pos + |EncodeEntry(e, z)|))
  {
    hide *;
    EntryParts(s, pos, e, z);
    ReadEntryAt(s, pos, e, z);
  }

  /** Where the two fields of an entry written at `pos` lie. */
  lemma EntryParts(s: seq<byte>, pos: nat, e: Entry, z: Compressor)
    requires |e.name| < TWO_31 && |z.compress(e.bytecode)| < TWO_31 && At(s, pos, EncodeEntry(e, z))
    ensures At(s, pos, Int32Le(|e.name|) + e.name)
    ensures At(s, pos + 4 + |e.name|, Int32Le(|z.compress(e.bytecode)|) + z.compress(e.bytecode))
    ensures pos + 4 + |e.name| + 4 + |z.compress(e.bytecode)| == pos + |EncodeEntry(e, z)|
  {
    var c := z.compress(e.bytecode);
    assert EncodeEntry(e, z) == Int32Le(|e.name|) + e.name + Int32Le(|c|) + c;
    hide EncodeEntry, Int32Le;
    SliceFour(s, pos, Int32Le(|e.name|), e.name, Int32Le(|c|), c);
  }

  /** An entry whose two fields lie one after the other at `pos` reads back. */
  lemma ReadEntryAt(s: seq<byte>, pos: nat, e: Entry, z: Compressor)
    requires Lossless(z) && |e.name| < TWO_31 && |z.compress(e.bytecode)| < TWO_31
    requires At(s, pos, Int32Le(|e.name|) + e.name)
    requires At(s, pos + 4 + |e.name|, Int32Le(|z.compress(e.bytecode)|) + z.compress(e.bytecode))
    ensures ReadEntry(s, pos, z) == Ok(Parsed(e, pos + 4 + |e.name| + 4 + |z.compress(e.bytecode)|))
  {
    hide *;
    Two31();
    var c := z.compress(e.bytecode);
    var p2 := pos + 4 + |e.name|;
    ReadLengthPrefixed(s, pos, e.name);
    ReadLengthPrefixed(s, p2, c);
    DecompressCompressed(z, e.bytecode);
    ReadFields(s, pos, z, e.name, c, e.bytecode, pos + 4, p2, p2 + 4, p2 + 4 + |c|);
  }

  /** The loop body succeeds when its four reads and the decompression do;
      `p1`, `p2`, `p3` and `end` are the positions after each read. */
  lemma ReadFields(s: seq<byte>, pos: nat, z: Compressor, name: seq<byte>, compressed: seq<byte>, bytecode: Bytecode,
                   p1: nat, p2: nat, p3: nat, end: nat)
    requires pos <= |s| && |name| < TWO_31 && |compressed| < TWO_31
    requires ReadInt32(s, pos) == Ok(Parsed(|name|, p1))
    requires ReadBytes(s, p1, |name|) == Ok(Parsed(name, p2))
    requires ReadInt32(s, p2) == Ok(Parsed(|compressed|, p3))
    requires ReadBytes(s, p3, |compressed|) == Ok(Parsed(compressed, end))
    requires Decompress(z, compressed) == Ok(bytecode)
    ensures ReadEntry(s, pos, z) == Ok(Parsed(Entry(name, bytecode), end))
  {
    hide ReadInt32, ReadBytes, Decompress;
  }

  /** Reading back a length field followed by that many bytes. */
  lemma ReadLengthPrefixed(s: seq<byte>, pos: nat, a: seq<byte>)
    requires |a| < TWO_31 && At(s, pos, Int32Le(|a|) + a)
    ensures pos + 4 + |a| <= |s|
    ensures ReadInt32(s, pos) == Ok(Parsed(|a|, pos + 4))
    ensures ReadBytes(s, pos + 4, |a|) == Ok(Parsed(a, pos + 4 + |a|))
  {
    SliceConcat(s, pos, Int32Le(|a|), a);
    ReadInt32Le(s, pos, |a|);
    ReadBytesExact(s, pos + 4, a);
  }

  /** Reading the entries written by `EncodeEntries` adds them in file order. */
  lemma {:induction false} LoadEncodedEntries(s: seq<byte>, pos: nat, entries: seq<Entry>, pak: ShaderPak, z: Compressor)
    requires Lossless(z) && EntriesFit(entries, z) && At(s, pos, EncodeEntries(entries, z))
    ensures LoadEntries(s, pos, |entries|, pak, z) == Ok(AddAll(pak, entries))
    decreases |entries|
  {
    hide *;
    if |entries| > 0 {
      EncodedSplit(s, pos, entries, z);
      var e := entries[0];
      var after := pos + |EncodeEntry(e, z)|;
      var next := AddShader(pak, e.name, e.bytecode);
      ReadEncodedEntry(s, pos, e, z);
      LoadEncodedEntries(s, after, entries[1..], next, z);
      LoadFirstThenRest(s, pos, entries, pak, z, after);
    } else {
      LoadNothing(s, pos, entries, pak, z);
    }
  }

  /** With no entries left the loop stops and adds nothing. */
  lemma LoadNothing(s: seq<byte>, pos: nat, entries: seq<Entry>, pak: ShaderPak, z: Compressor)
    requires |entries| == 0 && At(s, pos, EncodeEntries(entries, z))
    ensures LoadEntries(s, pos, |entries|, pak, z) == Ok(AddAll(pak, entries))
  {
  }

  /** The encoding of a non-empty run is the first entry's, then the rest's. */
  lemma EncodedSplit(s: seq<byte>, pos: nat, entries: seq<Entry>, z: Compressor)
    requires |entries| > 0 && EntriesFit(entries, z) && At(s, pos, EncodeEntries(entries, z))
    ensures EntriesFit(entries[1..], z) && |entries[0].name| < TWO_31 && |z.compress(entries[0].bytecode)| < TWO_31
    ensures pos + |EncodeEntries(entries, z)| <= |s|
    ensures At(s, pos, EncodeEntry(entries[0], z))
    ensures At(s, pos + |EncodeEntry(entries[0], z)|, EncodeEntries(entries[1..], z))
  {
    assert EncodeEntries(entries, z) == EncodeEntry(entries[0], z) + EncodeEntries(entries[1..], z);
    SliceAt(s, pos, EncodeEntry(entries[0], z), EncodeEntries(entries[1..], z));
  }

  /** The loop reads the first entry, then loads the rest over it. */
  lemma LoadFirstThenRest(s: seq<byte>, pos: nat, entries: seq<Entry>, pak: ShaderPak, z: Compressor, after: nat)
    requires pos <= |s| && |entries| > 0 && after <= |s|
    requires ReadEntry(s, pos, z) == Ok(Parsed(entries[0], after))
    requires LoadEntries(s, after, |entries| - 1, AddShader(pak, entries[0].name, entries[0].bytecode), z) ==
               Ok(AddAll(AddShader(pak, entries[0].name, entries[0].bytecode), entries[1..]))
    ensures LoadEntries(s, pos, |entries|, pak, z) == Ok(AddAll(pak, entries))
  {
    LoadEntriesStep(s, pos, |entries|, pak, z, entries[0], after);
  }

  /** A file holding any entries, duplicates included, loads as those entries
      added in file order: a later entry with the same name wins. */
  lemma LoadInFileOrder(entries: seq<Entry>, z: Compressor)
    requires Lossless(z) && EntriesFit(entries, z) && |entries| < TWO_31
    ensures Load(Int32Le(|entries|) + EncodeEntries(entries, z), z) == Ok(AddAll(Empty, entries))
  {
    var s := Int32Le(|entries|) + EncodeEntries(entries, z);
    WholeAt(s);
    SliceAt(s, 0, Int32Le(|entries|), EncodeEntries(entries, z));
    ReadInt32Le(s, 0, |entries|);
    LoadEncodedEntries(s, 4, entries, Empty, z);
  }

  /** Round trip: loading a saved package gives the package back. */
  lemma LoadSave(pak: ShaderPak, order: seq<Name>, z: Compressor)
    requires Lossless(z) && Saveable(pak, order, z)
    ensures Load(Save(pak, order, z), z) == Ok(pak)
  {
    EnumerationCount(order, pak);
    LoadInFileOrder(EntriesOf(pak, order), z);
    RebuildEnumeration(pak, order);
  }

  /** The empty package saves to four zero bytes, a count of zero. */
  lemma SaveEmpty(z: Compressor)
    ensures Save(Empty, [], z) == [0, 0, 0, 0]
  {
    assert EntriesOf(Empty, []) == [];
    assert EncodeEntries([], z) == [];
    assert Int32Le(0) == [0, 0, 0, 0];
  }

  /** A count of zero or less gives the empty package whatever follows. */
  lemma NonPositiveCount(s: seq<byte>, z: Compressor)
    requires ReadInt32(s, 0).Ok? && ReadInt32(s, 0).value.value <= 0
    ensures Load(s, z) == Ok(Empty)
  {
  }

  /** A file cut short inside a payload still yields an entry: `ReadBytes`
      hands over the bytes that are there and only the decompressor can
      reject them. */
  lemma TruncatedPayload(name: Name, claimed: int32, payload: seq<byte>, z: Compressor)
    requires |name| < TWO_31 && |payload| < claimed
    ensures var s := Int32Le(|name|) + name + Int32Le(claimed) + payload;
            ReadEntry(s, 0, z) ==
              if z.decompress(payload).Some? then Ok(Parsed(Entry(name, z.decompress(payload).value), |s|))
              else Fail(CorruptBlock)
  {
    var s := Int32Le(|name|) + name + Int32Le(claimed) + payload;
    var p1 := 4 + |name|;
    SliceConcat(s, 0, Int32Le(|name|) + name + Int32Le(claimed), payload);
    SliceConcat(s, 0, Int32Le(|name|) + name, Int32Le(claimed));
    SliceConcat(s, 0, Int32Le(|name|), name);
    ReadInt32Le(s, 0, |name|);
    ReadBytesExact(s, 4, name);
    ReadInt32Le(s, p1, claimed);
    assert ReadBytes(s, p1 + 4, claimed) == Ok(Parsed(payload, |s|));
  }
}

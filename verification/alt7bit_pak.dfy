/** The Alternative format: the Default layout with every count and length
    written as a 7-bit encoded integer instead of four fixed bytes. */
module Alt7BitPak {
  import opened Common
  import opened BinaryIO
  import opened VarInt
  import opened Compression
  import opened ShaderPaks
  import opened SaveLimits
  import DefaultPak

  /** One entry as `Save` frames it. */
  function EncodeEntry(e: Entry, z: Compressor): seq<byte>
    requires |e.name| < TWO_31 && |z.compress(e.bytecode)| < TWO_31
  {
    var compressed := z.compress(e.bytecode);
    Encode(|e.name|) + e.name + Encode(|compressed|) + compressed
  }

  function EncodeEntries(entries: seq<Entry>, z: Compressor): seq<byte>
    requires EntriesFit(entries, z)
  {
    if |entries| == 0 then [] else EncodeEntry(entries[0], z) + EncodeEntries(entries[1..], z)
  }

  /** The size of the entries: each costs its two encoded lengths plus the
      name and the compressed bytecode. */
  function FramedSize(entries: seq<Entry>, z: Compressor): nat
    requires EntriesFit(entries, z)
  {
    if |entries| == 0 then 0
    else
      var compressed := z.compress(entries[0].bytecode);
      |Encode(|entries[0].name|)| + |entries[0].name| + |Encode(|compressed|)| + |compressed|
        + FramedSize(entries[1..], z)
  }

  /** `Save`: the encoded count of the dictionary, then its entries in
      `order`. */
  function Save(pak: ShaderPak, order: seq<Name>, z: Compressor): (r: seq<byte>)
    requires Saveable(pak, order, z)
    ensures |r| == |Encode(|pak.shaders|)| + FramedSize(EntriesOf(pak, order), z)
    ensures r[..|Encode(|pak.shaders|)|] == Encode(|pak.shaders|)
  {
    var entries := EntriesOf(pak, order);
    EncodedSize(entries, z);
    Encode(|pak.shaders|) + EncodeEntries(entries, z)
  }

  lemma {:induction false} EncodedSize(entries: seq<Entry>, z: Compressor)
    requires EntriesFit(entries, z)
    ensures |EncodeEntries(entries, z)| == FramedSize(entries, z)
    decreases |entries|
  {
    if |entries| > 0 {
      EncodedSize(entries[1..], z);
    }
  }

  /** `Load`: read the encoded count, then that many entries, adding each to
      a fresh package. */
  function Load(s: seq<byte>, z: Compressor): (r: Result<ShaderPak>)
    ensures s == [] ==> r == Fail(EndOfStream)
    ensures r.Fail? ==> r.error in {EndOfStream, VarIntTooLong, NegativeCount, CorruptBlock}
  {
    var count :- ReadVarInt(s, 0);
    LoadEntries(s, count.next, count.value, Empty, z)
  }

  /** One iteration of the loading loop. */
  function ReadEntry(s: seq<byte>, pos: nat, z: Compressor): (r: Result<Parsed<Entry>>)
    requires pos <= |s|
    ensures r.Ok? ==> pos + 2 <= r.value.next <= |s|
    ensures r.Fail? ==> r.error in {EndOfStream, VarIntTooLong, NegativeCount, CorruptBlock}
  {
    var nameLength :- ReadVarInt(s, pos);
    var name :- ReadBytes(s, nameLength.next, nameLength.value);
    var compressedLength :- ReadVarInt(s, name.next);
    var compressed :- ReadBytes(s, compressedLength.next, compressedLength.value);
    var bytecode :- Decompress(z, compressed.value);
    Ok(Parsed(Entry(name.value, bytecode), compressed.next))
  }

  /** The `for (int i = 0; i < count; i++)` loop with `remaining` iterations
      still to run. */
  function LoadEntries(s: seq<byte>, pos: nat, remaining: int, pak: ShaderPak, z: Compressor): (r: Result<ShaderPak>)
    requires pos <= |s|
    ensures r.Fail? ==> r.error in {EndOfStream, VarIntTooLong, NegativeCount, CorruptBlock}
    decreases remaining
  {
    if remaining <= 0 then Ok(pak)
    else
      var entry :- ReadEntry(s, pos, z);
      LoadEntries(s, entry.next, remaining - 1, AddShader(pak, entry.value.name, entry.value.bytecode), z)
  }

  /** One turn of the loop: a successful read adds its entry and moves on. */
  lemma LoadEntriesStep(s: seq<byte>, pos: nat, remaining: int, pak: ShaderPak, z: Compressor, e: Entry, next: nat)
    requires pos <= |s| && remaining > 0 && ReadEntry(s, pos, z) == Ok(Parsed(e, next))
    ensures LoadEntries(s, pos, remaining, pak, z) ==
              LoadEntries(s, next, remaining - 1, AddShader(pak, e.name, e.bytecode), z)
  {
  }

  /** Reading back one entry that `EncodeEntry` wrote at `pos`. */
  lemma ReadEncodedEntry(s: seq<byte>, pos: nat, e: Entry, z: Compressor)
    requires Lossless(z) && |e.name| < TWO_31 && |z.compress(e.bytecode)| < TWO_31
    requires At(s, pos, EncodeEntry(e, z))
    ensures ReadEntry(s, pos, z) == Ok(Parsed(e, pos + |EncodeEntry(e, z)|))
  {
    hide *;
    EntryParts(s, pos, e, z);
    ReadEntryAt(s, pos, e, z);
  }

  /** Where the two fields of an entry written at `pos` lie. */
  lemma EntryParts(s: seq<byte>, pos: nat, e: Entry, z: Compressor)
    requires |e.name| < TWO_31 && |z.compress(e.bytecode)| < TWO_31 && At(s, pos, EncodeEntry(e, z))
    ensures At(s, pos, Encode(|e.name|) + e.name)
    ensures At(s, pos + |Encode(|e.name|)| + |e.name|, Encode(|z.compress(e.bytecode)|) + z.compress(e.bytecode))
    ensures pos + |Encode(|e.name|)| + |e.name| + |Encode(|z.compress(e.bytecode)|)| + |z.compress(e.bytecode)| == pos + |EncodeEntry(e, z)|
  {
    var c := z.compress(e.bytecode);
    assert EncodeEntry(e, z) == Encode(|e.name|) + e.name + Encode(|c|) + c;
    hide EncodeEntry, Encode;
    SliceFour(s, pos, Encode(|e.name|), e.name, Encode(|c|), c);
  }

  /** An entry whose two fields lie one after the other at `pos` reads back. */
  lemma ReadEntryAt(s: seq<byte>, pos: nat, e: Entry, z: Compressor)
    requires Lossless(z) && |e.name| < TWO_31 && |z.compress(e.bytecode)| < TWO_31
    requires At(s, pos, Encode(|e.name|) + e.name)
    requires At(s, pos + |Encode(|e.name|)| + |e.name|, Encode(|z.compress(e.bytecode)|) + z.compress(e.bytecode))
    ensures ReadEntry(s, pos, z) == Ok(Parsed(e, pos + |Encode(|e.name|)| + |e.name| + |Encode(|z.compress(e.bytecode)|)| + |z.compress(e.bytecode)|))
  {
    hide *;
    Two31();
    var c := z.compress(e.bytecode);
    var p2 := pos + |Encode(|e.name|)| + |e.name|;
    ReadLengthPrefixed(s, pos, e.name);
    ReadLengthPrefixed(s, p2, c);
    DecompressCompressed(z, e.bytecode);
    ReadFields(s, pos, z, e.name, c, e.bytecode, pos + |Encode(|e.name|)|, p2, p2 + |Encode(|z.compress(e.bytecode)|)|, p2 + |Encode(|z.compress(e.bytecode)|)| + |c|);
  }

  /** The loop body succeeds when its four reads and the decompression do;
      `p1`, `p2`, `p3` and `end` are the positions after each read. */
  lemma ReadFields(s: seq<byte>, pos: nat, z: Compressor, name: seq<byte>, compressed: seq<byte>, bytecode: Bytecode,
                   p1: nat, p2: nat, p3: nat, end: nat)
    requires pos <= |s| && p2 <= |s| && |name| < TWO_31 && |compressed| < TWO_31
    requires ReadVarInt(s, pos) == Ok(Parsed(|name|, p1))
    requires ReadBytes(s, p1, |name|) == Ok(Parsed(name, p2))
    requires ReadVarInt(s, p2) == Ok(Parsed(|compressed|, p3))
    requires ReadBytes(s, p3, |compressed|) == Ok(Parsed(compressed, end))
    requires Decompress(z, compressed) == Ok(bytecode)
    ensures ReadEntry(s, pos, z) == Ok(Parsed(Entry(name, bytecode), end))
  {
    hide ReadVarInt, ReadBytes, Decompress;
  }

  /** Reading back a length field followed by that many bytes. */
  lemma ReadLengthPrefixed(s: seq<byte>, pos: nat, a: seq<byte>)
    requires |a| < TWO_31 && At(s, pos, Encode(|a|) + a)
    ensures pos + |Encode(|a|)| + |a| <= |s|
    ensures ReadVarInt(s, pos) == Ok(Parsed(|a|, pos + |Encode(|a|)|))
    ensures ReadBytes(s, pos + |Encode(|a|)|, |a|) == Ok(Parsed(a, pos + |Encode(|a|)| + |a|))
  {
    hide *;
    Two31();
    SliceAt(s, pos, Encode(|a|), a);
    ReadEncodedAt(s, pos, |a|);
    ReadBytesAt(s, pos + |Encode(|a|)|, a);
  }

  /** Reading the entries written by `EncodeEntries` adds them in file order. */
  lemma {:induction false} LoadEncodedEntries(s: seq<byte>, pos: nat, entries: seq<Entry>, pak: ShaderPak, z: Compressor)
    requires Lossless(z) && EntriesFit(entries, z) && At(s, pos, EncodeEntries(entries, z))
    ensures LoadEntries(s, pos, |entries|, pak, z) == Ok(AddAll(pak, entries))
    decreases |entries|
  {
    hide *;
    if |entries| > 0 {
      EncodedSplit(s, pos, entries, z);
      var e := entries[0];
      var after := pos + |EncodeEntry(e, z)|;
      var next := AddShader(pak, e.name, e.bytecode);
      ReadEncodedEntry(s, pos, e, z);
      LoadEncodedEntries(s, after, entries[1..], next, z);
      LoadFirstThenRest(s, pos, entries, pak, z, after);
    } else {
      LoadNothing(s, pos, entries, pak, z);
    }
  }

  /** With no entries left the loop stops and adds nothing. */
  lemma LoadNothing(s: seq<byte>, pos: nat, entries: seq<Entry>, pak: ShaderPak, z: Compressor)
    requires |entries| == 0 && At(s, pos, EncodeEntries(entries, z))
    ensures LoadEntries(s, pos, |entries|, pak, z) == Ok(AddAll(pak, entries))
  {
  }

  /** The encoding of a non-empty run is the first entry's, then the rest's. */
  lemma EncodedSplit(s: seq<byte>, pos: nat, entries: seq<Entry>, z: Compressor)
    requires |entries| > 0 && EntriesFit(entries, z) && At(s, pos, EncodeEntries(entries, z))
    ensures EntriesFit(entries[1..], z) && |entries[0].name| < TWO_31 && |z.compress(entries[0].bytecode)| < TWO_31
    ensures pos + |EncodeEntries(entries, z)| <= |s|
    ensures At(s, pos, EncodeEntry(entries[0], z))
    ensures At(s, pos + |EncodeEntry(entries[0], z)|, EncodeEntries(entries[1..], z))
    ensures |EncodeEntries(entries, z)| == |EncodeEntry(entries[0], z)| + |EncodeEntries(entries[1..], z)|
  {
    assert EncodeEntries(entries, z) == EncodeEntry(entries[0], z) + EncodeEntries(entries[1..], z);
    SliceAt(s, pos, EncodeEntry(entries[0], z), EncodeEntries(entries[1..], z));
  }

  /** The loop reads the first entry, then loads the rest over it. */
  lemma LoadFirstThenRest(s: seq<byte>, pos: nat, entries: seq<Entry>, pak: ShaderPak, z: Compressor, after: nat)
    requires pos <= |s| && |entries| > 0 && after <= |s|
    requires ReadEntry(s, pos, z) == Ok(Parsed(entries[0], after))
    requires LoadEntries(s, after, |entries| - 1, AddShader(pak, entries[0].name, entries[0].bytecode), z) ==
               Ok(AddAll(AddShader(pak, entries[0].name, entries[0].bytecode), entries[1..]))
    ensures LoadEntries(s, pos, |entries|, pak, z) == Ok(AddAll(pak, entries))
  {
    LoadEntriesStep(s, pos, |entries|, pak, z, entries[0], after);
  }

  /** A file holding any entries, duplicates included, loads as those entries
      added in file order. */
  lemma LoadInFileOrder(entries: seq<Entry>, z: Compressor)
    requires Lossless(z) && EntriesFit(entries, z) && |entries| < TWO_31
    ensures Load(Encode(|entries|) + EncodeEntries(entries, z), z) == Ok(AddAll(Empty, entries))
  {
    hide EncodeEntries, EncodeEntry, Encode, LoadEntries, ReadEntry, AddAll, ReadVarInt, At;
    var s := Encode(|entries|) + EncodeEntries(entries, z);
    WholeAt(s);
    SliceAt(s, 0, Encode(|entries|), EncodeEntries(entries, z));
    ReadEncodedAt(s, 0, |entries|);
    LoadEncodedEntries(s, |Encode(|entries|)|, entries, Empty, z);
  }

  /** Round trip: loading a saved package gives the package back. */
  lemma LoadSave(pak: ShaderPak, order: seq<Name>, z: Compressor)
    requires Lossless(z) && Saveable(pak, order, z)
    ensures Load(Save(pak, order, z), z) == Ok(pak)
  {
    EnumerationCount(order, pak);
    LoadInFileOrder(EntriesOf(pak, order), z);
    RebuildEnumeration(pak, order);
  }

  /** The empty package saves to the single byte of a zero count. */
  lemma SaveEmpty(z: Compressor)
    ensures Save(Empty, [], z) == [0]
  {
    assert EntriesOf(Empty, []) == [];
    assert EncodeEntries([], z) == [];
  }

  /** A count field of five continuation bytes makes the load fail with the
      format error, whatever follows. */
  lemma MalformedCount(s: seq<byte>, z: Compressor)
    requires 5 <= |s| && forall j :: 0 <= j < 5 ==> s[j] >= 0x80
    ensures Load(s, z) == Fail(VarIntTooLong)
  {
    ReadTooLong(s, 0);
  }

  /** Five continuation bytes where an entry's name length belongs fail the
      entry with the format error. */
  lemma NameLengthTooLong(s: seq<byte>, pos: nat, z: Compressor)
    requires pos + 5 <= |s| && forall j :: pos <= j < pos + 5 ==> s[j] >= 0x80
    ensures ReadEntry(s, pos, z) == Fail(VarIntTooLong)
  {
    ReadTooLong(s, pos);
  }

  /** After a name that reads back, five continuation bytes where the
      compressed length belongs fail the entry with the format error. */
  lemma CompressedLengthTooLong(s: seq<byte>, pos: nat, name: seq<byte>, z: Compressor)
    requires |name| < TWO_31 && At(s, pos, Encode(|name|) + name)
    requires var p := pos + |Encode(|name|)| + |name|;
             p + 5 <= |s| && forall j :: p <= j < p + 5 ==> s[j] >= 0x80
    ensures ReadEntry(s, pos, z) == Fail(VarIntTooLong)
  {
    ReadLengthPrefixed(s, pos, name);
    ReadTooLong(s, pos + |Encode(|name|)| + |name|);
  }

  /** An entry that fails after entries that read back fails the whole loop
      with its error, when the count reaches it. */
  lemma {:induction false} FailAfterEntries(s: seq<byte>, pos: nat, entries: seq<Entry>, remaining: int, pak: ShaderPak, z: Compressor, e: Error)
    requires Lossless(z) && EntriesFit(entries, z) && At(s, pos, EncodeEntries(entries, z))
    requires |entries| < remaining
    requires ReadEntry(s, pos + |EncodeEntries(entries, z)|, z) == Fail(e)
    ensures LoadEntries(s, pos, remaining, pak, z) == Fail(e)
    decreases |entries|
  {
    hide *;
    if |entries| == 0 {
      NothingEncoded(s, pos, entries, z);
      FailsHere(s, pos, remaining, pak, z, e);
    } else {
      EncodedSplit(s, pos, entries, z);
      var after := pos + |EncodeEntry(entries[0], z)|;
      ReadEncodedEntry(s, pos, entries[0], z);
      FailAfterEntries(s, after, entries[1..], remaining - 1, AddShader(pak, entries[0].name, entries[0].bytecode), z, e);
      LoadEntriesStep(s, pos, remaining, pak, z, entries[0], after);
    }
  }

  /** No entries take no room. */
  lemma NothingEncoded(s: seq<byte>, pos: nat, entries: seq<Entry>, z: Compressor)
    requires |entries| == 0 && At(s, pos, EncodeEntries(entries, z))
    ensures pos <= |s| && |EncodeEntries(entries, z)| == 0
  {
  }

  /** The loop fails with the error of the entry it cannot read. */
  lemma FailsHere(s: seq<byte>, pos: nat, remaining: int, pak: ShaderPak, z: Compressor, e: Error)
    requires pos <= |s| && 0 < remaining && ReadEntry(s, pos, z) == Fail(e)
    ensures LoadEntries(s, pos, remaining, pak, z) == Fail(e)
  {
    hide ReadEntry;
  }

  /** Where the count and the entries before a damaged one lie in a file
      that continues with `rest`. */
  lemma CountThenEntries(n: int32, prefix: seq<Entry>, rest: seq<byte>, z: Compressor)
    requires EntriesFit(prefix, z)
    ensures var s := Encode(n) + EncodeEntries(prefix, z) + rest;
            && ReadVarInt(s, 0) == Ok(Parsed(n, |Encode(n)|))
            && At(s, |Encode(n)|, EncodeEntries(prefix, z))
            && At(s, |Encode(n)| + |EncodeEntries(prefix, z)|, rest)
  {
    hide *;
    var s := Encode(n) + EncodeEntries(prefix, z) + rest;
    WholeAt(s);
    SliceAt(s, 0, Encode(n) + EncodeEntries(prefix, z), rest);
    SliceAt(s, 0, Encode(n), EncodeEntries(prefix, z));
    ReadEncodedAt(s, 0, n);
  }

  /** Five continuation bytes at the head of a field lie in the file. */
  lemma ContinuationRun(s: seq<byte>, pos: nat, bad: seq<byte>)
    requires At(s, pos, bad) && 5 <= |bad| && forall j :: 0 <= j < 5 ==> bad[j] >= 0x80
    ensures pos + 5 <= |s| && forall j :: pos <= j < pos + 5 ==> s[j] >= 0x80
  {
    assert forall j :: pos <= j < pos + 5 ==> s[j] == s[pos..pos + |bad|][j - pos];
  }

  /** Once the count is read the load is the entry loop. */
  lemma LoadAfterCount(s: seq<byte>, n: int32, next: nat, z: Compressor)
    requires next <= |s| && ReadVarInt(s, 0) == Ok(Parsed(n, next))
    ensures Load(s, z) == LoadEntries(s, next, n, Empty, z)
  {
  }

  /** A count that reaches past the entries that read back, then five
      continuation bytes where the next name length belongs: the load fails
      with the format error. */
  lemma MalformedNameLength(n: int32, prefix: seq<Entry>, bad: seq<byte>, z: Compressor)
    requires Lossless(z) && EntriesFit(prefix, z) && |prefix| < n
    requires 5 <= |bad| && forall j :: 0 <= j < 5 ==> bad[j] >= 0x80
    ensures Load(Encode(n) + EncodeEntries(prefix, z) + bad, z) == Fail(VarIntTooLong)
  {
    hide *;
    var s := Encode(n) + EncodeEntries(prefix, z) + bad;
    var p := |Encode(n)| + |EncodeEntries(prefix, z)|;
    CountThenEntries(n, prefix, bad, z);
    ContinuationRun(s, p, bad);
    NameLengthTooLong(s, p, z);
    FailAfterEntries(s, |Encode(n)|, prefix, n, Empty, z, VarIntTooLong);
    LoadAfterCount(s, n, |Encode(n)|, z);
  }

  /** The same with a name that reads back and five continuation bytes
      where its compressed length belongs. */
  lemma MalformedCompressedLength(n: int32, prefix: seq<Entry>, name: seq<byte>, bad: seq<byte>, z: Compressor)
    requires Lossless(z) && EntriesFit(prefix, z) && |prefix| < n && |name| < TWO_31
    requires 5 <= |bad| && forall j :: 0 <= j < 5 ==> bad[j] >= 0x80
    ensures Load(Encode(n) + EncodeEntries(prefix, z) + (Encode(|name|) + name + bad), z) == Fail(VarIntTooLong)
  {
    hide *;
    Two31();
    var field := Encode(|name|) + name;
    var s := Encode(n) + EncodeEntries(prefix, z) + (field + bad);
    var p := |Encode(n)| + |EncodeEntries(prefix, z)|;
    CountThenEntries(n, prefix, field + bad, z);
    SliceAt(s, p, field, bad);
    ContinuationRun(s, p + |field|, bad);
    CompressedLengthTooLong(s, p, name, z);
    FailAfterEntries(s, |Encode(n)|, prefix, n, Empty, z, VarIntTooLong);
    LoadAfterCount(s, n, |Encode(n)|, z);
  }

  /** A count of zero or less gives the empty package whatever follows. */
  lemma NonPositiveCount(s: seq<byte>, z: Compressor)
    requires ReadVarInt(s, 0).Ok? && ReadVarInt(s, 0).value.value <= 0
    ensures Load(s, z) == Ok(Empty)
  {
  }

  /** Below 2^28 every encoded length takes at most four bytes, so the
      entries take no more room than the Default format's fixed lengths. */
  lemma {:induction false} FramedSizeAtMostFixed(entries: seq<Entry>, z: Compressor)
    requires EntriesFit(entries, z)
    requires forall i :: 0 <= i < |entries| ==>
      |entries[i].name| < 0x1000_0000 && |z.compress(entries[i].bytecode)| < 0x1000_0000
    ensures FramedSize(entries, z) <= DefaultPak.FramedSize(entries, z)
    decreases |entries|
  {
    if |entries| > 0 {
      EncodeAtMostFour(|entries[0].name|);
      EncodeAtMostFour(|z.compress(entries[0].bytecode)|);
      FramedSizeAtMostFixed(entries[1..], z);
    }
  }

  /** The Alternative file of a package whose counts and lengths stay below
      2^28 is never longer than its Default file. */
  lemma NoLongerThanDefault(pak: ShaderPak, order: seq<Name>, z: Compressor)
    requires Saveable(pak, order, z) && |pak.shaders| < 0x1000_0000
    requires forall n :: n in pak.shaders ==>
      |n| < 0x1000_0000 && |z.compress(pak.shaders[n])| < 0x1000_0000
    ensures |Save(pak, order, z)| <= |DefaultPak.Save(pak, order, z)|
  {
    EncodeAtMostFour(|pak.shaders|);
    FramedSizeAtMostFixed(EntriesOf(pak, order), z);
  }

  lemma EncodeAtMostFour(v: int32)
    requires 0 <= v < 0x1000_0000
    ensures |Encode(v)| <= 4
  {
    assert Pow128(4) == 0x1000_0000 by {
      assert Pow128(1) == 0x80;
    }
    EncodeLengthAtMost(v, 4);
  }
}

/** The UCSP format: the magic "UCSP", a version byte and a compression-kind
    byte, the encoded entry count, a lookup table with one row per entry (the
    encoded name length, the name, the encoded offset and the encoded length
    of its payload), then one data block holding every compressed payload
    back to back. Offsets count from the first byte of the data block. */
module UCSPak {
  import opened Common
  import opened BinaryIO
  import opened VarInt
  import opened Compression
  import opened ShaderPaks
  import opened SaveLimits
  import Alt7BitPak

  /** "UCSP" in ASCII. */
  const Magic: seq<byte> := [0x55, 0x43, 0x53, 0x50]

  /** The only version the writer produces and the reader accepts. */
  const Version: byte := 1

  /** The only compression kind: gzip. */
  const GZipKind: byte := 1

  /** The six bytes every UCSP file starts with. */
  const Header: seq<byte> := Magic + [Version, GZipKind]

  /** One row of the lookup table. */
  datatype LutRow = LutRow(name: Name, offset: int32, length: int32)

  // ---------------------------------------------------------------- Save

  /** The data block: the compressed payloads in dictionary order. */
  function DataBlock(entries: seq<Entry>, z: Compressor): seq<byte>
    decreases |entries|
  {
    if |entries| == 0 then [] else z.compress(entries[0].bytecode) + DataBlock(entries[1..], z)
  }

  /** The rows `Save` records while it fills the data block from `start` on,
      one per entry. */
  function Lut(entries: seq<Entry>, z: Compressor, start: nat): (r: seq<LutRow>)
    requires start + |DataBlock(entries, z)| < TWO_31
    ensures |r| == |entries|
    decreases |entries|
  {
    if |entries| == 0 then []
    else
      var length := |z.compress(entries[0].bytecode)|;
      [LutRow(entries[0].name, start, length)] + Lut(entries[1..], z, start + length)
  }

  /** Each row names its entry and spans exactly its compressed payload. */
  lemma {:induction false} LutRowsMatch(entries: seq<Entry>, z: Compressor, start: nat)
    requires start + |DataBlock(entries, z)| < TWO_31
    ensures var r := Lut(entries, z, start);
            forall i :: 0 <= i < |r| ==>
              r[i].name == entries[i].name && r[i].length == |z.compress(entries[i].bytecode)|
    decreases |entries|
  {
    hide *;
    if |entries| > 0 {
      LutUnfold(entries, z, start);
      var length := |z.compress(entries[0].bytecode)|;
      var rest := Lut(entries[1..], z, start + length);
      LutRowsMatch(entries[1..], z, start + length);
      assert forall i :: 1 <= i < |entries| ==> entries[i] == entries[1..][i - 1];
    }
  }

  /** The first row starts at `start`, every other where the previous one
      ended, and the last ends where the data block ends. */
  lemma {:induction false} LutContiguous(entries: seq<Entry>, z: Compressor, start: nat)
    requires start + |DataBlock(entries, z)| < TWO_31
    ensures var r := Lut(entries, z, start);
            && (|r| > 0 ==> r[0].offset == start)
            && (forall i :: 0 <= i < |r| - 1 ==> r[i + 1].offset == r[i].offset + r[i].length)
            && (|r| > 0 ==> r[|r| - 1].offset + r[|r| - 1].length == start + |DataBlock(entries, z)|)
    decreases |entries|
  {
    if |entries| > 0 {
      assert |entries| == 1 ==> DataBlock(entries[1..], z) == [];
      hide *;
      LutUnfold(entries, z, start);
      var length := |z.compress(entries[0].bytecode)|;
      LutContiguous(entries[1..], z, start + length);
    }
  }

  /** The first row, then the rows of the rest from where its payload ends. */
  lemma LutUnfold(entries: seq<Entry>, z: Compressor, start: nat)
    requires start + |DataBlock(entries, z)| < TWO_31 && |entries| > 0
    ensures var length := |z.compress(entries[0].bytecode)|;
            var r := Lut(entries, z, start);
            var rest := Lut(entries[1..], z, start + length);
            && |DataBlock(entries, z)| == length + |DataBlock(entries[1..], z)|
            && r[0] == LutRow(entries[0].name, start, length)
            && r[1..] == rest
            && (forall i :: 1 <= i < |r| ==> r[i] == rest[i - 1])
  {
  }

  /** Every name has an int length. */
  predicate RowsFit(rows: seq<LutRow>)
  {
    forall i :: 0 <= i < |rows| ==> |rows[i].name| < TWO_31
  }

  /** One row as `Save` writes it. */
  function EncodeRow(row: LutRow): seq<byte>
    requires |row.name| < TWO_31
  {
    Encode(|row.name|) + row.name + Encode(row.offset) + Encode(row.length)
  }

  function EncodeLut(rows: seq<LutRow>): seq<byte>
    requires RowsFit(rows)
    decreases |rows|
  {
    if |rows| == 0 then [] else EncodeRow(rows[0]) + EncodeLut(rows[1..])
  }

  /** What `Save` can write: every count and length is an int, and so is
      every offset into the data block, which is built in memory. */
  predicate UcsSaveable(pak: ShaderPak, order: seq<Name>, z: Compressor)
  {
    Saveable(pak, order, z) && |DataBlock(EntriesOf(pak, order), z)| < TWO_31
  }

  /** The rows of a saveable package have int name lengths. */
  lemma LutRowsFit(entries: seq<Entry>, z: Compressor)
    requires EntriesFit(entries, z) && |DataBlock(entries, z)| < TWO_31
    ensures RowsFit(Lut(entries, z, 0))
  {
    LutRowsMatch(entries, z, 0);
  }

  /** `Save`: the header, the count, the lookup table with one row per
      shader, the data block, one after the other and nothing else. */
  function Save(pak: ShaderPak, order: seq<Name>, z: Compressor): (r: seq<byte>)
    requires UcsSaveable(pak, order, z)
    ensures var rows := Lut(EntriesOf(pak, order), z, 0);
            RowsFit(rows) && |rows| == |pak.shaders|
    ensures var rows := Lut(EntriesOf(pak, order), z, 0);
            var count := Encode(|pak.shaders|);
            var data := DataBlock(EntriesOf(pak, order), z);
            RowsFit(rows) ==>
              var table := EncodeLut(rows);
              && |r| == |Header| + |count| + |table| + |data|
              && At(r, 0, Header)
              && At(r, |Header|, count)
              && At(r, |Header| + |count|, table)
              && At(r, |Header| + |count| + |table|, data)
  {
    var entries := EntriesOf(pak, order);
    EnumerationCount(order, pak);
    LutRowsFit(entries, z);
    var count := Encode(|pak.shaders|);
    var table := EncodeLut(Lut(entries, z, 0));
    var data := DataBlock(entries, z);
    FourFields(Header, count, table, data);
    Header + count + table + data
  }

  /** Every row of the table addresses its own compressed payload inside
      the data block. */
  lemma {:induction false} LutAddressesPayload(entries: seq<Entry>, z: Compressor, start: nat, i: nat)
    requires start + |DataBlock(entries, z)| < TWO_31 && i < |entries|
    ensures var row := Lut(entries, z, start)[i];
            && start <= row.offset && 0 <= row.length
            && row.offset + row.length <= start + |DataBlock(entries, z)|
            && DataBlock(entries, z)[row.offset - start..row.offset - start + row.length] ==
                 z.compress(entries[i].bytecode)
    decreases |entries|
  {
    var c := z.compress(entries[0].bytecode);
    var rest := DataBlock(entries[1..], z);
    assert DataBlock(entries, z) == c + rest;
    hide *;
    LutUnfold(entries, z, start);
    if i == 0 {
      assert (c + rest)[0..|c|] == c;
    } else {
      var row := Lut(entries[1..], z, start + |c|)[i - 1];
      LutAddressesPayload(entries[1..], z, start + |c|, i - 1);
      assert entries[1..][i - 1] == entries[i];
      SliceAfter(c, rest, row.offset - start - |c|, row.length);
    }
  }

  /** A slice of the second part of a concatenation. */
  lemma SliceAfter(c: seq<byte>, rest: seq<byte>, a: int, n: int)
    requires 0 <= a && 0 <= n && a + n <= |rest|
    ensures (c + rest)[|c| + a..|c| + a + n] == rest[a..a + n]
  {
  }

  // ---------------------------------------------------------------- Load

  /** One pass of the table loop: the encoded name length, the name, the
      encoded offset and the encoded length. */
  function ReadRow(s: seq<byte>, pos: nat): (r: Result<Parsed<LutRow>>)
    requires pos <= |s|
    ensures r.Ok? ==> pos + 3 <= r.value.next <= |s|
    ensures r.Fail? ==> r.error in {EndOfStream, VarIntTooLong, NegativeCount}
  {
    var nameLength :- ReadVarInt(s, pos);
    var name :- ReadBytes(s, nameLength.next, nameLength.value);
    var offset :- ReadVarInt(s, name.next);
    var length :- ReadVarInt(s, offset.next);
    Ok(Parsed(LutRow(name.value, offset.value, length.value), length.next))
  }

  /** The table loop with `remaining` rows still to read. */
  function ReadLut(s: seq<byte>, pos: nat, remaining: int): (r: Result<Parsed<seq<LutRow>>>)
    requires pos <= |s|
    ensures r.Ok? ==> |r.value.value| == (if remaining <= 0 then 0 else remaining)
    ensures r.Ok? ==> pos <= r.value.next <= |s|
    ensures r.Fail? ==> r.error in {EndOfStream, VarIntTooLong, NegativeCount}
    decreases remaining
  {
    if remaining <= 0 then Ok(Parsed([], pos))
    else
      var row :- ReadRow(s, pos);
      var rest :- ReadLut(s, row.next, remaining - 1);
      Ok(Parsed([row.value] + rest.value, rest.next))
  }

  /** The payload loop: seek to the row's offset from the start of the data
      block, read its length, decompress, add. A seek before the beginning
      of the file fails; a seek past its end reads nothing. */
  function LoadPayloads(s: seq<byte>, dataStart: nat, rows: seq<LutRow>, pak: ShaderPak, z: Compressor): (r: Result<ShaderPak>)
    ensures r.Fail? ==> r.error in {SeekBeforeBegin, NegativeCount, CorruptBlock}
    ensures r == Fail(SeekBeforeBegin) ==> exists i :: 0 <= i < |rows| && dataStart + rows[i].offset < 0
    ensures r == Fail(NegativeCount) ==> exists i :: 0 <= i < |rows| && rows[i].length < 0
    decreases |rows|
  {
    if |rows| == 0 then Ok(pak)
    else
      var at := dataStart + rows[0].offset;
      if at < 0 then Fail(SeekBeforeBegin)
      else
        var payload :- ReadBytes(s, at, rows[0].length);
        var bytecode :- Decompress(z, payload.value);
        LoadPayloads(s, dataStart, rows[1..], AddShader(pak, rows[0].name, bytecode), z)
  }

  /** `Load`: check the magic, the version and the compression kind, then
      read the rest. Only a file without the magic is rejected as not UCSP,
      and a version or kind is rejected only as the byte the file holds. */
  function Load(s: seq<byte>, z: Compressor): (r: Result<ShaderPak>)
    ensures r == Fail(NotUcsp) <==> !HasMagic(s)
    ensures r.Fail? ==>
              || r.error in {NotUcsp, EndOfStream, VarIntTooLong, NegativeCount, SeekBeforeBegin, CorruptBlock}
              || (HasMagic(s) && 4 < |s| && s[4] != Version && r.error == UnsupportedVersion(s[4]))
              || (HasMagic(s) && 5 < |s| && s[4] == Version && s[5] != GZipKind && r.error == UnsupportedCompression(s[5]))
    ensures r.Ok? ==> HasMagic(s) && 6 <= |s| && s[4] == Version && s[5] == GZipKind
  {
    // A read of four bytes returns what is there and never fails.
    var magic := ReadBytes(s, 0, 4).value;
    if magic.value != Magic then Fail(NotUcsp)
    else
      var version :- ReadByte(s, magic.next);
      if version.value != Version then Fail(UnsupportedVersion(version.value))
      else
        var kind :- ReadByte(s, version.next);
        if kind.value != GZipKind then Fail(UnsupportedCompression(kind.value))
        else
          LoadBody(s, kind.next, z)
  }

  /** What follows the header: the count, the table, then the payloads from
      where the table ends. */
  function LoadBody(s: seq<byte>, pos: nat, z: Compressor): (r: Result<ShaderPak>)
    requires pos <= |s|
    ensures r.Fail? ==> r.error in {EndOfStream, VarIntTooLong, NegativeCount, SeekBeforeBegin, CorruptBlock}
  {
    var count :- ReadVarInt(s, pos);
    var table :- ReadLut(s, count.next, count.value);
    LoadPayloads(s, table.next, table.value, Empty, z)
  }

  /** Whether `s` starts with the magic. */
  predicate HasMagic(s: seq<byte>)
  {
    4 <= |s| && s[..4] == Magic
  }

  /** After the magic, the version byte is checked before anything else: any
      value but 1 is reported, and a file ending there ends too early. */
  lemma VersionChecked(s: seq<byte>, z: Compressor)
    requires HasMagic(s)
    ensures |s| == 4 ==> Load(s, z) == Fail(EndOfStream)
    ensures 4 < |s| && s[4] != Version ==> Load(s, z) == Fail(UnsupportedVersion(s[4]))
  {
    assert ReadBytes(s, 0, 4).value.value == s[..4];
  }

  /** With the right version, the compression byte is checked next. */
  lemma CompressionChecked(s: seq<byte>, z: Compressor)
    requires HasMagic(s) && 4 < |s| && s[4] == Version
    ensures |s| == 5 ==> Load(s, z) == Fail(EndOfStream)
    ensures 5 < |s| && s[5] != GZipKind ==> Load(s, z) == Fail(UnsupportedCompression(s[5]))
  {
    assert ReadBytes(s, 0, 4).value.value == s[..4];
  }

  /** A file with a valid header goes on to the count and the table. */
  lemma HeaderAccepted(s: seq<byte>, z: Compressor)
    requires HasMagic(s) && 6 <= |s| && s[4] == Version && s[5] == GZipKind
    ensures Load(s, z) == LoadBody(s, 6, z)
  {
    assert ReadBytes(s, 0, 4).value.value == s[..4];
  }

  /** A table row pointing past the end of the file reads no bytes: what
      gets added is whatever the decompressor makes of an empty stream. */
  lemma PayloadPastEnd(s: seq<byte>, dataStart: nat, row: LutRow, pak: ShaderPak, z: Compressor)
    requires |s| <= dataStart + row.offset && 0 <= row.length
    ensures LoadPayloads(s, dataStart, [row], pak, z) ==
              match z.decompress([])
              case None => Fail(CorruptBlock)
              case Some(b) => Ok(AddShader(pak, row.name, b))
  {
    assert [row][1..] == [];
  }

  // ---------------------------------------------------------- Round trip

  /** The table reader succeeds when its four reads do; `p1`, `p2`, `p3`
      and `end` are the positions after each read. */
  lemma ReadRowFields(s: seq<byte>, pos: nat, row: LutRow, p1: nat, p2: nat, p3: nat, end: nat)
    requires pos <= |s| && p2 <= |s| && p3 <= |s| && |row.name| < TWO_31
    requires ReadVarInt(s, pos) == Ok(Parsed(|row.name|, p1))
    requires ReadBytes(s, p1, |row.name|) == Ok(Parsed(row.name, p2))
    requires ReadVarInt(s, p2) == Ok(Parsed(row.offset, p3))
    requires ReadVarInt(s, p3) == Ok(Parsed(row.length, end))
    ensures ReadRow(s, pos) == Ok(Parsed(row, end))
  {
    hide ReadVarInt, ReadBytes;
  }

  /** Reading back one row that `EncodeRow` wrote at `pos`. */
  lemma ReadEncodedRow(s: seq<byte>, pos: nat, row: LutRow)
    requires |row.name| < TWO_31 && At(s, pos, EncodeRow(row))
    ensures ReadRow(s, pos) == Ok(Parsed(row, pos + |EncodeRow(row)|))
  {
    hide *;
    RowParts(s, pos, row);
    ReadRowAt(s, pos, row);
  }

  /** Where the three fields of a row written at `pos` lie. */
  lemma RowParts(s: seq<byte>, pos: nat, row: LutRow)
    requires |row.name| < TWO_31 && At(s, pos, EncodeRow(row))
    ensures At(s, pos, Encode(|row.name|) + row.name)
    ensures At(s, pos + |Encode(|row.name|)| + |row.name|, Encode(row.offset))
    ensures At(s, pos + |Encode(|row.name|)| + |row.name| + |Encode(row.offset)|, Encode(row.length))
    ensures pos + |Encode(|row.name|)| + |row.name| + |Encode(row.offset)| + |Encode(row.length)| == pos + |EncodeRow(row)|
  {
    assert EncodeRow(row) == Encode(|row.name|) + row.name + Encode(row.offset) + Encode(row.length);
    hide EncodeRow, Encode;
    SliceFour(s, pos, Encode(|row.name|), row.name, Encode(row.offset), Encode(row.length));
  }

  /** A row whose three fields lie one after the other at `pos` reads back. */
  lemma ReadRowAt(s: seq<byte>, pos: nat, row: LutRow)
    requires |row.name| < TWO_31
    requires At(s, pos, Encode(|row.name|) + row.name)
    requires At(s, pos + |Encode(|row.name|)| + |row.name|, Encode(row.offset))
    requires At(s, pos + |Encode(|row.name|)| + |row.name| + |Encode(row.offset)|, Encode(row.length))
    ensures ReadRow(s, pos) ==
              Ok(Parsed(row, pos + |Encode(|row.name|)| + |row.name| + |Encode(row.offset)| + |Encode(row.length)|))
  {
    hide *;
    Two31();
    var p2 := pos + |Encode(|row.name|)| + |row.name|;
    var p3 := p2 + |Encode(row.offset)|;
    Alt7BitPak.ReadLengthPrefixed(s, pos, row.name);
    ReadEncodedAt(s, p2, row.offset);
    ReadEncodedAt(s, p3, row.length);
    ReadRowFields(s, pos, row, pos + |Encode(|row.name|)|, p2, p3, p3 + |Encode(row.length)|);
  }

  /** The encoding of a non-empty table is its first row's, then the rest's. */
  lemma EncodedLutSplit(s: seq<byte>, pos: nat, rows: seq<LutRow>)
    requires |rows| > 0 && RowsFit(rows) && At(s, pos, EncodeLut(rows))
    ensures RowsFit(rows[1..]) && |rows[0].name| < TWO_31
    ensures At(s, pos, EncodeRow(rows[0])) && At(s, pos + |EncodeRow(rows[0])|, EncodeLut(rows[1..]))
  {
    hide EncodeRow, Encode;
    assert forall i :: 0 <= i < |rows| - 1 ==> rows[1..][i] == rows[i + 1];
    assert EncodeLut(rows) == EncodeRow(rows[0]) + EncodeLut(rows[1..]);
    SliceAt(s, pos, EncodeRow(rows[0]), EncodeLut(rows[1..]));
  }

  /** The table loop reads the first row, then the rest after it. */
  lemma ReadFirstThenRest(s: seq<byte>, pos: nat, rows: seq<LutRow>, after: nat, end: nat)
    requires pos <= |s| && |rows| > 0 && after <= |s|
    requires ReadRow(s, pos) == Ok(Parsed(rows[0], after))
    requires ReadLut(s, after, |rows| - 1) == Ok(Parsed(rows[1..], end))
    ensures ReadLut(s, pos, |rows|) == Ok(Parsed(rows, end))
  {
    hide ReadRow;
    assert [rows[0]] + rows[1..] == rows;
  }

  /** Reading back the table `EncodeLut` wrote at `pos` gives its rows and
      stops right after it. */
  lemma {:induction false} ReadEncodedLut(s: seq<byte>, pos: nat, rows: seq<LutRow>)
    requires RowsFit(rows) && At(s, pos, EncodeLut(rows))
    ensures ReadLut(s, pos, |rows|) == Ok(Parsed(rows, pos + |EncodeLut(rows)|))
    decreases |rows|
  {
    hide ReadRow, ReadLut, EncodeRow, EncodeLut, Encode;
    if |rows| > 0 {
      var after := pos + |EncodeRow(rows[0])|;
      EncodedLutSplit(s, pos, rows);
      ReadEncodedRow(s, pos, rows[0]);
      ReadEncodedLut(s, after, rows[1..]);
      LutLength(rows);
      ReadFirstThenRest(s, pos, rows, after, pos + |EncodeLut(rows)|);
    } else {
      EmptyLut(s, pos);
    }
  }

  lemma LutLength(rows: seq<LutRow>)
    requires |rows| > 0 && RowsFit(rows)
    ensures RowsFit(rows[1..]) && |rows[0].name| < TWO_31
    ensures |EncodeLut(rows)| == |EncodeRow(rows[0])| + |EncodeLut(rows[1..])|
  {
    assert forall i :: 0 <= i < |rows| - 1 ==> rows[1..][i] == rows[i + 1];
  }

  /** The table loop over no rows reads nothing, and no rows encode to
      nothing. */
  lemma EmptyLut(s: seq<byte>, pos: nat)
    requires pos <= |s|
    ensures ReadLut(s, pos, 0) == Ok(Parsed([], pos))
    ensures |EncodeLut([])| == 0
  {
  }

  /** The payload loop reads the first payload, then the rest over it. */
  lemma PayloadThenRest(s: seq<byte>, dataStart: nat, entries: seq<Entry>, z: Compressor, start: nat, pak: ShaderPak)
    requires Lossless(z) && |entries| > 0 && start + |DataBlock(entries, z)| < TWO_31
    requires dataStart + start + |z.compress(entries[0].bytecode)| <= |s|
    requires s[dataStart + start..dataStart + start + |z.compress(entries[0].bytecode)|] == z.compress(entries[0].bytecode)
    ensures LoadPayloads(s, dataStart, Lut(entries, z, start), pak, z) ==
              LoadPayloads(s, dataStart, Lut(entries[1..], z, start + |z.compress(entries[0].bytecode)|),
                           AddShader(pak, entries[0].name, entries[0].bytecode), z)
  {
    var c := z.compress(entries[0].bytecode);
    LutUnfold(entries, z, start);
    hide ReadBytes, DataBlock, Lut;
    ReadBytesExact(s, dataStart + start, c);
    assert Decompress(z, c) == Ok(entries[0].bytecode);
  }

  /** Reading payloads through the rows `Save` records, over a file that
      holds the data block at `dataStart`, adds every entry in order. */
  lemma {:induction false} LoadTiledPayloads(s: seq<byte>, dataStart: nat, entries: seq<Entry>, z: Compressor, start: nat, pak: ShaderPak)
    requires Lossless(z) && start + |DataBlock(entries, z)| < TWO_31
    requires dataStart + start + |DataBlock(entries, z)| <= |s|
    requires s[dataStart + start..dataStart + start + |DataBlock(entries, z)|] == DataBlock(entries, z)
    ensures LoadPayloads(s, dataStart, Lut(entries, z, start), pak, z) == Ok(AddAll(pak, entries))
    decreases |entries|
  {
    hide *;
    if |entries| > 0 {
      var c := z.compress(entries[0].bytecode);
      var next := AddShader(pak, entries[0].name, entries[0].bytecode);
      DataBlockUnfold(entries, z);
      AddAllUnfold(pak, entries);
      SliceConcat(s, dataStart + start, c, DataBlock(entries[1..], z));
      PayloadThenRest(s, dataStart, entries, z, start, pak);
      LoadTiledPayloads(s, dataStart, entries[1..], z, start + |c|, next);
    } else {
      NoPayloads(s, dataStart, entries, z, start, pak);
    }
  }

  /** The data block is the first compressed payload, then the rest's. */
  lemma DataBlockUnfold(entries: seq<Entry>, z: Compressor)
    requires |entries| > 0
    ensures DataBlock(entries, z) == z.compress(entries[0].bytecode) + DataBlock(entries[1..], z)
  {
  }

  /** With no entries the saver records no rows and the payload loop adds
      nothing. */
  lemma NoPayloads(s: seq<byte>, dataStart: nat, entries: seq<Entry>, z: Compressor, start: nat, pak: ShaderPak)
    requires |entries| == 0 && start < TWO_31
    ensures LoadPayloads(s, dataStart, Lut(entries, z, start), pak, z) == Ok(AddAll(pak, entries))
  {
    assert Lut(entries, z, start) == [];
  }

  /** A file made of the header, a count, an encoded table with that many
      rows and any data loads the payloads those rows address in that data. */
  lemma LoadLayout(n: int32, rows: seq<LutRow>, data: seq<byte>, z: Compressor)
    requires RowsFit(rows) && n == |rows|
    ensures var s := Header + Encode(n) + EncodeLut(rows) + data;
            Load(s, z) == LoadPayloads(s, |Header + Encode(n) + EncodeLut(rows)|, rows, Empty, z)
  {
    var s := Header + Encode(n) + EncodeLut(rows) + data;
    hide *;
    LayoutHeader(s, n, rows, data);
    HeaderAccepted(s, z);
    LayoutBody(s, n, rows, data, z);
  }

  lemma LayoutBody(s: seq<byte>, n: int32, rows: seq<LutRow>, data: seq<byte>, z: Compressor)
    requires RowsFit(rows) && n == |rows| && s == Header + Encode(n) + EncodeLut(rows) + data
    ensures 6 <= |s|
    ensures LoadBody(s, 6, z) == LoadPayloads(s, |Header + Encode(n) + EncodeLut(rows)|, rows, Empty, z)
  {
    hide *;
    LayoutCount(s, n, rows, data);
    LayoutTable(s, n, rows, data);
    BodyAfterTable(s, 6, n, rows, z);
  }

  lemma LayoutHeader(s: seq<byte>, n: int32, rows: seq<LutRow>, data: seq<byte>)
    requires RowsFit(rows) && s == Header + Encode(n) + EncodeLut(rows) + data
    ensures |Header| == 6 && 6 <= |s| && HasMagic(s) && s[4] == Version && s[5] == GZipKind
  {
    hide Encode, EncodeLut;
    SliceConcat(s, 0, Header, Encode(n) + EncodeLut(rows) + data);
    HeaderBytes(s);
  }

  lemma LayoutCount(s: seq<byte>, n: int32, rows: seq<LutRow>, data: seq<byte>)
    requires RowsFit(rows) && s == Header + Encode(n) + EncodeLut(rows) + data
    ensures |Header| == 6
    ensures 6 + |Encode(n)| <= |s| && ReadVarInt(s, 6) == Ok(Parsed(n, 6 + |Encode(n)|))
  {
    hide *;
    HeaderLength();
    SliceConcat(s, 0, Header + Encode(n), EncodeLut(rows) + data);
    SliceConcat(s, 0, Header, Encode(n));
    ReadEncoded(s, 6, n);
  }

  lemma LayoutTable(s: seq<byte>, n: int32, rows: seq<LutRow>, data: seq<byte>)
    requires RowsFit(rows) && s == Header + Encode(n) + EncodeLut(rows) + data
    ensures 6 + |Encode(n)| + |EncodeLut(rows)| <= |s|
    ensures ReadLut(s, 6 + |Encode(n)|, |rows|) == Ok(Parsed(rows, 6 + |Encode(n)| + |EncodeLut(rows)|))
  {
    hide *;
    HeaderLength();
    WholeAt(s);
    SliceAt(s, 0, Header + Encode(n) + EncodeLut(rows), data);
    SliceAt(s, 0, Header + Encode(n), EncodeLut(rows));
    ReadEncodedLut(s, 6 + |Encode(n)|, rows);
  }

  /** The header is six bytes long. */
  lemma HeaderLength()
    ensures |Header| == 6
  {
  }

  /** After the count and the table the body is the payload loop. */
  lemma BodyAfterTable(s: seq<byte>, pos: nat, n: int32, rows: seq<LutRow>, z: Compressor)
    requires pos + |Encode(n)| <= |s| && RowsFit(rows) && n == |rows|
    requires ReadVarInt(s, pos) == Ok(Parsed(n, pos + |Encode(n)|))
    requires pos + |Encode(n)| + |EncodeLut(rows)| <= |s|
    requires ReadLut(s, pos + |Encode(n)|, n) == Ok(Parsed(rows, pos + |Encode(n)| + |EncodeLut(rows)|))
    ensures LoadBody(s, pos, z) == LoadPayloads(s, pos + |Encode(n)| + |EncodeLut(rows)|, rows, Empty, z)
  {
    hide ReadVarInt, ReadLut, LoadPayloads, Encode, EncodeLut;
  }

  lemma HeaderBytes(s: seq<byte>)
    requires |Header| <= |s| && s[0..|Header|] == Header
    ensures |Header| == 6 && HasMagic(s) && s[4] == Version && s[5] == GZipKind
  {
    assert s[..4] == s[0..6][..4];
    assert s[4] == s[0..6][4] && s[5] == s[0..6][5];
  }

  /** Loading the bytes `Save` lays out for `entries` adds them all, in
      order, to the empty package. */
  lemma LoadSavedEntries(entries: seq<Entry>, z: Compressor)
    requires Lossless(z) && EntriesFit(entries, z) && |entries| < TWO_31 && |DataBlock(entries, z)| < TWO_31
    ensures RowsFit(Lut(entries, z, 0))
    ensures Load(Header + Encode(|entries|) + EncodeLut(Lut(entries, z, 0)) + DataBlock(entries, z), z) ==
              Ok(AddAll(Empty, entries))
  {
    hide *;
    Two31();
    LutRowsFit(entries, z);
    var rows := Lut(entries, z, 0);
    var data := DataBlock(entries, z);
    var prefix := Header + Encode(|entries|) + EncodeLut(rows);
    var s := prefix + data;
    LoadLayout(|entries|, rows, data, z);
    SliceConcat(s, 0, prefix, data);
    LoadTiledPayloads(s, |prefix|, entries, z, 0, Empty);
  }

  /** Round trip: loading a saved package gives the package back. */
  lemma LoadSave(pak: ShaderPak, order: seq<Name>, z: Compressor)
    requires Lossless(z) && UcsSaveable(pak, order, z)
    ensures Load(Save(pak, order, z), z) == Ok(pak)
  {
    var entries := EntriesOf(pak, order);
    EnumerationCount(order, pak);
    LoadSavedEntries(entries, z);
    RebuildEnumeration(pak, order);
  }
}

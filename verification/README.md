# SPakLib shader packages in Dafny

SPakLib stores named, compiled shader blobs in a `ShaderPak`: a dictionary
from shader name to bytecode where adding a name that already exists replaces
its bytecode. A package is written to and read from disk by one of three
formats:

- **Default**: a four-byte little-endian count, then per shader a four-byte
  name length, the UTF-8 name, a four-byte compressed length and the
  gzip-compressed bytecode.
- **Alt7Bit**: the same layout, but every count and length is a 7-bit
  variable-length integer (seven bits per byte, least significant group
  first, bit 0x80 on every byte but the last).
- **UCSP**: the magic `UCSP`, a version byte (1) and a compression byte
  (1 = gzip), the 7-bit count, a lookup table with one row per shader (name
  length, name, offset, length, all 7-bit), then one data block holding every
  compressed payload back to back. Offsets count from the first byte of the
  data block, which starts where the table ends.

The model has these modules:

- `Common`: bytes, the C# `int`/`uint` casts, `Result`.
- `BinaryIO`: the `BinaryReader`/`BinaryWriter` calls the formats use.
- `VarInt`: the 7-bit codec of `Utils`.
- `GroupBits`: the reader's 32-bit accumulator, on bit-vectors.
- `Compression`: gzip, as a parameter.
- `ShaderPaks`: the dictionary.
- `SaveLimits`: what a writer can rely on about a package.
- `DefaultPak`, `Alt7BitPak` and `UCSPak`: the three formats.

Every format's `Save` is a function from a package to the bytes of the file.
Every `Load` is a function from the bytes of a file to `Ok(package)`, or to
`Fail(error)` with the exception the code would raise.

Two things the code leaves to its environment are parameters of the model:

- **The dictionary's enumeration order** is a sequence `order` that lists
  every name exactly once (`IsEnumeration`).
- **The gzip codec** is a pair of functions. The round-trip lemmas assume
  only that decompressing a compressed block gives the block back
  (`Lossless`).

The main results are:

- **Save then Load is the identity, for each format.** `DefaultPak.LoadSave`,
  `Alt7BitPak.LoadSave` and `UCSPak.LoadSave` prove it for every enumeration
  order and every lossless codec.
- **The 7-bit codec round-trips**, and its failure cases are characterised
  exactly.
- **Every field and row is located and read back.** The lemmas show where
  each field and each lookup-table row lies and that reading it back gives
  what was written.
- **Duplicates resolve in file order.** For a hand-made file with repeated
  names, the last entry in the file wins.

## Model

| member | source | states |
|---|---|---|
| Common.ToUint32 | Utils.cs:22 | `(uint)value` keeps non-negative ints and moves negative ones to 2^31 and above |
| Common.SameBitPattern | Utils.cs:22 | the `(uint)` cast preserves the value modulo 2^32 |
| Common.ToInt32 | Utils.cs:56 | the `int` a 32-bit pattern denotes casts back to the same unsigned pattern |
| Common.Int32RoundTrip | Utils.cs:22 | casting an int to `uint` and back gives the int back |
| VarInt.EncodeU32 | Utils.cs:23-28 | an unsigned magnitude is written in at least one byte, every byte but the last carries the continuation bit and the last does not; a magnitude below 0x80 is the single byte itself |
| VarInt.Encode | Utils.cs:20-29 | the encoding of an int takes one to five bytes; a negative int always takes five; a value below 0x80 is the single byte itself |
| VarInt.Uint32Length | Utils.cs:23-28 | a 32-bit magnitude takes at most five bytes, and exactly five when it has a bit at or above bit 28 |
| VarInt.EncodeLengthAtMost | Utils.cs:23-28 | a magnitude below 128^n is written in at most n bytes |
| VarInt.EncodeLengthAbove | Utils.cs:23-28 | a magnitude of at least 128^n takes more than n bytes |
| VarInt.Write7BitEncodedInt | Utils.cs:20-29 | the writer's loop (emit the low group with 0x80 while at least 0x80 remains, then the last group) produces exactly `Encode(value)` |
| VarInt.ReadVarInt | Utils.cs:39-57 | a successful read consumes one to five bytes, the last without bit 0x80; the only failures are the too-long format error and end of stream |
| VarInt.Read7BitEncodedInt | Utils.cs:39-57 | the do-while loop, with a 32-bit accumulator that ORs `(b & 0x7F) << shift` in and a shift checked against 35 before each read, computes `ReadVarInt` |
| VarInt.AccumulatedValue | Utils.cs:41-53 | the 32-bit accumulator after k bytes, read as unsigned, is the sum of their groups cut to 32 bits; before the fifth byte nothing is cut |
| GroupBits.Group | Utils.cs:51 | `b & 0x7F` is below 0x80 and is `b` modulo 128 |
| GroupBits.OrGroup | Utils.cs:51 | on a 32-bit int whose set bits all lie below bit 7k, ORing in a group shifted left by 7k adds the group at weight 2^7k, cut to 32 bits (at shift 28 only its low four bits stay); the result's bits stay below bit 7(k+1) |
| VarInt.ReadTooLong | Utils.cs:47-48 | the read fails with the format error if and only if the five bytes at the position all carry the continuation bit |
| VarInt.ReadEndOfStream | Utils.cs:50 | the read fails with end of stream if and only if the file ends within five bytes and before a byte without the continuation bit |
| VarInt.ReadConsumes | Utils.cs:45-54 | after a successful read every consumed byte but the last carries the continuation bit |
| VarInt.ReadWindow | Utils.cs:45-54 | the outcome of a read depends only on the five bytes at the position |
| VarInt.GroupsValueEncode | Utils.cs:23-28 | the seven-bit groups written for a magnitude add back up to it |
| VarInt.ReadEncoded | Utils.cs:20-57 | decoding the encoding of any int, wherever it lies in a file, returns that int and stops right after the encoding |
| VarInt.DecodeEncode | Utils.cs:20-57 | a stream starting with the encoding of an int decodes to the int, whatever follows |
| VarInt.NotInjective | Utils.cs:51 | the fifth byte contributes only its low four bits, so the five-byte form 80 80 80 80 10 and the single byte 00 both decode to zero |
| BinaryIO.Int32Le | Formats/DefaultPak.cs:27 | `Write(int)` emits four bytes that are the little-endian base-256 digits of the value's 32-bit pattern |
| BinaryIO.Int32LeInverse | Formats/DefaultPak.cs:58 | `ReadInt32` reassembles the value `Write(int)` split into four little-endian bytes |
| BinaryIO.ReadByte | Formats/UCSPak.cs:87 | a byte read succeeds exactly inside the file, returns that byte and advances by one; otherwise end of stream |
| BinaryIO.ReadInt32 | Formats/DefaultPak.cs:58 | an int read succeeds exactly when four bytes remain and advances by four; otherwise end of stream |
| BinaryIO.ReadBytes | Formats/DefaultPak.cs:66 | a negative count is rejected; otherwise the read returns the requested bytes, or those up to the end of the file, or none from beyond it, and advances past what it returned |
| BinaryIO.ReadInt32Le | Formats/DefaultPak.cs:58 | reading an int where `Write(int)` wrote one returns the value and advances by four |
| Compression.Decompress | Utils.cs:81-90 | decompression fails with a corrupt-block error exactly when the codec rejects the stream, and otherwise returns what the codec returns |
| Compression.DecompressCompressed | Utils.cs:64-90 | with a lossless codec, decompressing a compressed block succeeds and gives the original bytes |
| ShaderPaks.TryGetShader | ShaderPak.cs:34-37 | a lookup succeeds exactly for stored names and then returns the stored bytecode |
| ShaderPaks.ShaderNames | ShaderPak.cs:15 | the names are exactly those a lookup succeeds on |
| ShaderPaks.AddShader | ShaderPak.cs:23-26 | afterwards the name finds the new bytecode, every other name finds what it found before, the name set gains the name, and the count grows only for a new name |
| ShaderPaks.EmptyFindsNothing | ShaderPak.cs:10 | a new package finds nothing and has no names |
| ShaderPaks.AddAllUnmentioned | ShaderPak.cs:23-26 | adding entries that never carry a name leaves that name's lookup unchanged |
| ShaderPaks.AddAllLastWins | ShaderPak.cs:23-26 | after adding entries in order, a name finds the bytecode of the last entry carrying it |
| ShaderPaks.EntriesOf | Formats/DefaultPak.cs:29 | the writer's loop visits, in enumeration order, one entry per enumerated name carrying that name's stored bytecode |
| ShaderPaks.EnumerationCount | Formats/DefaultPak.cs:27 | the count a writer stores equals the number of entries its loop then writes |
| ShaderPaks.AddAllEntriesOf | Formats/DefaultPak.cs:69 | re-adding a package's entries finds the package's bytecode for the enumerated names and leaves every other name as it was |
| ShaderPaks.RebuildEnumeration | Formats/DefaultPak.cs:53-69 | adding all entries of an enumeration to a new package rebuilds the package exactly |
| DefaultPak.Save | Formats/DefaultPak.cs:21-43 | the file is the count, then per entry the name and the compressed bytecode with eight bytes of lengths |
| DefaultPak.EncodedSize | Formats/DefaultPak.cs:29-41 | the entries take eight bytes plus name and compressed bytes each |
| DefaultPak.Load | Formats/DefaultPak.cs:51-74 | a file shorter than four bytes fails with end of stream; failures are only end of stream, negative count or corrupt block |
| DefaultPak.ReadEntry | Formats/DefaultPak.cs:62-69 | a loop body that succeeds consumes at least its two lengths and stays inside the file |
| DefaultPak.LoadEntries | Formats/DefaultPak.cs:60-70 | the entry loop fails only with end of stream, a negative count or a corrupt block |
| DefaultPak.LoadEntriesStep | Formats/DefaultPak.cs:60-70 | one loop turn adds the entry it read and continues after it |
| DefaultPak.ReadEncodedEntry | Formats/DefaultPak.cs:62-69 | an entry written as the saver frames it reads back as the same name and bytecode and ends right after it |
| DefaultPak.LoadEncodedEntries | Formats/DefaultPak.cs:60-70 | the loop over saved entries adds them in file order |
| DefaultPak.LoadInFileOrder | Formats/DefaultPak.cs:51-74 | any count-prefixed run of entries, duplicate names included, loads as those entries added in file order |
| DefaultPak.LoadSave | Formats/DefaultPak.cs:21-74 | loading a saved package gives the package back |
| DefaultPak.SaveEmpty | Formats/DefaultPak.cs:27 | the empty package saves to a zero count of four zero bytes |
| DefaultPak.NonPositiveCount | Formats/DefaultPak.cs:58-60 | a count of zero or less loads the empty package, whatever follows |
| DefaultPak.TruncatedPayload | Formats/DefaultPak.cs:65-68 | a payload cut short by the end of the file is passed to the decompressor as it is; only the decompressor can reject it |
| Alt7BitPak.Save | Formats/Alt7BitPak.cs:21-43 | the file starts with the encoded count, and its size is the count's encoding plus each entry's two encoded lengths, name and compressed bytes |
| Alt7BitPak.EncodedSize | Formats/Alt7BitPak.cs:29-41 | the entries take their two encoded lengths plus name and compressed bytes each |
| Alt7BitPak.Load | Formats/Alt7BitPak.cs:51-74 | an empty file fails with end of stream; failures are only end of stream, the too-long format error, negative count or corrupt block |
| Alt7BitPak.ReadEntry | Formats/Alt7BitPak.cs:63-70 | a loop body that succeeds consumes at least two bytes and stays inside the file |
| Alt7BitPak.LoadEntries | Formats/Alt7BitPak.cs:61-71 | the entry loop fails only with end of stream, the too-long format error, a negative count or a corrupt block |
| Alt7BitPak.LoadEntriesStep | Formats/Alt7BitPak.cs:61-71 | one loop turn adds the entry it read and continues after it |
| Alt7BitPak.ReadEncodedEntry | Formats/Alt7BitPak.cs:63-70 | an entry written as the saver frames it reads back as the same name and bytecode and ends right after it |
| Alt7BitPak.ReadLengthPrefixed | Formats/Alt7BitPak.cs:63-64 | an encoded length followed by that many bytes reads back as the length and the bytes |
| Alt7BitPak.LoadEncodedEntries | Formats/Alt7BitPak.cs:61-71 | the loop over saved entries adds them in file order |
| Alt7BitPak.LoadInFileOrder | Formats/Alt7BitPak.cs:51-74 | any count-prefixed run of entries, duplicate names included, loads as those entries added in file order |
| Alt7BitPak.LoadSave | Formats/Alt7BitPak.cs:21-74 | loading a saved package gives the package back |
| Alt7BitPak.SaveEmpty | Formats/Alt7BitPak.cs:27 | the empty package saves to the single zero byte of its count |
| Alt7BitPak.MalformedCount | Formats/Alt7BitPak.cs:59 | a count field of five continuation bytes fails the load with the format error |
| Alt7BitPak.NameLengthTooLong | Formats/Alt7BitPak.cs:63 | five continuation bytes where an entry's name length belongs fail that entry with the format error |
| Alt7BitPak.CompressedLengthTooLong | Formats/Alt7BitPak.cs:63-66 | after a name length and a name that read back, five continuation bytes where the compressed length belongs fail the entry with the format error |
| Alt7BitPak.FailAfterEntries | Formats/Alt7BitPak.cs:61-71 | when the count reaches an entry that fails, the entries before it read back and the loop then fails with that entry's error |
| Alt7BitPak.MalformedNameLength | Formats/Alt7BitPak.cs:59-71 | a file whose count exceeds the well-formed entries it holds, followed by five continuation bytes, fails the load with the format error |
| Alt7BitPak.MalformedCompressedLength | Formats/Alt7BitPak.cs:59-71 | the same when the damaged entry's name reads back and its compressed length is five continuation bytes |
| Alt7BitPak.NonPositiveCount | Formats/Alt7BitPak.cs:59-61 | a count of zero or less loads the empty package, whatever follows |
| Alt7BitPak.EncodeAtMostFour | Utils.cs:23-28 | a non-negative value below 2^28 is encoded in at most four bytes |
| Alt7BitPak.FramedSizeAtMostFixed | Formats/Alt7BitPak.cs:10 | with lengths below 2^28 the entries take no more room than with fixed four-byte lengths |
| Alt7BitPak.NoLongerThanDefault | Formats/Alt7BitPak.cs:10 | with counts and lengths below 2^28 the Alternative file is never longer than the Default file of the same package |
| UCSPak.Lut | Formats/UCSPak.cs:40-51 | the saver records one row per entry |
| UCSPak.LutRowsMatch | Formats/UCSPak.cs:40-51 | row i carries entry i's name and the length of its compressed payload |
| UCSPak.LutContiguous | Formats/UCSPak.cs:42-50 | the first row starts at the start of the data block, each later row where the previous one ended, and the last ends where the data block ends |
| UCSPak.LutAddressesPayload | Formats/UCSPak.cs:40-64 | every row's offset and length address exactly its own compressed payload inside the data block |
| UCSPak.LutRowsFit | Formats/UCSPak.cs:56-57 | every row the saver records has an int name length |
| UCSPak.Save | Formats/UCSPak.cs:25-64 | the file is the six header bytes, then the encoded shader count, then a table of exactly one row per shader, then the data block, and nothing else |
| UCSPak.ReadRow | Formats/UCSPak.cs:100-105 | a table-loop body that succeeds consumes at least three bytes and stays inside the file; its failures are end of stream, the format error or a negative count |
| UCSPak.ReadLut | Formats/UCSPak.cs:97-106 | the table loop yields as many rows as the count says, or none for a count of zero or less, and stops inside the file |
| UCSPak.LoadPayloads | Formats/UCSPak.cs:110-124 | the payload loop fails before the beginning of the file only if some row points there, and with a negative count only if some row has a negative length |
| UCSPak.LoadBody | Formats/UCSPak.cs:95-124 | after the header the only failures are end of stream, the format error, a negative count, a seek before the beginning or a corrupt block |
| UCSPak.Load | Formats/UCSPak.cs:75-128 | the load is rejected as not UCSP if and only if the file does not start with the magic; a rejected version or compression kind is the byte the file holds at offset 4 or 5; every other failure is end of stream, the format error, a negative count, a seek before the beginning or a corrupt block; a load that succeeds read a valid six-byte header |
| UCSPak.VersionChecked | Formats/UCSPak.cs:87-89 | after the magic, a missing version byte is end of stream and any version but 1 is rejected with that version |
| UCSPak.CompressionChecked | Formats/UCSPak.cs:91-93 | after version 1, a missing compression byte is end of stream and any kind but gzip is rejected with that kind |
| UCSPak.HeaderAccepted | Formats/UCSPak.cs:82-95 | a valid six-byte header leads on to the count at offset 6 |
| UCSPak.PayloadPastEnd | Formats/UCSPak.cs:112-113 | a row pointing past the end of the file reads nothing, so the decompressor decides on an empty stream |
| UCSPak.ReadEncodedRow | Formats/UCSPak.cs:100-105 | a row written as the saver writes it reads back as the same row and ends right after it |
| UCSPak.ReadEncodedLut | Formats/UCSPak.cs:97-106 | the table written by the saver reads back row by row and the data block starts right after it |
| UCSPak.LoadTiledPayloads | Formats/UCSPak.cs:110-124 | the payload loop over the saver's rows, with the data block at the table's end, adds every entry in order |
| UCSPak.LoadLayout | Formats/UCSPak.cs:95-108 | a file of header, count, table of that many rows and any data loads the payloads its rows address from the table's end |
| UCSPak.LoadSavedEntries | Formats/UCSPak.cs:25-128 | the bytes the saver lays out for a list of entries load as those entries added in order to an empty package |
| UCSPak.LoadSave | Formats/UCSPak.cs:25-128 | loading a saved package gives the package back |

## Left out

- File I/O: paths, `File.Create`/`File.OpenRead`, streams and their disposal. A file is the sequence of its bytes.
- Text encoding: names are modelled as the UTF-8 (for UCSP's magic, ASCII) bytes. A name's identity is its bytes. `GetString` on a malformed byte sequence, which replaces bad bytes and could map two byte names to one string, is not modelled.
- Gzip: the compressor is a parameter. Its internals are a foreign library. The round-trip lemmas assume only that it is lossless. The UCSP saver runs one `GZipStream` per shader into a shared buffer; this is modelled as concatenating the separately compressed payloads.
- Dictionary enumeration order: a parameter listing every name once. .NET does not specify the order.
- `IShaderPakFormat.cs` and `SPak.cs`: format selection and the public entry points are not part of this model.
- Savers on packages with 2^31 or more shaders, or with names or payloads of 2^31 or more bytes: excluded by `SaveLimits.Saveable`, since a .NET collection or array cannot be that large.
- `UCSPak.Save`: requires the data block to stay below 2^31 bytes (`UcsSaveable`). A `MemoryStream` cannot grow past `int.MaxValue` bytes, so a larger block makes the buffer write throw `IOException` partway through the save, after the header and count are already in the file. That failure, and the partly written file it leaves, are not modelled.
- Aliasing: `AddShader` stores the caller's byte array itself (ShaderPak.cs:25) and `TryGetShader` hands that same array back (ShaderPak.cs:36), so a caller that later mutates the array changes the package. The model stores payloads as immutable sequences, so this sharing is not modelled.
- `ReadBytes` with a negative count raises `ArgumentOutOfRangeException` in .NET. The model reports it as `NegativeCount`; the message text is not modelled.
- `UCSPak.Lut`: its own contract states only the row count. The row contents and positions are stated by `LutRowsMatch`, `LutContiguous` and `LutAddressesPayload`.
- A truncated payload is not an error in itself. The Default and Alt7Bit loaders and the UCSP payload loop read with `ReadBytes`, which returns the bytes that are there when the file ends early. The model follows that code: a short read fails only if the decompressor rejects the short stream (`DefaultPak.TruncatedPayload`, `UCSPak.PayloadPastEnd`).

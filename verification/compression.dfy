/** The gzip compressor the formats call (`GZip_Compress` / `GZip_Decompress`
    and the GZipStream blocks inside the UCSP format). Its internals are a
    foreign library, so it enters the model as a parameter: a pair of
    functions, with losslessness as the one hypothesis the round-trip lemmas
    make about it. */
module Compression {
  import opened Common

  datatype Compressor = Compressor(
    compress: seq<byte> -> seq<byte>,
    decompress: seq<byte> -> Option<seq<byte>>)  // None: not a valid gzip stream

  /** Decompressing what was compressed gives back the original bytes. */
  ghost predicate Lossless(z: Compressor)
  {
    forall data :: z.decompress(z.compress(data)) == Some(data)
  }

  /** `GZip_Decompress`: a stream the decompressor rejects raises an error. */
  function Decompress(z: Compressor, data: seq<byte>): (r: Result<seq<byte>>)
    ensures r.Fail? <==> z.decompress(data).None?
    ensures r.Fail? ==> r.error == CorruptBlock
    ensures r.Ok? ==> z.decompress(data) == Some(r.value)
  {
    match z.decompress(data)
    case Some(d) => Ok(d)
    case None => Fail(CorruptBlock)
  }

  /** With a lossless compressor, decompressing a compressed block succeeds
      and gives the original bytes back. */
  lemma DecompressCompressed(z: Compressor, data: seq<byte>)
    requires Lossless(z)
    ensures Decompress(z, z.compress(data)) == Ok(data)
  {
  }

  /** The identity "compressor" (gzip's stored mode without framing) shows
      that the hypothesis can be met. */
  const Stored: Compressor := Compressor(data => data, data => Some(data))

  lemma StoredIsLossless()
    ensures Lossless(Stored)
  {
  }
}

/** What every writer can rely on about the package it saves: the names come
    from one enumeration of the dictionary, and every count and length it
    writes is a C# int (a .NET array has fewer than 2^31 elements). */
module SaveLimits {
  import opened Common
  import opened Compression
  import opened ShaderPaks

  /** Every name and every compressed payload has an int length. */
  predicate EntriesFit(entries: seq<Entry>, z: Compressor)
  {
    forall i :: 0 <= i < |entries| ==>
      |entries[i].name| < TWO_31 && |z.compress(entries[i].bytecode)| < TWO_31
  }

  /** `order` enumerates `pak`, whose count and entries fit in ints. */
  predicate Saveable(pak: ShaderPak, order: seq<Name>, z: Compressor)
  {
    && IsEnumeration(order, pak)
    && |pak.shaders| < TWO_31
    && EntriesFit(EntriesOf(pak, order), z)
  }
}

/** The in-memory package: a dictionary from shader name to bytecode with
    upsert semantics. Every loader rebuilds its result through `AddShader`,
    entry by entry, starting from the empty package. */
module ShaderPaks {
  import opened Common

  /** A shader name, already UTF-8 encoded. */
  type Name = seq<byte>

  type Bytecode = seq<byte>

  datatype ShaderPak = ShaderPak(shaders: map<Name, Bytecode>)

  /** One (name, bytecode) pair as a format writes or reads it. */
  datatype Entry = Entry(name: Name, bytecode: Bytecode)

  const Empty: ShaderPak := ShaderPak(map[])

  /** `TryGetShader`: the stored bytecode, if the name is present. */
  function TryGetShader(pak: ShaderPak, name: Name): (r: Option<Bytecode>)
    ensures r.Some? <==> name in pak.shaders
    ensures r.Some? ==> r.value == pak.shaders[name]
  {
    if name in pak.shaders then Some(pak.shaders[name]) else None
  }

  /** `ShaderNames`: the names a lookup succeeds on. */
  function ShaderNames(pak: ShaderPak): (r: set<Name>)
    ensures forall n :: n in r <==> TryGetShader(pak, n).Some?
  {
    pak.shaders.Keys
  }

  /** `AddShader`: afterwards the name finds the new bytecode, every other
      name finds what it found before, and the package grows only when the
      name is new. */
  function AddShader(pak: ShaderPak, name: Name, bytecode: Bytecode): (r: ShaderPak)
    ensures TryGetShader(r, name) == Some(bytecode)
    ensures forall n :: n != name ==> TryGetShader(r, n) == TryGetShader(pak, n)
    ensures ShaderNames(r) == ShaderNames(pak) + {name}
    ensures |r.shaders| == if name in pak.shaders then |pak.shaders| else |pak.shaders| + 1
  {
    ShaderPak(pak.shaders[name := bytecode])
  }

  lemma EmptyFindsNothing(name: Name)
    ensures TryGetShader(Empty, name) == None
    ensures ShaderNames(Empty) == {}
  {
  }

  /** Adding entries one after the other, as every loader does. */
  function AddAll(pak: ShaderPak, entries: seq<Entry>): ShaderPak
    decreases |entries|
  {
    if |entries| == 0 then pak
    else AddAll(AddShader(pak, entries[0].name, entries[0].bytecode), entries[1..])
  }

  /** The first entry is added first, then the rest over it. */
  lemma AddAllUnfold(pak: ShaderPak, entries: seq<Entry>)
    requires |entries| > 0
    ensures AddAll(pak, entries) == AddAll(AddShader(pak, entries[0].name, entries[0].bytecode), entries[1..])
  {
  }

  /** Whether some entry carries `name`. */
  predicate Mentions(entries: seq<Entry>, name: Name)
  {
    exists i :: 0 <= i < |entries| && entries[i].name == name
  }

  /** A name no entry carries keeps what it had: in particular a name never
      added is not found. */
  lemma {:induction false} AddAllUnmentioned(pak: ShaderPak, entries: seq<Entry>, name: Name)
    requires !Mentions(entries, name)
    ensures TryGetShader(AddAll(pak, entries), name) == TryGetShader(pak, name)
    decreases |entries|
  {
    if |entries| > 0 {
      assert entries[0].name != name;
      AddAllUnmentioned(AddShader(pak, entries[0].name, entries[0].bytecode), entries[1..], name);
    }
  }

  /** Later entries win: the bytecode found for a name is that of the last
      entry carrying it. */
  lemma {:induction false} AddAllLastWins(pak: ShaderPak, entries: seq<Entry>, i: nat)
    requires i < |entries|
    requires forall j :: i < j < |entries| ==> entries[j].name != entries[i].name
    ensures TryGetShader(AddAll(pak, entries), entries[i].name) == Some(entries[i].bytecode)
    decreases |entries|
  {
    var next := AddShader(pak, entries[0].name, entries[0].bytecode);
    if i == 0 {
      AddAllUnmentioned(next, entries[1..], entries[0].name);
    } else {
      assert entries[1..][i - 1] == entries[i];
      AddAllLastWins(next, entries[1..], i - 1);
    }
  }

  /** The entries a writer produces from `pak` when its dictionary yields
      the names in `order`. */
  function EntriesOf(pak: ShaderPak, order: seq<Name>): (r: seq<Entry>)
    requires forall i :: 0 <= i < |order| ==> order[i] in pak.shaders
    ensures |r| == |order|
    ensures forall i :: 0 <= i < |order| ==> r[i] == Entry(order[i], pak.shaders[order[i]])
  {
    seq(|order|, i requires 0 <= i < |order| => Entry(order[i], pak.shaders[order[i]]))
  }

  /** `order` is one enumeration of the dictionary: every name exactly once. */
  predicate IsEnumeration(order: seq<Name>, pak: ShaderPak)
  {
    && (forall i, j :: 0 <= i < j < |order| ==> order[i] != order[j])
    && (forall i :: 0 <= i < |order| ==> order[i] in pak.shaders)
    && (forall n :: n in pak.shaders ==> n in order)
  }

  /** An enumeration has as many names as the dictionary has entries. */
  lemma EnumerationCount(order: seq<Name>, pak: ShaderPak)
    requires IsEnumeration(order, pak)
    ensures |order| == |pak.shaders|
  {
    var names := set i | 0 <= i < |order| :: order[i];
    assert names == pak.shaders.Keys;
    DistinctCard(order);
  }

  lemma {:induction false} DistinctCard(order: seq<Name>)
    requires forall i, j :: 0 <= i < j < |order| ==> order[i] != order[j]
    ensures |set i | 0 <= i < |order| :: order[i]| == |order|
  {
    if |order| > 0 {
      var rest := order[..|order| - 1];
      var last := order[|order| - 1];
      DistinctCard(rest);
      var before := set i | 0 <= i < |rest| :: rest[i];
      assert (set i | 0 <= i < |order| :: order[i]) == before + {last};
      assert last !in before;
    }
  }

  /** Re-adding the entries of a package over a package: the names in
      `order` find the source package's bytecode, the others what they found
      before. */
  lemma {:induction false} AddAllEntriesOf(acc: ShaderPak, pak: ShaderPak, order: seq<Name>, n: Name)
    requires forall i :: 0 <= i < |order| ==> order[i] in pak.shaders
    ensures TryGetShader(AddAll(acc, EntriesOf(pak, order)), n) ==
              if n in order then TryGetShader(pak, n) else TryGetShader(acc, n)
    decreases |order|
  {
    if |order| > 0 {
      assert EntriesOf(pak, order)[1..] == EntriesOf(pak, order[1..]);
      var next := AddShader(acc, order[0], pak.shaders[order[0]]);
      AddAllEntriesOf(next, pak, order[1..], n);
      assert n in order <==> n == order[0] || n in order[1..];
    }
  }

  /** Loading what was saved rebuilds the package: adding the entries of an
      enumeration to the empty package gives the package back. */
  lemma RebuildEnumeration(pak: ShaderPak, order: seq<Name>)
    requires IsEnumeration(order, pak)
    ensures AddAll(Empty, EntriesOf(pak, order)) == pak
  {
    var r := AddAll(Empty, EntriesOf(pak, order));
    forall n
      ensures TryGetShader(r, n) == TryGetShader(pak, n)
    {
      AddAllEntriesOf(Empty, pak, order, n);
    }
    assert r.shaders == pak.shaders by {
      assert forall n :: n in r.shaders <==> TryGetShader(r, n).Some?;
    }
  }
}

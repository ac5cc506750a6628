/** A file's types and a schema registry (`apply_schema_registry` of src/io/serialized_file.c): learning
    the types of a file that embeds them, or resolving the bare headers of one that does not. */
module SchemaFile {
  import opened Bytes
  import opened RegistryKeys
  import opened SchemaRegistry
  import opened RegistryStore
  import opened RegistryRecords
  import opened RegistryFormat
  import opened SchemaTransaction

  datatype Provenance = UntrustedInput | PinnedInput | ImportedRegistry

  class SerializedFile {
    const version: u32
    const unity: CString
    const treeEnabled: bool
    var types: seq<Schema>
    var refTypes: seq<Schema>

    constructor (version: u32, unity: CString, treeEnabled: bool, types: seq<Schema>, refTypes: seq<Schema>)
      ensures this.version == version && this.unity == unity && this.treeEnabled == treeEnabled
      ensures this.types == types && this.refTypes == refTypes
    {
      this.version, this.unity, this.treeEnabled := version, unity, treeEnabled;
      this.types, this.refTypes := types, refTypes;
    }
  }

  // ----- What a header asks for -----

  /** The registry holds this schema under the key of the header. */
  predicate Resolves(entries: seq<Entry>, version: u32, unity: CString, header: Schema, schema: Schema) {
    var key := KeyFromType(version, unity, header.typeId, header);
    key.Derived? && Entry(key.key, schema) in entries
  }

  /** The header has a key and the registry an entry under it. */
  predicate Resolvable(entries: seq<Entry>, version: u32, unity: CString, header: Schema) {
    var key := KeyFromType(version, unity, header.typeId, header);
    key.Derived? && Holds(entries, key.key)
  }

  lemma ResolvableHasASchema(entries: seq<Entry>, version: u32, unity: CString, header: Schema)
    ensures Resolvable(entries, version, unity, header)
       <==> exists s {:trigger Resolves(entries, version, unity, header, s)} ::
         Resolves(entries, version, unity, header, s)
  {
    var key := KeyFromType(version, unity, header.typeId, header);
    if Resolvable(entries, version, unity, header) {
      var i :| 0 <= i < |entries| && entries[i].key == key.key;
      assert entries[i] == Entry(key.key, entries[i].schema);
      assert Resolves(entries, version, unity, header, entries[i].schema);
    }
  }

  predicate AllResolvable(entries: seq<Entry>, version: u32, unity: CString, types: seq<Schema>) {
    forall i {:trigger types[i]} :: 0 <= i < |types| ==> Resolvable(entries, version, unity, types[i])
  }

  /** The first `done` headers are replaced by their schemas and the others are as before. */
  predicate Replaced(entries: seq<Entry>, version: u32, unity: CString, types: seq<Schema>, resolved: seq<Schema>,
                     done: nat) {
    && |resolved| == |types|
    && (forall i {:trigger resolved[i]} :: 0 <= i < done && i < |types| ==>
          Resolves(entries, version, unity, types[i], resolved[i]))
    && forall i {:trigger resolved[i]} :: done <= i < |types| ==> resolved[i] == types[i]
  }

  ghost predicate PartlyReplaced(entries: seq<Entry>, version: u32, unity: CString, types: seq<Schema>,
                                 resolved: seq<Schema>) {
    exists done: nat {:trigger Replaced(entries, version, unity, types, resolved, done)} ::
      Replaced(entries, version, unity, types, resolved, done)
  }

  /** `resolve_type_array`: the headers are replaced one after the other, up to the first that has no schema. */
  method ResolveTypes(ctx: Context, registry: Registry, version: u32, unity: CString, types: seq<Schema>)
    returns (ok: bool, resolved: seq<Schema>, ghost done: nat)
    requires registry.Valid(ctx)
    ensures ok == AllResolvable(registry.entries, version, unity, types)
    ensures Replaced(registry.entries, version, unity, types, resolved, done) && done <= |types|
    ensures done < |types| ==> !Resolvable(registry.entries, version, unity, types[done])
    ensures ok ==> done == |types|
  {
    resolved, done := types, 0;
    for i := 0 to |types|
      invariant done == i && Replaced(registry.entries, version, unity, types, resolved, i)
      invariant forall k {:trigger types[k]} :: 0 <= k < i ==> Resolvable(registry.entries, version, unity, types[k])
    {
      var key := KeyFromType(version, unity, resolved[i].typeId, resolved[i]);
      if key.NoKey? {
        return false, resolved, done;
      }
      var status, schema := registry.Lookup(ctx, key.key);
      DerivedKeysAreValid(version, unity, types[i].typeId, types[i]);
      if status != Ok {
        return false, resolved, done;
      }
      assert Resolves(registry.entries, version, unity, types[i], schema.value);
      resolved, done := resolved[i := schema.value], i + 1;
    }
    ok := true;
  }

  // ----- The same in terms of the keys -----

  /** The registry holds this schema under a key that the header derives. */
  ghost predicate ResolvesTo(entries: seq<Entry>, version: u32, unity: seq<byte>, header: Schema, schema: Schema) {
    exists key {:trigger Entry(key, schema)} ::
      KeyDerives(version, unity, header.typeId, header, key) && Entry(key, schema) in entries
  }

  lemma ResolvesExactly(entries: seq<Entry>, version: u32, unity: CString, header: Schema, schema: Schema)
    ensures Resolves(entries, version, unity, header, schema) <==> ResolvesTo(entries, version, unity, header, schema)
  {
    if Resolves(entries, version, unity, header, schema) {
      var key := KeyFromType(version, unity, header.typeId, header).key;
      KeyDerivesExactly(version, unity, header.typeId, header, key);
      assert Entry(key, schema) in entries;
    }
    if key :| KeyDerives(version, unity, header.typeId, header, key) && Entry(key, schema) in entries {
      KeyDerivesExactly(version, unity, header.typeId, header, key);
    }
  }

  /** The header resolves to some schema. */
  ghost predicate HasSchema(entries: seq<Entry>, version: u32, unity: seq<byte>, header: Schema) {
    exists schema {:trigger ResolvesTo(entries, version, unity, header, schema)} ::
      ResolvesTo(entries, version, unity, header, schema)
  }

  ghost predicate AllResolve(entries: seq<Entry>, version: u32, unity: seq<byte>, types: seq<Schema>) {
    forall i {:trigger types[i]} :: 0 <= i < |types| ==> HasSchema(entries, version, unity, types[i])
  }

  lemma HasSchemaExactly(entries: seq<Entry>, version: u32, unity: CString, header: Schema)
    ensures Resolvable(entries, version, unity, header) <==> HasSchema(entries, version, unity, header)
  {
    ResolvableHasASchema(entries, version, unity, header);
    forall schema ensures Resolves(entries, version, unity, header, schema)
                          <==> ResolvesTo(entries, version, unity, header, schema)
    {
      ResolvesExactly(entries, version, unity, header, schema);
    }
  }

  lemma AllResolveExactly(entries: seq<Entry>, version: u32, unity: CString, types: seq<Schema>)
    ensures AllResolvable(entries, version, unity, types) <==> AllResolve(entries, version, unity, types)
  {
    forall i | 0 <= i < |types|
      ensures Resolvable(entries, version, unity, types[i]) <==> HasSchema(entries, version, unity, types[i])
    {
      HasSchemaExactly(entries, version, unity, types[i]);
    }
  }

  /** Each header is replaced by the schema it resolves to. */
  ghost predicate AllCompleted(entries: seq<Entry>, version: u32, unity: seq<byte>, before: seq<Schema>,
                            after: seq<Schema>) {
    && |after| == |before|
    && forall i {:trigger after[i]} :: 0 <= i < |after| ==> ResolvesTo(entries, version, unity, before[i], after[i])
  }

  lemma ReplacedIsCompleted(entries: seq<Entry>, version: u32, unity: CString, before: seq<Schema>,
                            after: seq<Schema>)
    requires Replaced(entries, version, unity, before, after, |after|)
    ensures AllCompleted(entries, version, unity, before, after)
  {
    forall i | 0 <= i < |after| ensures ResolvesTo(entries, version, unity, before[i], after[i]) {
      ResolvesExactly(entries, version, unity, before[i], after[i]);
    }
  }

  // ----- The whole step -----

  /** A file without embedded types is completed from the registry, or is left partly completed. */
  method ResolveFile(ctx: Context, file: SerializedFile, registry: Registry) returns (ok: bool)
    requires registry.Valid(ctx)
    modifies file
    ensures ok <==> old(AllResolvable(registry.entries, file.version, file.unity, file.types)
                        && AllResolvable(registry.entries, file.version, file.unity, file.refTypes))
    ensures ok ==> Replaced(registry.entries, file.version, file.unity, old(file.types), file.types, |file.types|)
    ensures ok ==> Replaced(registry.entries, file.version, file.unity, old(file.refTypes), file.refTypes,
                            |file.refTypes|)
    ensures PartlyReplaced(registry.entries, file.version, file.unity, old(file.types), file.types)
    ensures PartlyReplaced(registry.entries, file.version, file.unity, old(file.refTypes), file.refTypes)
    ensures ok <==> old(AllResolve(registry.entries, file.version, file.unity, file.types)
                        && AllResolve(registry.entries, file.version, file.unity, file.refTypes))
    ensures ok ==>
      && AllCompleted(registry.entries, file.version, file.unity, old(file.types), file.types)
      && AllCompleted(registry.entries, file.version, file.unity, old(file.refTypes), file.refTypes)
  {
    ghost var types := file.types;
    AllResolveExactly(registry.entries, file.version, file.unity, file.types);
    AllResolveExactly(registry.entries, file.version, file.unity, file.refTypes);
    ghost var n, m := 0, 0;
    ghost var refTypes := file.refTypes;
    ok, file.types, n := ResolveTypes(ctx, registry, file.version, file.unity, file.types);
    if ok {
      ok, file.refTypes, m := ResolveTypes(ctx, registry, file.version, file.unity, file.refTypes);
    }
    assert Replaced(registry.entries, file.version, file.unity, refTypes, file.refTypes, m);
    if ok {
      ReplacedIsCompleted(registry.entries, file.version, file.unity, types, file.types);
      ReplacedIsCompleted(registry.entries, file.version, file.unity, refTypes, file.refTypes);
    }
  }

  /** `apply_schema_registry`. */
  method ApplyRegistry(ctx: Context, file: SerializedFile, registry: Registry?, provenance: Provenance,
                       sort: seq<Entry> -> seq<Entry>) returns (ok: bool)
    requires registry != null ==> registry.Valid(ctx)
    requires Sorts(sort)
    modifies file, registry
    ensures registry != null ==> registry.Valid(ctx)
    ensures file.treeEnabled ==> file.types == old(file.types) && file.refTypes == old(file.refTypes)
    ensures !file.treeEnabled && registry == null ==>
      !ok && file.types == old(file.types) && file.refTypes == old(file.refTypes)
    ensures !file.treeEnabled && registry != null ==>
              && registry.entries == old(registry.entries)
              && (ok <==> AllResolvable(registry.entries, file.version, file.unity, old(file.types))
                          && AllResolvable(registry.entries, file.version, file.unity, old(file.refTypes)))
              && (ok ==> Replaced(registry.entries, file.version, file.unity, old(file.types), file.types,
                                  |file.types|))
              && (ok ==> Replaced(registry.entries, file.version, file.unity, old(file.refTypes), file.refTypes,
                                  |file.refTypes|))
              && PartlyReplaced(registry.entries, file.version, file.unity, old(file.types), file.types)
              && PartlyReplaced(registry.entries, file.version, file.unity, old(file.refTypes), file.refTypes)
    ensures file.treeEnabled && (registry == null || provenance == UntrustedInput) ==> ok
    ensures file.treeEnabled && registry != null && provenance == ImportedRegistry ==> !ok
    ensures file.treeEnabled && registry != null && provenance == PinnedInput ==>
              && (ok <==> |FileText(ctx, old(registry.entries))| <= MAX_FILE
                          && FileLearned(ctx, old(registry.entries), file.version, file.unity, file.types,
                                         file.refTypes).Some?)
              && (ok ==> FileLearned(ctx, old(registry.entries), file.version, file.unity, file.types, file.refTypes)
                         == Some(registry.entries))
    ensures registry != null && (!ok || provenance != PinnedInput) ==> registry.entries == old(registry.entries)
    ensures !file.treeEnabled && registry != null ==>
      && (ok <==> AllResolve(registry.entries, file.version, file.unity, old(file.types))
                  && AllResolve(registry.entries, file.version, file.unity, old(file.refTypes)))
      && (ok ==> AllCompleted(registry.entries, file.version, file.unity, old(file.types), file.types)
                 && AllCompleted(registry.entries, file.version, file.unity, old(file.refTypes), file.refTypes))
    ensures file.treeEnabled && registry != null && provenance == PinnedInput ==>
      && (ok <==> Teachable(ctx, old(registry.entries), file.version, file.unity, file.types, file.refTypes))
      && (ok ==> Teaches(ctx, old(registry.entries), file.version, file.unity, file.types, file.refTypes,
                         registry.entries))
  {
    if !file.treeEnabled {
      if registry == null {
        return false;
      }
      ok := ResolveFile(ctx, file, registry);
      return;
    }
    if registry == null || provenance == UntrustedInput {
      return true;
    }
    if provenance != PinnedInput {
      return false;
    }
    ok := ApplySchemas(ctx, registry, file.version, file.unity, file.types, file.refTypes, sort);
  }

  // ----- Learning, then resolving -----

  /** The header that remains of a type without its tree. */
  function Bare(schema: Schema): Schema {
    schema.(nodes := [], strings := [], dependencies := [])
  }

  function BareAll(types: seq<Schema>): (r: seq<Schema>)
    ensures |r| == |types|
  {
    seq(|types|, i requires 0 <= i < |types| => Bare(types[i]))
  }

  /** A file that embeds its types teaches exactly what the bare headers of the same file resolve to. */
  lemma BareFilesResolve(ctx: Context, entries: seq<Entry>, version: u32, unity: CString, types: seq<Schema>,
                         refTypes: seq<Schema>, after: seq<Entry>, resolved: seq<Schema>, refResolved: seq<Schema>)
    requires ValidEntries(ctx, entries) && FileLearned(ctx, entries, version, unity, types, refTypes) == Some(after)
    ensures AllResolvable(after, version, unity, BareAll(types))
      && AllResolvable(after, version, unity, BareAll(refTypes))
    ensures Replaced(after, version, unity, BareAll(types), resolved, |types|) <==> resolved == types
    ensures Replaced(after, version, unity, BareAll(refTypes), refResolved, |refTypes|) <==> refResolved == refTypes
  {
    var middle := LearnOffers(ctx, entries, Offers(version, unity, types)).value;
    LearnAllAdds(ctx, entries, Offers(version, unity, types).value);
    LearnAllAdds(ctx, middle, Offers(version, unity, refTypes).value);
    HeldTypesResolve(version, unity, types, after, resolved);
    HeldTypesResolve(version, unity, refTypes, after, refResolved);
  }

  lemma HeldTypesResolve(version: u32, unity: CString, types: seq<Schema>, after: seq<Entry>, resolved: seq<Schema>)
    requires Sorted(after) && Offers(version, unity, types).Some?
    requires Elements(Offers(version, unity, types).value) <= Elements(after)
    ensures AllResolvable(after, version, unity, BareAll(types))
    ensures Replaced(after, version, unity, BareAll(types), resolved, |types|) <==> resolved == types
  {
    forall i | 0 <= i < |types|
      ensures Resolvable(after, version, unity, BareAll(types)[i])
      ensures forall s :: Resolves(after, version, unity, BareAll(types)[i], s) <==> s == types[i]
    {
      HeldTypeResolves(version, unity, types, after, i);
    }
    if Replaced(after, version, unity, BareAll(types), resolved, |types|) {
      forall i | 0 <= i < |types| ensures resolved[i] == types[i] {
        assert Resolves(after, version, unity, BareAll(types)[i], resolved[i]);
      }
    }
  }

  lemma HeldTypeResolves(version: u32, unity: CString, types: seq<Schema>, after: seq<Entry>, i: nat)
    requires Sorted(after) && Offers(version, unity, types).Some? && i < |types|
    requires Elements(Offers(version, unity, types).value) <= Elements(after)
    ensures Resolvable(after, version, unity, Bare(types[i]))
    ensures forall s :: Resolves(after, version, unity, Bare(types[i]), s) <==> s == types[i]
  {
    var offers := Offers(version, unity, types).value;
    OfferAt(version, unity, types, i);
    var key := offers[i].key;
    assert offers[i] in Elements(offers) && offers[i] in Elements(after);
    assert KeyFromType(version, unity, types[i].typeId, Bare(types[i])) == Derived(key);
    forall s ensures Resolves(after, version, unity, Bare(types[i]), s) <==> s == types[i] {
      OneSchemaUnder(after, key, types[i], s);
    }
    ResolvableHasASchema(after, version, unity, Bare(types[i]));
    assert Resolves(after, version, unity, Bare(types[i]), types[i]);
  }

  lemma OneSchemaUnder(entries: seq<Entry>, key: Key, known: Schema, schema: Schema)
    requires Sorted(entries) && Entry(key, known) in entries
    ensures Entry(key, schema) in entries <==> schema == known
  {
    if Entry(key, schema) in entries {
      SortedKeysAreDistinct(entries, Entry(key, known), Entry(key, schema));
    }
  }

  lemma {:induction false} OfferAt(fileVersion: u32, unity: CString, types: seq<Schema>, i: nat)
    requires Offers(fileVersion, unity, types).Some? && i < |types|
    ensures i < |Offers(fileVersion, unity, types).value|
    ensures var e := Offers(fileVersion, unity, types).value[i];
            e.schema == types[i] && KeyFromType(fileVersion, unity, types[i].typeId, types[i]) == Derived(e.key)
  {
    if i > 0 {
      OfferAt(fileVersion, unity, types[1..], i - 1);
    }
  }
}

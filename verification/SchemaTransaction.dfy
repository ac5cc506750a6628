/** Learning a file's types all-or-nothing through a cloned registry (src/io/serialized_file.c). */
module SchemaTransaction {
  import opened Bytes
  import opened RegistryKeys
  import opened SchemaRegistry
  import opened RegistryStore
  import opened RegistryRecords
  import opened RegistryFormat
  import opened RegistryAdmission
  import RegistryLayout
  import RegistryLoad
  import MetadataReader

  /** The two engine versions whose physical type prefix is known exactly. */
  predicate IsExactVersion(fileVersion: u32, unity: CString) {
    fileVersion == 22 && (unity == Ascii("2021.3.35f1") || unity == Ascii("2021.3.29f1"))
  }

  /** Whether a type carries a script hash; None for the one prefix outside the exact grammar. */
  function HasScriptHash(fileVersion: u32, unity: CString, schema: Schema): Option<bool> {
    if IsExactVersion(fileVersion, unity) then
      MetadataReader.HashShape(Unsigned32(schema.typeId), schema.scriptIndex)
    else
      Some((fileVersion < 17 && schema.typeId < 0)
           || (fileVersion >= 17 && schema.typeId == MetadataReader.MONO_BEHAVIOUR)
           || (schema.refType && schema.scriptIndex != 0xFFFF))
  }

  datatype KeyResult = Derived(key: Key) | NoKey(status: Status)

  /** `typetree_schema_key_from_type`. */
  function KeyFromType(fileVersion: u32, unity: CString, classId: i32, schema: Schema): KeyResult {
    if |unity| == 0 || |unity| > MAX_UNITY_VERSION then NoKey(InvalidArgument)
    else
      match HasScriptHash(fileVersion, unity, schema)
      case None => NoKey(InvalidSchema)
      case Some(has) =>
        Derived(Key(fileVersion, unity, classId, schema.typeId, schema.scriptIndex, has, schema.stripped,
                    schema.refType, if has then schema.scriptHash else seq(HASH_SIZE, _ => 0), schema.typeHash))
  }

  /** A derived key is always a valid one. */
  lemma DerivedKeysAreValid(fileVersion: u32, unity: CString, classId: i32, schema: Schema)
    ensures KeyFromType(fileVersion, unity, classId, schema).Derived? ==>
              CheckKey(KeyFromType(fileVersion, unity, classId, schema).key) == Ok
  {
  }

  // ----- The key of a type, in numbers -----

  /** File version 22 of Unity "2021.3.35f1" or "2021.3.29f1". */
  predicate PrefixKnown(fileVersion: u32, unity: seq<byte>) {
    fileVersion == 22 && (unity == [50, 48, 50, 49, 46, 51, 46, 51, 53, 102, 49]
                          || unity == [50, 48, 50, 49, 46, 51, 46, 50, 57, 102, 49])
  }

  /** A version of 1 to 1024 bytes; and where the prefix is known exactly, no class -1 with a negative script index. */
  predicate HasKey(fileVersion: u32, unity: seq<byte>, schema: Schema) {
    && 1 <= |unity| <= 1024
    && (PrefixKnown(fileVersion, unity) ==> !(schema.typeId == -1 && schema.scriptIndex >= 0x8000))
  }

  /** Whether a script hash belongs to the key. Where the prefix is not known exactly, up to file version 16 a negative
      class has one, from 17 on class 114 has, and so has every reference type with a script index. */
  predicate HashBelongs(fileVersion: u32, unity: seq<byte>, schema: Schema) {
    if PrefixKnown(fileVersion, unity) then schema.typeId == 114 || schema.scriptIndex < 0x8000
    else
      || (if fileVersion < 17 then schema.typeId < 0 else schema.typeId == 114)
      || (schema.refType && schema.scriptIndex != 0xFFFF)
  }

  predicate KeyDerives(fileVersion: u32, unity: seq<byte>, classId: i32, schema: Schema, key: Key) {
    && HasKey(fileVersion, unity, schema)
    && key.fileVersion == fileVersion && key.unity == unity && key.classId == classId && key.typeId == schema.typeId
    && key.scriptIndex == schema.scriptIndex && key.stripped == schema.stripped && key.refType == schema.refType
    && key.typeHash == schema.typeHash && (key.hasScriptHash <==> HashBelongs(fileVersion, unity, schema))
    && if key.hasScriptHash then key.scriptHash == schema.scriptHash
       else forall i {:trigger key.scriptHash[i]} :: 0 <= i < 16 ==> key.scriptHash[i] == 0
  }

  lemma VersionsAreSpelled()
    ensures Ascii("2021.3.35f1") == [50, 48, 50, 49, 46, 51, 46, 51, 53, 102, 49]
    ensures Ascii("2021.3.29f1") == [50, 48, 50, 49, 46, 51, 46, 50, 57, 102, 49]
  {
  }

  lemma HashBelongsExactly(fileVersion: u32, unity: CString, schema: Schema)
    ensures HasScriptHash(fileVersion, unity, schema)
            == if PrefixKnown(fileVersion, unity) && schema.typeId == -1 && schema.scriptIndex >= 0x8000 then None
               else Some(HashBelongs(fileVersion, unity, schema))
  {
    VersionsAreSpelled();
  }

  /** A key is derived exactly as it is described. */
  lemma KeyDerivesExactly(fileVersion: u32, unity: CString, classId: i32, schema: Schema, key: Key)
    ensures KeyFromType(fileVersion, unity, classId, schema) == Derived(key)
            <==> KeyDerives(fileVersion, unity, classId, schema, key)
  {
    HashBelongsExactly(fileVersion, unity, schema);
    assert key.scriptHash == seq(16, _ => 0) <==> forall i {:trigger key.scriptHash[i]} :: 0 <= i < 16 ==>
                                                    key.scriptHash[i] == 0;
  }

  lemma KeyIsDerived(fileVersion: u32, unity: CString, classId: i32, schema: Schema)
    ensures KeyFromType(fileVersion, unity, classId, schema).Derived? <==> HasKey(fileVersion, unity, schema)
  {
    HashBelongsExactly(fileVersion, unity, schema);
  }

  /** The entries a list of types offers. */
  function Offers(fileVersion: u32, unity: CString, types: seq<Schema>): Option<seq<Entry>> {
    if types == [] then Some([])
    else
      match (KeyFromType(fileVersion, unity, types[0].typeId, types[0]), Offers(fileVersion, unity, types[1..]))
      case (Derived(key), Some(rest)) => Some([Entry(key, types[0])] + rest)
      case _ => None
  }

  function LearnOffers(ctx: Context, entries: seq<Entry>, offers: Option<seq<Entry>>): Option<seq<Entry>> {
    if offers.None? then None else LearnAll(ctx, entries, offers.value)
  }

  lemma OffersStep(ctx: Context, entries: seq<Entry>, fileVersion: u32, unity: CString, types: seq<Schema>, i: nat)
    requires i < |types|
    ensures var key, offers :=
      KeyFromType(fileVersion, unity, types[i].typeId, types[i]), Offers(fileVersion, unity, types[i..]);
            LearnOffers(ctx, entries, offers)
            == if key.NoKey? || LearnStatus(ctx, entries, key.key, types[i]) != Ok then None
               else LearnOffers(ctx, Learned(ctx, entries, key.key, types[i]),
                                Offers(fileVersion, unity, types[i + 1..]))
  {
    assert types[i..][1..] == types[i + 1..];
    var key := KeyFromType(fileVersion, unity, types[i].typeId, types[i]);
    var rest := Offers(fileVersion, unity, types[i + 1..]);
    if key.Derived? && rest.Some? {
      var offers := Offers(fileVersion, unity, types[i..]).value;
      assert offers[0] == Entry(key.key, types[i]) && offers[1..] == rest.value;
    }
  }

  /** `learn_type_array`: on failure the registry may hold the types learned so far. */
  method LearnTypes(ctx: Context, registry: Registry, fileVersion: u32, unity: CString, types: seq<Schema>)
    returns (ok: bool)
    requires registry.Valid(ctx)
    modifies registry
    ensures registry.Valid(ctx)
    ensures ok == LearnOffers(ctx, old(registry.entries), Offers(fileVersion, unity, types)).Some?
    ensures ok ==> LearnOffers(ctx, old(registry.entries), Offers(fileVersion, unity, types)) == Some(registry.entries)
  {
    ghost var whole := LearnOffers(ctx, registry.entries, Offers(fileVersion, unity, types));
    assert types[0..] == types;
    for i := 0 to |types|
      invariant registry.Valid(ctx)
        && whole == LearnOffers(ctx, registry.entries, Offers(fileVersion, unity, types[i..]))
    {
      OffersStep(ctx, registry.entries, fileVersion, unity, types, i);
      var key := KeyFromType(fileVersion, unity, types[i].typeId, types[i]);
      if key.NoKey? {
        return false;
      }
      var status := registry.Learn(ctx, key.key, types[i], true);
      if status != Ok {
        return false;
      }
    }
    ok := true;
  }

  /** Serialising a valid registry, where only the size of the file is in question. */
  method PrintRegistry(ctx: Context, source: Registry, sort: seq<Entry> -> seq<Entry>)
    returns (status: Status, file: seq<byte>)
    requires source.Valid(ctx) && Sorts(sort)
    ensures status == if |FileText(ctx, source.entries)| <= MAX_FILE then Ok else LimitExceeded
    ensures status == Ok ==> DecodeFile(ctx, file) == Loaded(source.entries)
  {
    RegistryLoad.ValidRegistriesSerialize(ctx, source.entries, source.capacity, sort(source.entries));
    status, file := RegistryLoad.Serialize(ctx, source, sort);
  }

  /** `clone_schema_registry`: print, then parse. */
  method CloneRegistry(ctx: Context, source: Registry, sort: seq<Entry> -> seq<Entry>)
    returns (status: Status, clone: Registry)
    requires source.Valid(ctx) && Sorts(sort)
    ensures fresh(clone) && clone.Valid(ctx)
    ensures status == if |FileText(ctx, source.entries)| <= MAX_FILE then Ok else LimitExceeded
    ensures status == Ok ==> clone.entries == source.entries
  {
    var file;
    status, file := PrintRegistry(ctx, source, sort);
    if status != Ok {
      clone := new Registry();
      return;
    }
    status, clone := LoadFresh(ctx, file);
  }

  /** Parsing into an empty registry. */
  method LoadFresh(ctx: Context, file: seq<byte>) returns (status: Status, loaded: Registry)
    ensures fresh(loaded) && loaded.Valid(ctx)
    ensures match DecodeFile(ctx, file)
            case Loaded(entries) => status == Ok && loaded.entries == entries
            case Refused(reason) => status == reason && status != Ok
  {
    loaded := new Registry();
    status := RegistryLoad.DeserializeReplace(ctx, loaded, file);
  }

  /** What learning the types and then the reference types of a file makes of a registry. */
  function FileLearned(ctx: Context, entries: seq<Entry>, fileVersion: u32, unity: CString, types: seq<Schema>,
                       refTypes: seq<Schema>): Option<seq<Entry>>
  {
    match LearnOffers(ctx, entries, Offers(fileVersion, unity, types))
    case None => None
    case Some(middle) => LearnOffers(ctx, middle, Offers(fileVersion, unity, refTypes))
  }

  // ----- What a file teaches, as a set -----

  /** The entry is a type of the list under its own key. */
  ghost predicate Offered(fileVersion: u32, unity: seq<byte>, types: seq<Schema>, e: Entry) {
    exists i {:trigger types[i]} ::
      0 <= i < |types| && e.schema == types[i] && KeyDerives(fileVersion, unity, types[i].typeId, types[i], e.key)
  }

  predicate AllHaveKeys(fileVersion: u32, unity: seq<byte>, types: seq<Schema>) {
    forall i {:trigger types[i]} :: 0 <= i < |types| ==> HasKey(fileVersion, unity, types[i])
  }

  /** A registry that holds what it held and every type of the file, and nothing else. */
  ghost predicate Teaches(ctx: Context, entries: seq<Entry>, fileVersion: u32, unity: seq<byte>, types: seq<Schema>,
                          refTypes: seq<Schema>, after: seq<Entry>) {
    var teaches :=
      && AllHaveKeys(fileVersion, unity, types) && AllHaveKeys(fileVersion, unity, refTypes) && RegistryFits(ctx, after)
      && forall e {:trigger e in after} :: e in after <==>
           || e in entries || Offered(fileVersion, unity, types, e) || Offered(fileVersion, unity, refTypes, e);
    teaches
  }

  /** The file can be learned: the registry can be copied through a file of at most 512 MiB, and there is a registry
      with what the file teaches. */
  ghost predicate Teachable(ctx: Context, entries: seq<Entry>, fileVersion: u32, unity: seq<byte>, types: seq<Schema>,
                            refTypes: seq<Schema>) {
    var teachable :=
      && |RegistryLayout.FileSpelled(ctx.digest, entries)| <= 536870912
      && exists after {:trigger RegistryFits(ctx, after)} ::
           Teaches(ctx, entries, fileVersion, unity, types, refTypes, after);
    teachable
  }

  lemma {:induction false} OffersAreOffered(fileVersion: u32, unity: CString, types: seq<Schema>)
    ensures Offers(fileVersion, unity, types).Some? <==> AllHaveKeys(fileVersion, unity, types)
    ensures Offers(fileVersion, unity, types).Some? ==>
      forall e :: e in Offers(fileVersion, unity, types).value <==> Offered(fileVersion, unity, types, e)
  {
    if types != [] {
      var t, rest := types[0], types[1..];
      OffersAreOffered(fileVersion, unity, rest);
      var key := KeyFromType(fileVersion, unity, t.typeId, t);
      assert forall i {:trigger types[i]} :: 0 < i < |types| ==> types[i] == rest[i - 1];
      KeyIsDerived(fileVersion, unity, t.typeId, t);
      AllHaveKeysCons(fileVersion, unity, types);
      if Offers(fileVersion, unity, types).Some? {
        forall e ensures e in Offers(fileVersion, unity, types).value <==> Offered(fileVersion, unity, types, e) {
          KeyDerivesExactly(fileVersion, unity, t.typeId, t, e.key);
          OfferedCons(fileVersion, unity, types, e);
        }
      }
    }
  }

  lemma AllHaveKeysCons(fileVersion: u32, unity: seq<byte>, types: seq<Schema>)
    requires types != []
    ensures AllHaveKeys(fileVersion, unity, types)
            <==> HasKey(fileVersion, unity, types[0]) && AllHaveKeys(fileVersion, unity, types[1..])
  {
    if HasKey(fileVersion, unity, types[0]) && AllHaveKeys(fileVersion, unity, types[1..]) {
      forall i | 0 <= i < |types| ensures HasKey(fileVersion, unity, types[i]) {
        assert i > 0 ==> types[i] == types[1..][i - 1];
      }
    }
    if AllHaveKeys(fileVersion, unity, types) {
      forall i | 0 <= i < |types| - 1 ensures HasKey(fileVersion, unity, types[1..][i]) {
        assert types[1..][i] == types[i + 1];
      }
    }
  }

  lemma OfferedCons(fileVersion: u32, unity: seq<byte>, types: seq<Schema>, e: Entry)
    requires types != []
    ensures Offered(fileVersion, unity, types, e)
            <==> || (e.schema == types[0] && KeyDerives(fileVersion, unity, types[0].typeId, types[0], e.key))
                 || Offered(fileVersion, unity, types[1..], e)
  {
    var rest := types[1..];
    if i :| 0 <= i < |types| && e.schema == types[i]
            && KeyDerives(fileVersion, unity, types[i].typeId, types[i], e.key)
    {
      assert i > 0 ==> types[i] == rest[i - 1];
    }
    if i :| 0 <= i < |rest| && e.schema == rest[i] && KeyDerives(fileVersion, unity, rest[i].typeId, rest[i], e.key) {
      assert rest[i] == types[i + 1];
    }
  }

  /** Learning a file succeeds exactly when the union of the registry and the file is a registry, and gives that
      registry. */
  lemma FileTeachesExactly(ctx: Context, entries: seq<Entry>, fileVersion: u32, unity: CString, types: seq<Schema>,
                           refTypes: seq<Schema>, after: seq<Entry>)
    requires ValidEntries(ctx, entries)
    ensures FileLearned(ctx, entries, fileVersion, unity, types, refTypes) == Some(after)
            <==> Teaches(ctx, entries, fileVersion, unity, types, refTypes, after)
  {
    OffersAreOffered(fileVersion, unity, types);
    OffersAreOffered(fileVersion, unity, refTypes);
    RegistryFitsExactly(ctx, after);
    var a, b := Offers(fileVersion, unity, types), Offers(fileVersion, unity, refTypes);
    if a.Some? && b.Some? {
      LearnAllAppends(ctx, entries, a.value, b.value);
      UnionIsLearned(ctx, entries, a.value + b.value, after);
      forall e ensures e in a.value + b.value <==>
                         Offered(fileVersion, unity, types, e) || Offered(fileVersion, unity, refTypes, e)
      {
      }
    }
  }

  lemma FileTeaches(ctx: Context, entries: seq<Entry>, fileVersion: u32, unity: CString, types: seq<Schema>,
                    refTypes: seq<Schema>)
    requires ValidEntries(ctx, entries)
    ensures var learned := FileLearned(ctx, entries, fileVersion, unity, types, refTypes);
            && (|FileText(ctx, entries)| <= MAX_FILE && learned.Some?
                <==> Teachable(ctx, entries, fileVersion, unity, types, refTypes))
            && (learned.Some? ==> Teaches(ctx, entries, fileVersion, unity, types, refTypes, learned.value))
  {
    RegistryLayout.FileIsSpelled(ctx, entries);
    var learned := FileLearned(ctx, entries, fileVersion, unity, types, refTypes);
    if learned.Some? {
      FileTeachesExactly(ctx, entries, fileVersion, unity, types, refTypes, learned.value);
      assert RegistryFits(ctx, learned.value);
    } else if Teachable(ctx, entries, fileVersion, unity, types, refTypes) {
      var after :| RegistryFits(ctx, after) && Teaches(ctx, entries, fileVersion, unity, types, refTypes, after);
      FileTeachesExactly(ctx, entries, fileVersion, unity, types, refTypes, after);
    }
  }

  /** All offers are learned exactly when their union with the registry is a valid registry. */
  lemma UnionIsLearned(ctx: Context, entries: seq<Entry>, offers: seq<Entry>, after: seq<Entry>)
    requires ValidEntries(ctx, entries)
    ensures LearnAll(ctx, entries, offers) == Some(after)
            <==> ValidEntries(ctx, after) && forall e :: e in after <==> e in entries || e in offers
  {
    if LearnAll(ctx, entries, offers) == Some(after) {
      LearnAllAdds(ctx, entries, offers);
      forall e ensures e in after <==> e in entries || e in offers {
        assert e in after <==> e in Elements(after);
        assert e in entries <==> e in Elements(entries);
        assert e in offers <==> e in Elements(offers);
      }
    }
    if ValidEntries(ctx, after) && forall e :: e in after <==> e in entries || e in offers {
      assert Elements(after) == Elements(entries) + Elements(offers);
      OffersOfAValidRegistry(ctx, entries, offers, after);
      LearnAllAdds(ctx, entries, offers);
      SortedIsCanonical(after, LearnAll(ctx, entries, offers).value);
    }
  }

  /** Learning through a clone: the clone takes the types, and the registry takes the clone if it took them all. */
  method LearnFile(ctx: Context, registry: Registry, fileVersion: u32, unity: CString, types: seq<Schema>,
                   refTypes: seq<Schema>, sort: seq<Entry> -> seq<Entry>) returns (ok: bool)
    requires registry.Valid(ctx) && Sorts(sort)
    modifies registry
    ensures registry.Valid(ctx)
    ensures ok <==> |FileText(ctx, old(registry.entries))| <= MAX_FILE
                    && FileLearned(ctx, old(registry.entries), fileVersion, unity, types, refTypes).Some?
    ensures ok ==>
      FileLearned(ctx, old(registry.entries), fileVersion, unity, types, refTypes) == Some(registry.entries)
    ensures !ok ==> registry.entries == old(registry.entries)
  {
    var status, transaction := CloneRegistry(ctx, registry, sort);
    if status != Ok {
      return false;
    }
    ok := LearnTypes(ctx, transaction, fileVersion, unity, types);
    if ok {
      ok := LearnTypes(ctx, transaction, fileVersion, unity, refTypes);
    }
    if ok {
      registry.entries, registry.capacity := transaction.entries, transaction.capacity;
    }
  }

  /** The learning half of `apply_schema_registry`: every type of the file is learned, or the caller's
      registry is untouched. */
  method ApplySchemas(ctx: Context, registry: Registry, fileVersion: u32, unity: CString, types: seq<Schema>,
                      refTypes: seq<Schema>, sort: seq<Entry> -> seq<Entry>) returns (ok: bool)
    requires registry.Valid(ctx) && Sorts(sort)
    modifies registry
    ensures registry.Valid(ctx)
    ensures ok <==> |FileText(ctx, old(registry.entries))| <= MAX_FILE
                    && FileLearned(ctx, old(registry.entries), fileVersion, unity, types, refTypes).Some?
    ensures ok ==>
      FileLearned(ctx, old(registry.entries), fileVersion, unity, types, refTypes) == Some(registry.entries)
    ensures !ok ==> registry.entries == old(registry.entries)
    ensures ok <==> Teachable(ctx, old(registry.entries), fileVersion, unity, types, refTypes)
    ensures ok ==> Teaches(ctx, old(registry.entries), fileVersion, unity, types, refTypes, registry.entries)
  {
    FileTeaches(ctx, registry.entries, fileVersion, unity, types, refTypes);
    ok := LearnFile(ctx, registry, fileVersion, unity, types, refTypes, sort);
  }

  lemma {:induction false} LearnAllAppends(ctx: Context, entries: seq<Entry>, a: seq<Entry>, b: seq<Entry>)
    ensures LearnAll(ctx, entries, a + b)
         == match LearnAll(ctx, entries, a) case None => None case Some(middle) => LearnAll(ctx, middle, b)
    decreases |a|
  {
    if a == [] {
      assert a + b == b;
    } else {
      assert (a + b)[0] == a[0] && (a + b)[1..] == a[1..] + b;
      if LearnStatus(ctx, entries, a[0].key, a[0].schema) == Ok {
        LearnAllAppends(ctx, Learned(ctx, entries, a[0].key, a[0].schema), a[1..], b);
      }
    }
  }

  /** Two files that offer the same schemas, in whatever order and however split between types and
      reference types, teach a registry the same. */
  lemma FilesWithTheSameSchemas(ctx: Context, entries: seq<Entry>, fileVersion: u32, unity: CString, types: seq<Schema>,
                                refTypes: seq<Schema>, types': seq<Schema>, refTypes': seq<Schema>)
    requires ValidEntries(ctx, entries) && FileLearned(ctx, entries, fileVersion, unity, types, refTypes).Some?
    requires Offers(fileVersion, unity, types').Some? && Offers(fileVersion, unity, refTypes').Some?
    requires Elements(Offers(fileVersion, unity, types).value) + Elements(Offers(fileVersion, unity, refTypes).value)
          == Elements(Offers(fileVersion, unity, types').value) + Elements(Offers(fileVersion, unity, refTypes').value)
    ensures FileLearned(ctx, entries, fileVersion, unity, types', refTypes')
         == FileLearned(ctx, entries, fileVersion, unity, types, refTypes)
  {
    var a, b := Offers(fileVersion, unity, types).value, Offers(fileVersion, unity, refTypes).value;
    var c, d := Offers(fileVersion, unity, types').value, Offers(fileVersion, unity, refTypes').value;
    LearnAllAppends(ctx, entries, a, b);
    LearnAllAppends(ctx, entries, c, d);
    assert Elements(a + b) == Elements(a) + Elements(b) && Elements(c + d) == Elements(c) + Elements(d);
    InsertionOrderIsIrrelevant(ctx, entries, a + b, c + d);
  }
}

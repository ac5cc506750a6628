/** What a schema registry may hold, in numbers and in terms of the string tables, against the checks of
    src/io/typetree_schema_registry.c. */
module RegistryAdmission {
  import opened Bytes
  import opened RegistryKeys
  import opened SchemaRegistry
  import SchemaNames
  import SchemaWire
  import TypeTreeSchema

  /** A version of 1 to 1024 bytes without NUL, and sixteen zeros in place of an absent script hash. */
  predicate KeyFits(key: Key) {
    && 1 <= |key.unity| <= 1024 && 0 !in key.unity
    && (!key.hasScriptHash ==> forall i {:trigger key.scriptHash[i]} :: 0 <= i < 16 ==> key.scriptHash[i] == 0)
  }

  /** The name stands where the offset word points: the high bit selects the common table. */
  predicate NameStands(ctx: Context, local: seq<byte>, word: u32, name: seq<byte>) {
    if word < 0x8000_0000 then SchemaWire.StandsAt(local, word, name)
    else SchemaWire.StandsAt(ctx.common, word - 0x8000_0000, name)
  }

  predicate NodesStand(ctx: Context, schema: Schema) {
    forall i {:trigger schema.nodes[i]} :: 0 <= i < |schema.nodes| ==>
      && NameStands(ctx, schema.strings, schema.nodes[i].typeOffset, schema.nodes[i].typeName)
      && NameStands(ctx, schema.strings, schema.nodes[i].nameOffset, schema.nodes[i].name)
  }

  /** A reference type has three names of at most 1 MiB, and any other type has none. */
  predicate NamesFit(schema: Schema) {
    if schema.refType
    then
      && schema.className.Some? && |schema.className.value| <= 1048576
      && schema.nameSpace.Some? && |schema.nameSpace.value| <= 1048576
      && schema.assembly.Some? && |schema.assembly.value| <= 1048576
    else schema.className == None && schema.nameSpace == None && schema.assembly == None
  }

  /** A schema that may stand under a key: it repeats the key's fields, it has 1 to 1048576 nodes in the grammar, with
      their names in the tables, at most 256 MiB of strings and 1048576 dependencies, and dependencies only from file
      version 21 on and not for a reference type. */
  predicate SchemaFits(ctx: Context, key: Key, schema: Schema) {
    && schema.typeId == key.typeId && schema.scriptIndex == key.scriptIndex && schema.stripped == key.stripped
    && schema.refType == key.refType && schema.typeHash == key.typeHash && schema.scriptHash == key.scriptHash
    && 1 <= |schema.nodes| <= 1048576 && |schema.strings| <= 268435456 && |schema.dependencies| <= 1048576
    && (schema.dependencies != [] ==> key.fileVersion >= 21 && !schema.refType)
    && NamesFit(schema) && TypeTreeSchema.ValidSchema(schema.nodes) && NodesStand(ctx, schema)
    && ctx.profileAdmits(key, schema)
  }

  predicate EntryFits(ctx: Context, e: Entry) {
    KeyFits(e.key) && SchemaFits(ctx, e.key, e.schema)
  }

  /** At most 65536 entries in the order of their keys. */
  ghost predicate RegistryFits(ctx: Context, entries: seq<Entry>) {
    && KeysAscend(entries) && |entries| <= 65536
    && forall i {:trigger entries[i]} :: 0 <= i < |entries| ==> EntryFits(ctx, entries[i])
  }

  // ----- The checks decide exactly that -----

  lemma KeyFitsExactly(key: Key)
    ensures CheckKey(key) == Ok <==> KeyFits(key)
  {
    assert key.scriptHash == seq(16, _ => 0) <==> forall i {:trigger key.scriptHash[i]} :: 0 <= i < 16 ==>
                                                    key.scriptHash[i] == 0;
  }

  lemma NameStandsExactly(ctx: Context, local: seq<byte>, word: u32, name: seq<byte>)
    ensures SchemaNames.Resolve(local, ctx.common, word) == Some(name) <==> NameStands(ctx, local, word, name)
  {
    if word < 0x8000_0000 {
      TextStandsExactly(local, word, name);
    } else {
      TextStandsExactly(ctx.common, word - 0x8000_0000, name);
    }
  }

  lemma TextStandsExactly(table: seq<byte>, offset: nat, text: seq<byte>)
    ensures SchemaNames.ResolveInTable(table, offset) == Some(text) <==> SchemaWire.StandsAt(table, offset, text)
  {
    if SchemaNames.ResolveInTable(table, offset) == Some(text) {
      SchemaWire.ResolvedStands(table, offset);
    }
    if SchemaWire.StandsAt(table, offset, text) {
      SchemaWire.StandingResolves(table, offset, text);
    }
  }

  lemma NodesStandExactly(ctx: Context, schema: Schema)
    ensures NodesAreBound(ctx, schema) <==> NodesStand(ctx, schema)
  {
    forall i | 0 <= i < |schema.nodes|
      ensures NodeIsBound(ctx, schema.strings, schema.nodes[i]) <==>
                && NameStands(ctx, schema.strings, schema.nodes[i].typeOffset, schema.nodes[i].typeName)
                && NameStands(ctx, schema.strings, schema.nodes[i].nameOffset, schema.nodes[i].name)
    {
      NameStandsExactly(ctx, schema.strings, schema.nodes[i].typeOffset, schema.nodes[i].typeName);
      NameStandsExactly(ctx, schema.strings, schema.nodes[i].nameOffset, schema.nodes[i].name);
    }
  }

  lemma EntryFitsExactly(ctx: Context, e: Entry)
    ensures CheckSchema(ctx, e.key, e.schema) == Ok <==> EntryFits(ctx, e)
  {
    KeyFitsExactly(e.key);
    NodesStandExactly(ctx, e.schema);
  }

  /** The valid registries are those that fit. */
  lemma RegistryFitsExactly(ctx: Context, entries: seq<Entry>)
    ensures ValidEntries(ctx, entries) <==> RegistryFits(ctx, entries)
  {
    SortedKeysAscend(entries);
    forall i | 0 <= i < |entries|
      ensures CheckSchema(ctx, entries[i].key, entries[i].schema) == Ok <==> EntryFits(ctx, entries[i])
    {
      EntryFitsExactly(ctx, entries[i]);
    }
  }

  /** No entry under the key and room for one, or this very entry. */
  predicate HasPlace(entries: seq<Entry>, e: Entry) {
    || e in entries
    || (|entries| < 65536 && forall i {:trigger entries[i]} :: 0 <= i < |entries| ==> entries[i].key != e.key)
  }

  /** A schema is learned exactly when it fits and has a place, and the registry then holds it besides what it held. */
  lemma LearnsExactly(ctx: Context, entries: seq<Entry>, e: Entry)
    requires ValidEntries(ctx, entries)
    ensures LearnStatus(ctx, entries, e.key, e.schema) == Ok <==> EntryFits(ctx, e) && HasPlace(entries, e)
    ensures RegistryFits(ctx, Learned(ctx, entries, e.key, e.schema))
    ensures LearnStatus(ctx, entries, e.key, e.schema) == Ok ==>
      forall x :: x in Learned(ctx, entries, e.key, e.schema) <==> x in entries || x == e
  {
    EntryFitsExactly(ctx, e);
    LearningKeepsValidity(ctx, entries, e.key, e.schema);
    var learned := Learned(ctx, entries, e.key, e.schema);
    RegistryFitsExactly(ctx, learned);
    if LearnStatus(ctx, entries, e.key, e.schema) == Ok {
      assert Elements(learned) == Elements(entries) + {e};
      forall x ensures x in learned <==> x in entries || x == e {
        assert x in learned <==> x in Elements(learned);
        assert x in entries <==> x in Elements(entries);
      }
    }
  }
}

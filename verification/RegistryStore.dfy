/** The registry object: its growing entry list, learning and lookup
    (src/io/typetree_schema_registry.c). */
module RegistryStore {
  import opened Bytes
  import opened RegistryKeys
  import opened SchemaRegistry
  import opened RegistryAdmission

  const FIRST_CAPACITY: nat := 8

  class Registry {
    var entries: seq<Entry>
    var capacity: nat

    ghost predicate Valid(ctx: Context)
      reads this
    {
      ValidEntries(ctx, entries) && |entries| <= capacity <= MAX_ENTRIES
    }

    constructor ()
      ensures entries == [] && capacity == 0
    {
      entries, capacity := [], 0;
    }

    /** `registry_reserve`: double from eight, but never beyond the entry limit. */
    method Reserve(required: nat) returns (ok: bool)
      requires capacity <= MAX_ENTRIES
      modifies this`capacity
      ensures ok == (required <= MAX_ENTRIES)
      ensures old(capacity) <= capacity <= MAX_ENTRIES && (ok ==> required <= capacity)
      ensures !ok ==> capacity == old(capacity)
    {
      if required > MAX_ENTRIES {
        return false;
      }
      if required > capacity {
        var next := if capacity == 0 then FIRST_CAPACITY else capacity;
        while next < required
          invariant 0 < next && capacity <= next <= MAX_ENTRIES
          decreases required - next
        {
          if next > MAX_ENTRIES / 2 {
            next := MAX_ENTRIES;
          } else {
            next := next * 2;
          }
        }
        capacity := next;
      }
      ok := true;
    }

    /** The first entry with this key. */
    method Find(key: Key) returns (found: bool, index: nat)
      ensures found == Holds(entries, key)
      ensures found ==> index < |entries| && entries[index].key == key
    {
      index := 0;
      while index < |entries|
        invariant index <= |entries| && forall i {:trigger entries[i]} :: 0 <= i < index ==> entries[i].key != key
      {
        KeysTotal(entries[index].key, key);
        if CompareKeys(entries[index].key, key) == 0 {
          return true, index;
        }
        index := index + 1;
      }
      found := false;
    }

    /** Shift the entries above the key by one and put the new entry in the gap. */
    method InsertInOrder(e: Entry)
      requires |entries| < capacity
      modifies this`entries
      ensures entries == Insert(old(entries), e)
    {
      var index := 0;
      ghost var before := entries;
      ghost var whole := Insert(before, e);
      while index < |entries| && CompareKeys(entries[index].key, e.key) <= 0
        invariant 0 <= index <= |entries| && entries == before
        invariant whole == before[..index] + Insert(before[index..], e)
      {
        InsertStep(before, index, e);
        index := index + 1;
      }
      assert Insert(before[index..], e) == [e] + before[index..];
      entries := entries[..index] + [e] + entries[index..];
    }

    /** `typetree_schema_registry_learn`: an equal schema is already known, a different schema under the
        same key is a conflict, and a refusal leaves the registry as it was. */
    method Learn(ctx: Context, key: Key, schema: Schema, memory: bool) returns (status: Status)
      requires Valid(ctx)
      modifies this
      ensures Valid(ctx)
      ensures memory ==> status == LearnStatus(ctx, old(entries), key, schema)
      ensures memory ==> entries == Learned(ctx, old(entries), key, schema)
      ensures status == Ok ==> entries == Learned(ctx, old(entries), key, schema)
      ensures status == AllocationFailed ==> !memory
      ensures status != Ok ==> entries == old(entries)
      ensures memory ==> (status == Ok <==> EntryFits(ctx, Entry(key, schema))
                                            && HasPlace(old(entries), Entry(key, schema)))
      ensures status == Ok ==>
        RegistryFits(ctx, entries) && forall e :: e in entries <==> e in old(entries) || e == Entry(key, schema)
    {
      LearnsExactly(ctx, entries, Entry(key, schema));
      status := CheckSchema(ctx, key, schema);
      if status != Ok {
        return;
      }
      var found, index := Find(key);
      if found {
        assert CheckSchema(ctx, entries[index].key, entries[index].schema) == Ok;
        EqualSchemasAreTheSame(ctx, key, entries[index].schema, schema);
        OneSchemaPerKey(entries, index, schema);
        return if SchemasEqual(entries[index].schema, schema) then Ok else KeyConflict;
      }
      if !memory {
        return AllocationFailed;
      }
      var ok := Reserve(|entries| + 1);
      if !ok {
        return LimitExceeded;
      }
      LearningKeepsValidity(ctx, entries, key, schema);
      InsertAdds(entries, Entry(key, schema));
      InsertInOrder(Entry(key, schema));
    }

    /** `typetree_schema_registry_lookup`. */
    method Lookup(ctx: Context, key: Key) returns (status: Status, schema: Option<Schema>)
      requires Valid(ctx)
      ensures status == if CheckKey(key) != Ok then CheckKey(key) else if Holds(entries, key) then Ok else NotFound
      ensures status == Ok <==> schema.Some?
      ensures schema.Some? ==> forall s :: Entry(key, s) in entries <==> s == schema.value
      ensures status == Ok || status == NotFound <==> KeyFits(key)
    {
      KeyFitsExactly(key);
      schema := None;
      status := CheckKey(key);
      if status != Ok {
        return;
      }
      var found, index := Find(key);
      if !found {
        return NotFound, None;
      }
      schema := Some(entries[index].schema);
      forall s ensures Entry(key, s) in entries <==> s == entries[index].schema {
        OneSchemaPerKey(entries, index, s);
      }
    }
  }

  lemma OneSchemaPerKey(entries: seq<Entry>, index: nat, schema: Schema)
    requires Sorted(entries) && index < |entries|
    ensures Entry(entries[index].key, schema) in entries <==> schema == entries[index].schema
  {
    var e := Entry(entries[index].key, schema);
    if e in entries {
      SortedKeysAreDistinct(entries, e, entries[index]);
    }
  }

  lemma InsertStep(before: seq<Entry>, index: nat, e: Entry)
    requires index < |before| && CompareKeys(before[index].key, e.key) <= 0
    ensures before[..index] + Insert(before[index..], e) == before[..index + 1] + Insert(before[index + 1..], e)
  {
    var tail := before[index..];
    assert tail[1..] == before[index + 1..];
    assert before[..index + 1] == before[..index] + [before[index]];
    assert Insert(tail, e) == [tail[0]] + Insert(tail[1..], e);
  }
}

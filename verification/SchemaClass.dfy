/** Completing the bare types of one class from a registry (`serialized_file_resolve_class_schema` of
    src/io/serialized_file.c): all replacements are collected first, then committed together. */
module SchemaClass {
  import opened Bytes
  import opened RegistryKeys
  import opened SchemaRegistry
  import opened RegistryStore
  import opened SchemaTransaction
  import opened SchemaFile

  /** A type of the class that has no nodes yet. */
  predicate Wants(t: Schema, classId: i32) {
    t.typeId == classId && t.nodes == []
  }

  /** The schema stored under the key of a header. */
  function SchemaFor(entries: seq<Entry>, version: u32, unity: CString, header: Schema): (r: Schema)
    requires Resolvable(entries, version, unity, header)
    ensures Resolves(entries, version, unity, header, r)
  {
    FirstUnder(entries, KeyFromType(version, unity, header.typeId, header).key)
  }

  function FirstUnder(entries: seq<Entry>, key: Key): (r: Schema)
    requires Holds(entries, key)
    ensures Entry(key, r) in entries
  {
    if entries[0].key == key then
      assert entries[0] == Entry(key, entries[0].schema);
      entries[0].schema
    else
      assert Holds(entries[1..], key) by {
        var i :| 0 <= i < |entries| && entries[i].key == key;
        assert entries[1..][i - 1] == entries[i];
      }
      FirstUnder(entries[1..], key)
  }

  /** The type as it should be afterwards. */
  function Completed(entries: seq<Entry>, version: u32, unity: CString, t: Schema, classId: i32): Schema {
    if Wants(t, classId) && Resolvable(entries, version, unity, t) then SchemaFor(entries, version, unity, t) else t
  }

  predicate AllWanted(entries: seq<Entry>, version: u32, unity: CString, types: seq<Schema>, classId: i32) {
    forall i {:trigger types[i]} :: 0 <= i < |types| && Wants(types[i], classId) ==>
      Resolvable(entries, version, unity, types[i])
  }

  /** Every wanting type of the class is completed and nothing else changes. */
  predicate ClassCompleted(entries: seq<Entry>, version: u32, unity: CString, types: seq<Schema>, after: seq<Schema>,
                           classId: i32) {
    |after| == |types| && forall i {:trigger after[i]} :: 0 <= i < |types| ==>
                            after[i] == Completed(entries, version, unity, types[i], classId)
  }

  function WantCount(types: seq<Schema>, classId: i32): nat {
    if types == [] then 0
    else WantCount(types[..|types| - 1], classId) + (if Wants(types[|types| - 1], classId) then 1 else 0)
  }

  lemma {:induction false} NoneWanted(types: seq<Schema>, classId: i32)
    requires WantCount(types, classId) == 0
    ensures forall i {:trigger types[i]} :: 0 <= i < |types| ==> !Wants(types[i], classId)
  {
    if types != [] {
      NoneWanted(types[..|types| - 1], classId);
      assert forall i :: 0 <= i < |types| - 1 ==> types[i] == types[..|types| - 1][i];
    }
  }

  lemma {:induction false} PartWanted(types: seq<Schema>, n: nat, classId: i32)
    requires n <= |types|
    ensures WantCount(types[..n], classId) <= WantCount(types, classId)
    ensures n < |types| && Wants(types[n], classId) ==> WantCount(types[..n], classId) < WantCount(types, classId)
    ensures n < |types| ==>
              WantCount(types[..n + 1], classId) ==
                WantCount(types[..n], classId) + (if Wants(types[n], classId) then 1 else 0)
    decreases |types|
  {
    var front := types[..|types| - if types == [] then 0 else 1];
    if n < |types| {
      assert types[..n + 1][..n] == types[..n] && front[..n] == types[..n];
      PartWanted(front, n, classId);
    } else {
      assert types[..n] == types;
    }
  }

  // ----- Replacements -----

  /** A planned replacement: in which of the two arrays, where, and by what. */
  datatype Replacement = Replacement(ofRefTypes: bool, index: nat, schema: Schema)

  /** The replacements of one array, in order. */
  function Plan(entries: seq<Entry>, version: u32, unity: CString, types: seq<Schema>, classId: i32, ofRefTypes: bool,
                n: nat)
    : (r: seq<Replacement>)
    requires n <= |types| && AllWanted(entries, version, unity, types[..n], classId)
    ensures |r| == WantCount(types[..n], classId)
  {
    if n == 0 then []
    else
      assert types[..n][..n - 1] == types[..n - 1] && types[..n][n - 1] == types[n - 1];
      assert AllWanted(entries, version, unity, types[..n - 1], classId) by {
        assert forall i :: 0 <= i < n - 1 ==> types[..n - 1][i] == types[..n][i];
      }
      Plan(entries, version, unity, types, classId, ofRefTypes, n - 1)
      + (if Wants(types[n - 1], classId)
         then [Replacement(ofRefTypes, n - 1, SchemaFor(entries, version, unity, types[n - 1]))] else [])
  }

  /** What committing replacements makes of one of the arrays. */
  function Applied(types: seq<Schema>, plan: seq<Replacement>, ofRefTypes: bool): (r: seq<Schema>)
    ensures |r| == |types|
  {
    if plan == [] then types
    else
      var rest, last := Applied(types, plan[..|plan| - 1], ofRefTypes), plan[|plan| - 1];
      if last.ofRefTypes == ofRefTypes && last.index < |types| then rest[last.index := last.schema] else rest
  }

  lemma {:induction false} AppliedInTurn(types: seq<Schema>, a: seq<Replacement>, b: seq<Replacement>, ofRefTypes: bool)
    ensures Applied(types, a + b, ofRefTypes) == Applied(Applied(types, a, ofRefTypes), b, ofRefTypes)
  {
    if b == [] {
      assert a + b == a;
    } else {
      AppliedInTurn(types, a, b[..|b| - 1], ofRefTypes);
      assert (a + b)[..|a + b| - 1] == a + b[..|b| - 1];
    }
  }

  lemma {:induction false} AppliedElsewhere(types: seq<Schema>, plan: seq<Replacement>, ofRefTypes: bool)
    requires forall k {:trigger plan[k]} :: 0 <= k < |plan| ==> plan[k].ofRefTypes != ofRefTypes
    ensures Applied(types, plan, ofRefTypes) == types
  {
    if plan != [] {
      AppliedElsewhere(types, plan[..|plan| - 1], ofRefTypes);
    }
  }

  lemma {:induction false} PlanIsOfItsArray(entries: seq<Entry>, version: u32, unity: CString, types: seq<Schema>,
                                            classId: i32, ofRefTypes: bool, n: nat)
    requires n <= |types| && AllWanted(entries, version, unity, types[..n], classId)
    ensures forall k {:trigger Plan(entries, version, unity, types, classId, ofRefTypes, n)[k]} ::
              0 <= k < |Plan(entries, version, unity, types, classId, ofRefTypes, n)| ==>
              Plan(entries, version, unity, types, classId, ofRefTypes, n)[k].ofRefTypes == ofRefTypes
  {
    if n > 0 {
      FewerWanted(entries, version, unity, types, classId, n);
      PlanIsOfItsArray(entries, version, unity, types, classId, ofRefTypes, n - 1);
    }
  }

  lemma FewerWanted(entries: seq<Entry>, version: u32, unity: CString, types: seq<Schema>, classId: i32, n: nat)
    requires 0 < n <= |types| && AllWanted(entries, version, unity, types[..n], classId)
    ensures AllWanted(entries, version, unity, types[..n - 1], classId)
    ensures Wants(types[n - 1], classId) ==> Resolvable(entries, version, unity, types[n - 1])
  {
    assert forall i :: 0 <= i < n - 1 ==> types[..n - 1][i] == types[..n][i];
    assert types[..n][n - 1] == types[n - 1];
  }

  /** The first `n` types are completed and the others are as before. */
  predicate PartCompleted(entries: seq<Entry>, version: u32, unity: CString, types: seq<Schema>, after: seq<Schema>,
                          classId: i32, n: nat)
  {
    |after| == |types| && forall i {:trigger after[i]} :: 0 <= i < |types| ==>
                            after[i] == if i < n then Completed(entries, version, unity, types[i], classId)
                              else types[i]
  }

  /** One planned type more: its replacement is committed last, or there is none to commit. */
  lemma AppliedStep(entries: seq<Entry>, version: u32, unity: CString, types: seq<Schema>, classId: i32,
                    ofRefTypes: bool, n: nat)
    requires 0 < n <= |types| && AllWanted(entries, version, unity, types[..n], classId)
    ensures AllWanted(entries, version, unity, types[..n - 1], classId)
    ensures var before := Applied(types, Plan(entries, version, unity, types, classId, ofRefTypes, n - 1), ofRefTypes);
            Applied(types, Plan(entries, version, unity, types, classId, ofRefTypes, n), ofRefTypes) ==
            if Wants(types[n - 1], classId) then
              before[n - 1 := SchemaFor(entries, version, unity, types[n - 1])]
            else before
  {
    FewerWanted(entries, version, unity, types, classId, n);
    var before := Plan(entries, version, unity, types, classId, ofRefTypes, n - 1);
    var plan := Plan(entries, version, unity, types, classId, ofRefTypes, n);
    if Wants(types[n - 1], classId) {
      assert plan[..|plan| - 1] == before;
    } else {
      assert plan == before;
    }
  }

  lemma OneMoreCompleted(entries: seq<Entry>, version: u32, unity: CString, types: seq<Schema>, after: seq<Schema>,
                         classId: i32, n: nat)
    requires 0 < n <= |types| && PartCompleted(entries, version, unity, types, after, classId, n - 1)
    ensures PartCompleted(entries, version, unity, types,
                          after[n - 1 := Completed(entries, version, unity, types[n - 1], classId)], classId, n)
  {
  }

  /** Committing the plan of an array completes exactly its planned part. */
  lemma {:induction false} PlanCompletes(entries: seq<Entry>, version: u32, unity: CString, types: seq<Schema>,
                                         classId: i32, ofRefTypes: bool, n: nat)
    requires n <= |types| && AllWanted(entries, version, unity, types[..n], classId)
    ensures PartCompleted(entries, version, unity, types,
                          Applied(types, Plan(entries, version, unity, types, classId, ofRefTypes, n),
                                  ofRefTypes), classId, n)
  {
    if n > 0 {
      AppliedStep(entries, version, unity, types, classId, ofRefTypes, n);
      PlanCompletes(entries, version, unity, types, classId, ofRefTypes, n - 1);
      FewerWanted(entries, version, unity, types, classId, n);
      OneMoreCompleted(entries, version, unity, types,
                       Applied(types, Plan(entries, version, unity, types, classId, ofRefTypes, n - 1), ofRefTypes),
                       classId, n);
    }
  }

  /** The two plans together complete both arrays, neither disturbing the other. */
  lemma BothComplete(entries: seq<Entry>, version: u32, unity: CString, types: seq<Schema>, refTypes: seq<Schema>,
                     classId: i32)
    requires AllWanted(entries, version, unity, types[..|types|], classId)
    requires AllWanted(entries, version, unity, refTypes[..|refTypes|], classId)
    ensures var plan := Plan(entries, version, unity, types, classId, false, |types|)
                        + Plan(entries, version, unity, refTypes, classId, true, |refTypes|);
            && ClassCompleted(entries, version, unity, types, Applied(types, plan, false), classId)
            && ClassCompleted(entries, version, unity, refTypes, Applied(refTypes, plan, true), classId)
  {
    var a := Plan(entries, version, unity, types, classId, false, |types|);
    var b := Plan(entries, version, unity, refTypes, classId, true, |refTypes|);
    AppliedInTurn(types, a, b, false);
    AppliedInTurn(refTypes, a, b, true);
    PlanIsOfItsArray(entries, version, unity, types, classId, false, |types|);
    PlanIsOfItsArray(entries, version, unity, refTypes, classId, true, |refTypes|);
    AppliedElsewhere(Applied(types, a, false), b, false);
    AppliedElsewhere(refTypes, a, true);
    PlanCompletes(entries, version, unity, types, classId, false, |types|);
    PlanCompletes(entries, version, unity, refTypes, classId, true, |refTypes|);
  }

  // ----- The method -----

  method CountWanted(types: seq<Schema>, classId: i32) returns (count: nat)
    ensures count == WantCount(types, classId)
  {
    count := 0;
    for i := 0 to |types|
      invariant count == WantCount(types[..i], classId)
    {
      PartWanted(types, i, classId);
      if Wants(types[i], classId) {
        count := count + 1;
      }
    }
    assert types[..|types|] == types;
  }

  /** The key of a header and the schema under it. */
  method FindSchema(ctx: Context, registry: Registry, version: u32, unity: CString, header: Schema)
    returns (status: Status, schema: Schema)
    requires registry.Valid(ctx)
    ensures status == Ok <==> Resolvable(registry.entries, version, unity, header)
    ensures status == Ok ==> schema == SchemaFor(registry.entries, version, unity, header)
    ensures status != SizeOverflow && status != AllocationFailed
  {
    schema := header;
    var key := KeyFromType(version, unity, header.typeId, header);
    if key.NoKey? {
      return key.status, schema;
    }
    var found;
    status, found := registry.Lookup(ctx, key.key);
    DerivedKeysAreValid(version, unity, header.typeId, header);
    if status == Ok {
      assert Entry(key.key, SchemaFor(registry.entries, version, unity, header)) in registry.entries;
      schema := found.value;
    }
  }

  /** Planning one type more. */
  lemma PlanStep(entries: seq<Entry>, version: u32, unity: CString, types: seq<Schema>, classId: i32, ofRefTypes: bool,
                 n: nat)
    requires n < |types| && AllWanted(entries, version, unity, types[..n], classId)
    requires Wants(types[n], classId) ==> Resolvable(entries, version, unity, types[n])
    ensures AllWanted(entries, version, unity, types[..n + 1], classId)
    ensures Plan(entries, version, unity, types, classId, ofRefTypes, n + 1)
         == Plan(entries, version, unity, types, classId, ofRefTypes, n)
            + (if Wants(types[n], classId)
               then [Replacement(ofRefTypes, n, SchemaFor(entries, version, unity, types[n]))] else [])
  {
    assert types[..n + 1] == types[..n] + [types[n]];
  }

  lemma NotAllWanted(entries: seq<Entry>, version: u32, unity: CString, types: seq<Schema>, classId: i32, i: nat)
    requires i < |types| && Wants(types[i], classId) && !Resolvable(entries, version, unity, types[i])
    ensures !AllWanted(entries, version, unity, types[..|types|], classId)
  {
    assert types[..|types|][i] == types[i];
  }

  method Put(replacements: array<Replacement>, at: nat, r: Replacement)
    requires at < replacements.Length
    modifies replacements
    ensures replacements[..at + 1] == old(replacements[..at]) + [r]
  {
    replacements[at] := r;
  }

  /** `resolve_class_schema_array`: with room for every wanting type the room cannot run out. */
  method CollectReplacements(ctx: Context, registry: Registry, version: u32, unity: CString, types: seq<Schema>,
                             classId: i32, ofRefTypes: bool, replacements: array<Replacement>, start: nat)
    returns (status: Status, count: nat)
    requires registry.Valid(ctx) && start + WantCount(types, classId) <= replacements.Length
    modifies replacements
    ensures status == Ok <==> AllWanted(registry.entries, version, unity, types[..|types|], classId)
    ensures status != SizeOverflow && status != AllocationFailed
    ensures status == Ok ==> count == start + WantCount(types, classId)
    ensures status == Ok ==>
              replacements[..count] ==
                old(replacements[..start]) + Plan(registry.entries, version, unity, types, classId, ofRefTypes, |types|)
  {
    ghost var entries, base, plan := registry.entries, replacements[..start], [];
    count := start;
    for i := 0 to |types|
      invariant AllWanted(entries, version, unity, types[..i], classId)
        && count == start + WantCount(types[..i], classId)
      invariant plan == Plan(entries, version, unity, types, classId, ofRefTypes, i) && registry.entries == entries
      invariant count <= replacements.Length && replacements[..count] == base + plan
    {
      PartWanted(types, i, classId);
      if Wants(types[i], classId) {
        if count >= replacements.Length {
          return SizeOverflow, count;
        }
        var schema;
        status, schema := FindSchema(ctx, registry, version, unity, types[i]);
        if status != Ok {
          NotAllWanted(entries, version, unity, types, classId, i);
          return;
        }
        Put(replacements, count, Replacement(ofRefTypes, i, schema));
        plan := plan + [Replacement(ofRefTypes, i, schema)];
        count := count + 1;
      }
      PlanStep(entries, version, unity, types, classId, ofRefTypes, i);
    }
    assert types[..|types|] == types;
    status := Ok;
  }

  /** Write the planned schemas into both arrays. */
  method Commit(file: SerializedFile, plan: seq<Replacement>)
    modifies file
    ensures file.types == Applied(old(file.types), plan, false)
    ensures file.refTypes == Applied(old(file.refTypes), plan, true)
  {
    for k := 0 to |plan|
      invariant file.types == Applied(old(file.types), plan[..k], false)
      invariant file.refTypes == Applied(old(file.refTypes), plan[..k], true)
    {
      assert plan[..k + 1][..k] == plan[..k];
      var r := plan[k];
      if r.ofRefTypes && r.index < |file.refTypes| {
        file.refTypes := file.refTypes[r.index := r.schema];
      } else if !r.ofRefTypes && r.index < |file.types| {
        file.types := file.types[r.index := r.schema];
      }
    }
    assert plan[..|plan|] == plan;
  }

  // ----- The same in terms of the keys -----

  /** Every type of the class without nodes has a schema in the registry. */
  ghost predicate ClassResolves(entries: seq<Entry>, version: u32, unity: seq<byte>, types: seq<Schema>,
                                classId: i32) {
    forall i {:trigger types[i]} :: 0 <= i < |types| && types[i].typeId == classId && |types[i].nodes| == 0 ==>
      HasSchema(entries, version, unity, types[i])
  }

  /** Each type of the class without nodes is the schema it resolves to, and every other type is what it was. */
  ghost predicate ClassFilled(entries: seq<Entry>, version: u32, unity: seq<byte>, types: seq<Schema>,
                              after: seq<Schema>, classId: i32) {
    && |after| == |types|
    && forall i {:trigger after[i]} :: 0 <= i < |after| ==>
         if types[i].typeId == classId && |types[i].nodes| == 0
         then ResolvesTo(entries, version, unity, types[i], after[i]) else after[i] == types[i]
  }

  /** No type of the class is without nodes. */
  predicate NoneBare(types: seq<Schema>, classId: i32) {
    forall i {:trigger types[i]} :: 0 <= i < |types| ==> types[i].typeId != classId || |types[i].nodes| > 0
  }

  lemma NoneBareExactly(types: seq<Schema>, classId: i32)
    ensures WantCount(types, classId) == 0 <==> NoneBare(types, classId)
  {
    if WantCount(types, classId) == 0 {
      NoneWanted(types, classId);
    }
    if NoneBare(types, classId) {
      NothingToWant(types, classId);
    }
  }

  lemma {:induction false} NothingToWant(types: seq<Schema>, classId: i32)
    requires NoneBare(types, classId)
    ensures WantCount(types, classId) == 0
  {
    if types != [] {
      assert forall i :: 0 <= i < |types| - 1 ==> types[..|types| - 1][i] == types[i];
      NothingToWant(types[..|types| - 1], classId);
    }
  }

  lemma ClassResolvesExactly(entries: seq<Entry>, version: u32, unity: CString, types: seq<Schema>, classId: i32)
    ensures AllWanted(entries, version, unity, types, classId)
            <==> ClassResolves(entries, version, unity, types, classId)
  {
    forall i | 0 <= i < |types|
      ensures Resolvable(entries, version, unity, types[i]) <==> HasSchema(entries, version, unity, types[i])
    {
      HasSchemaExactly(entries, version, unity, types[i]);
    }
  }

  lemma CompletedIsFilled(entries: seq<Entry>, version: u32, unity: CString, types: seq<Schema>, after: seq<Schema>,
                          classId: i32)
    requires AllWanted(entries, version, unity, types, classId)
    requires ClassCompleted(entries, version, unity, types, after, classId)
    ensures ClassFilled(entries, version, unity, types, after, classId)
  {
    forall i | 0 <= i < |after|
      ensures if types[i].typeId == classId && |types[i].nodes| == 0
              then ResolvesTo(entries, version, unity, types[i], after[i]) else after[i] == types[i]
    {
      if Wants(types[i], classId) {
        ResolvesExactly(entries, version, unity, types[i], after[i]);
      }
    }
  }

  /** `serialized_file_resolve_class_schema`: all wanting types of the class are completed, or nothing changes. */
  method ResolveClass(ctx: Context, file: SerializedFile, classId: i32, registry: Registry?, memory: bool)
    returns (status: Status)
    requires registry != null ==> registry.Valid(ctx)
    modifies file
    ensures status != SizeOverflow
    ensures classId < 0 ==> status == InvalidArgument
    ensures classId >= 0 && registry == null ==>
              (status == Ok <==> WantCount(old(file.types), classId) + WantCount(old(file.refTypes), classId) == 0)
    ensures classId >= 0 && registry != null && memory ==>
              (status == Ok <==> AllWanted(registry.entries, file.version, file.unity, old(file.types), classId)
                                 && AllWanted(registry.entries, file.version, file.unity, old(file.refTypes), classId))
    ensures status == AllocationFailed ==> !memory
    ensures status == Ok && registry != null ==>
              && ClassCompleted(registry.entries, file.version, file.unity, old(file.types), file.types, classId)
              && ClassCompleted(registry.entries, file.version, file.unity, old(file.refTypes), file.refTypes, classId)
    ensures status != Ok || registry == null ==> file.types == old(file.types) && file.refTypes == old(file.refTypes)
    ensures classId >= 0 && registry != null && memory ==>
              (status == Ok <==> ClassResolves(registry.entries, file.version, file.unity, old(file.types), classId)
                                 && ClassResolves(registry.entries, file.version, file.unity, old(file.refTypes),
                                                  classId))
    ensures status == Ok && registry != null ==>
              && ClassFilled(registry.entries, file.version, file.unity, old(file.types), file.types, classId)
              && ClassFilled(registry.entries, file.version, file.unity, old(file.refTypes), file.refTypes, classId)
    ensures classId >= 0 && registry == null ==>
              (status == Ok <==> NoneBare(old(file.types), classId) && NoneBare(old(file.refTypes), classId))
  {
    ghost var types, refTypes := file.types, file.refTypes;
    NoneBareExactly(types, classId);
    NoneBareExactly(refTypes, classId);
    if registry != null {
      ClassResolvesExactly(registry.entries, file.version, file.unity, types, classId);
      ClassResolvesExactly(registry.entries, file.version, file.unity, refTypes, classId);
    }
    if classId < 0 {
      return InvalidArgument;
    }
    var inTypes := CountWanted(file.types, classId);
    var inRefTypes := CountWanted(file.refTypes, classId);
    if inTypes + inRefTypes == 0 {
      NoneWanted(file.types, classId);
      NoneWanted(file.refTypes, classId);
      if registry != null {
        CompletedIsFilled(registry.entries, file.version, file.unity, types, file.types, classId);
        CompletedIsFilled(registry.entries, file.version, file.unity, refTypes, file.refTypes, classId);
      }
      return Ok;
    }
    if registry == null {
      return InvalidArgument;
    }
    if !memory {
      return AllocationFailed;
    }
    status := CompleteClass(ctx, file, classId, registry, inTypes + inRefTypes);
    if status == Ok {
      CompletedIsFilled(registry.entries, file.version, file.unity, types, file.types, classId);
      CompletedIsFilled(registry.entries, file.version, file.unity, refTypes, file.refTypes, classId);
    }
  }

  method CompleteClass(ctx: Context, file: SerializedFile, classId: i32, registry: Registry, capacity: nat)
    returns (status: Status)
    requires registry.Valid(ctx) && capacity == WantCount(file.types, classId) + WantCount(file.refTypes, classId)
    modifies file
    ensures status != SizeOverflow && status != AllocationFailed
    ensures status == Ok <==> AllWanted(registry.entries, file.version, file.unity, old(file.types), classId)
                              && AllWanted(registry.entries, file.version, file.unity, old(file.refTypes), classId)
    ensures status == Ok ==>
              && ClassCompleted(registry.entries, file.version, file.unity, old(file.types), file.types, classId)
              && ClassCompleted(registry.entries, file.version, file.unity, old(file.refTypes), file.refTypes, classId)
    ensures status != Ok ==> file.types == old(file.types) && file.refTypes == old(file.refTypes)
  {
    assert file.types[..|file.types|] == file.types && file.refTypes[..|file.refTypes|] == file.refTypes;
    var plan;
    status, plan := CollectBoth(ctx, file, classId, registry, capacity);
    if status == Ok {
      BothComplete(registry.entries, file.version, file.unity, file.types, file.refTypes, classId);
      Commit(file, plan);
    }
  }

  /** Both arrays in turn into one list of replacements. */
  method CollectBoth(ctx: Context, file: SerializedFile, classId: i32, registry: Registry, capacity: nat)
    returns (status: Status, plan: seq<Replacement>)
    requires registry.Valid(ctx) && capacity == WantCount(file.types, classId) + WantCount(file.refTypes, classId)
    ensures status != SizeOverflow && status != AllocationFailed
    ensures status == Ok <==> AllWanted(registry.entries, file.version, file.unity, file.types[..|file.types|], classId)
                              && AllWanted(registry.entries, file.version, file.unity, file.refTypes[..|file.refTypes|],
                                           classId)
    ensures status == Ok ==>
              plan == Plan(registry.entries, file.version, file.unity, file.types, classId, false, |file.types|)
                      + Plan(registry.entries, file.version, file.unity, file.refTypes, classId, true, |file.refTypes|)
  {
    plan := [];
    var nothing :=
      Replacement(false, 0, Schema(0, false, 0, seq(HASH_SIZE, _ => 0), seq(HASH_SIZE, _ => 0), [], [], [], false,
                                                None, None, None));
    var replacements := new Replacement[capacity](_ => nothing);
    var count;
    status, count :=
      CollectReplacements(ctx, registry, file.version, file.unity, file.types, classId, false, replacements, 0);
    if status != Ok {
      return;
    }
    ghost var first := replacements[..count];
    assert first == Plan(registry.entries, file.version, file.unity, file.types, classId, false, |file.types|);
    status, count :=
      CollectReplacements(ctx, registry, file.version, file.unity, file.refTypes, classId, true, replacements, count);
    if status == Ok {
      plan := replacements[..count];
    }
  }
}

/** The ordered schema map of src/io/typetree_schema_registry.c. */
module SchemaRegistry {
  import opened Bytes
  import opened RegistryKeys
  import opened Pairs
  import TypeTreeSchema
  import SchemaNames

  const MAX_ENTRIES: nat := 65536
  const MAX_NODES: nat := 1048576
  const MAX_STRINGS: nat := 268435456
  const MAX_DEPENDENCIES: nat := 1048576
  const MAX_REF_STRING: nat := 1048576

  type Node = TypeTreeSchema.Node

  /** A Unity type with its nodes; the names of a reference type may be absent. */
  datatype Schema = Schema(typeId: i32, stripped: bool, scriptIndex: u16, scriptHash: Hash, typeHash: Hash,
                           nodes: seq<Node>, strings: seq<byte>, dependencies: seq<i32>, refType: bool,
                           className: Option<CString>, nameSpace: Option<CString>, assembly: Option<CString>)

  datatype Entry = Entry(key: Key, schema: Schema)

  /** What the registry takes from elsewhere: the common string table, the payload digest and the
      verdict of the known-profile table. */
  datatype Context = Context(common: seq<byte>, digest: seq<byte> -> Digest, profileAdmits: (Key, Schema) -> bool)

  const DIGEST_SIZE: nat := 32
  type Digest = s: seq<byte> | |s| == DIGEST_SIZE witness seq(DIGEST_SIZE, _ => 0)

  // ----- Validity -----

  predicate IsName(name: Option<CString>) {
    name.Some? && |name.value| <= MAX_REF_STRING
  }

  predicate NodeIsBound(ctx: Context, strings: seq<byte>, node: Node) {
    && SchemaNames.Resolve(strings, ctx.common, node.typeOffset) == Some(node.typeName)
    && SchemaNames.Resolve(strings, ctx.common, node.nameOffset) == Some(node.name)
  }

  predicate NodesAreBound(ctx: Context, schema: Schema) {
    forall i {:trigger schema.nodes[i]} :: 0 <= i < |schema.nodes| ==> NodeIsBound(ctx, schema.strings, schema.nodes[i])
  }

  predicate AgreesWithKey(key: Key, schema: Schema) {
    && schema.typeId == key.typeId && schema.scriptIndex == key.scriptIndex && schema.stripped == key.stripped
    && schema.refType == key.refType && schema.typeHash == key.typeHash && schema.scriptHash == key.scriptHash
  }

  predicate WithinLimits(schema: Schema) {
    && 0 < |schema.nodes| <= MAX_NODES && |schema.strings| <= MAX_STRINGS && |schema.dependencies| <= MAX_DEPENDENCIES
    && if schema.refType then IsName(schema.className) && IsName(schema.nameSpace) && IsName(schema.assembly)
       else schema.className.None? && schema.nameSpace.None? && schema.assembly.None?
  }

  /** `validate_schema` past the key. */
  predicate Admits(ctx: Context, key: Key, schema: Schema) {
    && AgreesWithKey(key, schema) && WithinLimits(schema)
    && (key.fileVersion < 21 || schema.refType ==> schema.dependencies == [])
    && TypeTreeSchema.ValidSchema(schema.nodes) && NodesAreBound(ctx, schema) && ctx.profileAdmits(key, schema)
  }

  function CheckSchema(ctx: Context, key: Key, schema: Schema): Status {
    if CheckKey(key) != Ok then CheckKey(key) else if Admits(ctx, key, schema) then Ok else InvalidSchema
  }

  /** `schemas_equal`: the names are compared for reference types only. */
  predicate SchemasEqual(a: Schema, b: Schema) {
    && a.typeId == b.typeId && a.stripped == b.stripped && a.scriptIndex == b.scriptIndex
    && a.scriptHash == b.scriptHash && a.typeHash == b.typeHash && |a.nodes| == |b.nodes| && |a.strings| == |b.strings|
    && |a.dependencies| == |b.dependencies| && a.refType == b.refType
    && a.nodes == b.nodes && a.strings == b.strings && a.dependencies == b.dependencies
    && (a.refType ==> a.className == b.className && a.nameSpace == b.nameSpace && a.assembly == b.assembly)
  }

  lemma EqualSchemasAreTheSame(ctx: Context, key: Key, a: Schema, b: Schema)
    requires Admits(ctx, key, a) && Admits(ctx, key, b)
    ensures SchemasEqual(a, b) <==> a == b
  {
  }

  // ----- The ordered map -----

  predicate Before(a: Entry, b: Entry) {
    CompareKeys(a.key, b.key) < 0
  }

  predicate Sorted(entries: seq<Entry>) {
    forall i, j :: 0 <= i < j < |entries| ==> Before(entries[i], entries[j])
  }

  predicate Holds(entries: seq<Entry>, key: Key) {
    exists i {:trigger entries[i]} :: 0 <= i < |entries| && entries[i].key == key
  }

  function Insert(entries: seq<Entry>, e: Entry): seq<Entry> {
    if entries == [] || CompareKeys(entries[0].key, e.key) > 0 then [e] + entries
      else [entries[0]] + Insert(entries[1..], e)
  }

  function LearnStatus(ctx: Context, entries: seq<Entry>, key: Key, schema: Schema): Status {
    if CheckSchema(ctx, key, schema) != Ok then CheckSchema(ctx, key, schema)
    else if Holds(entries, key) then (if Entry(key, schema) in entries then Ok else KeyConflict)
    else if |entries| >= MAX_ENTRIES then LimitExceeded
    else Ok
  }

  /** The entries after one schema was offered; a refused or known schema changes nothing. */
  function Learned(ctx: Context, entries: seq<Entry>, key: Key, schema: Schema): seq<Entry> {
    if LearnStatus(ctx, entries, key, schema) == Ok && !Holds(entries, key) then Insert(entries, Entry(key, schema))
      else entries
  }

  predicate AllAdmitted(ctx: Context, entries: seq<Entry>) {
    forall i {:trigger entries[i]} :: 0 <= i < |entries| ==> CheckSchema(ctx, entries[i].key, entries[i].schema) == Ok
  }

  predicate ValidEntries(ctx: Context, entries: seq<Entry>) {
    Sorted(entries) && AllAdmitted(ctx, entries) && |entries| <= MAX_ENTRIES
  }

  function Elements(entries: seq<Entry>): set<Entry> {
    set e | e in entries
  }

  lemma ElementsCons(first: Entry, tail: seq<Entry>)
    ensures Elements([first] + tail) == {first} + Elements(tail)
  {
  }

  lemma SortedTail(entries: seq<Entry>)
    requires Sorted(entries) && entries != []
    ensures Sorted(entries[1..]) && entries[0] !in entries[1..]
    ensures Elements(entries) == {entries[0]} + Elements(entries[1..])
  {
    forall i, j | 0 <= i < j < |entries[1..]| ensures Before(entries[1..][i], entries[1..][j]) {
      assert Before(entries[i + 1], entries[j + 1]);
    }
    if entries[0] in entries[1..] {
      var i :| 0 <= i < |entries[1..]| && entries[1..][i] == entries[0];
      assert Before(entries[0], entries[i + 1]);
      KeysTotal(entries[0].key, entries[0].key);
    }
    assert entries == [entries[0]] + entries[1..];
  }

  lemma {:induction false} SortedHasNoDuplicates(entries: seq<Entry>)
    requires Sorted(entries)
    ensures |Elements(entries)| == |entries|
  {
    if entries != [] {
      SortedTail(entries);
      SortedHasNoDuplicates(entries[1..]);
    }
  }

  lemma DistinctAt(entries: seq<Entry>, i: nat, j: nat)
    requires Sorted(entries) && i < |entries| && j < |entries| && i != j
    ensures entries[i].key != entries[j].key
  {
    KeysTotal(entries[i].key, entries[j].key);
    assert Before(entries[if i < j then i else j], entries[if i < j then j else i]);
  }

  lemma SortedKeysAreDistinct(entries: seq<Entry>, e: Entry, f: Entry)
    requires Sorted(entries) && e in entries && f in entries && e.key == f.key
    ensures e == f
  {
    var i :| 0 <= i < |entries| && entries[i] == e;
    var j :| 0 <= j < |entries| && entries[j] == f;
    if i != j {
      DistinctAt(entries, i, j);
    }
  }

  lemma FirstIsLeast(entries: seq<Entry>, e: Entry)
    requires Sorted(entries) && e in entries
    ensures e == entries[0] || Before(entries[0], e)
  {
    var i :| 0 <= i < |entries| && entries[i] == e;
  }

  /** The set of entries determines the whole ordered list. */
  lemma {:induction false} SortedIsCanonical(a: seq<Entry>, b: seq<Entry>)
    requires Sorted(a) && Sorted(b) && Elements(a) == Elements(b)
    ensures a == b
  {
    if a == [] {
      assert Elements(a) == {};
      if b != [] {
        SomeElement(b);
      }
    } else {
      SameFirst(a, b);
      SortedTail(a);
      SortedTail(b);
      SortedIsCanonical(a[1..], b[1..]);
      SameAgain(a, b);
    }
  }

  lemma SomeElement(b: seq<Entry>)
    requires b != []
    ensures Elements(b) != {}
  {
    assert b[0] in Elements(b);
  }

  lemma SameAgain(a: seq<Entry>, b: seq<Entry>)
    requires a != [] && b != [] && a[0] == b[0] && a[1..] == b[1..]
    ensures a == b
  {
    assert a == [a[0]] + a[1..] && b == [b[0]] + b[1..];
  }

  lemma SameFirst(a: seq<Entry>, b: seq<Entry>)
    requires Sorted(a) && Sorted(b) && Elements(a) == Elements(b) && a != []
    ensures b != [] && a[0] == b[0] && Elements(a[1..]) == Elements(b[1..])
  {
    assert a[0] in Elements(b);
    assert b[0] in Elements(a);
    FirstIsLeast(b, a[0]);
    FirstIsLeast(a, b[0]);
    KeysTotal(a[0].key, b[0].key);
    TailElements(a);
    TailElements(b);
  }

  lemma TailElements(entries: seq<Entry>)
    requires Sorted(entries) && entries != []
    ensures Elements(entries[1..]) == Elements(entries) - {entries[0]}
  {
    SortedTail(entries);
    assert entries[0] !in Elements(entries[1..]);
  }

  lemma {:induction false} InsertAdds(entries: seq<Entry>, e: Entry)
    ensures Elements(Insert(entries, e)) == Elements(entries) + {e} && |Insert(entries, e)| == |entries| + 1
  {
    ElementsCons(e, entries);
    if entries != [] {
      assert entries == [entries[0]] + entries[1..];
      InsertAdds(entries[1..], e);
      ElementsCons(entries[0], entries[1..]);
      ElementsCons(entries[0], Insert(entries[1..], e));
    }
  }

  lemma SortedCons(first: Entry, tail: seq<Entry>)
    requires Sorted(tail) && forall e :: e in tail ==> Before(first, e)
    ensures Sorted([first] + tail)
  {
  }

  lemma {:induction false} InsertKeepsOrder(entries: seq<Entry>, e: Entry)
    requires Sorted(entries) && !Holds(entries, e.key)
    ensures Sorted(Insert(entries, e))
  {
    if entries == [] {
    } else if CompareKeys(entries[0].key, e.key) > 0 {
      KeysTotal(e.key, entries[0].key);
      forall f | f in entries ensures Before(e, f) {
        FirstIsLeast(entries, f);
        if f != entries[0] {
          KeysTransitive(e.key, entries[0].key, f.key);
        }
      }
      SortedCons(e, entries);
    } else {
      var tail := entries[1..];
      SortedTail(entries);
      assert entries[0].key != e.key;
      KeysTotal(entries[0].key, e.key);
      forall i | 0 <= i < |tail| ensures tail[i].key != e.key {
        assert tail[i] == entries[i + 1];
      }
      InsertKeepsOrder(tail, e);
      InsertAdds(tail, e);
      forall f | f in Insert(tail, e) ensures Before(entries[0], f) {
        assert f in Elements(Insert(tail, e));
        if f != e {
          FirstIsLeast(entries, f);
        }
      }
      SortedCons(entries[0], Insert(tail, e));
    }
  }

  /** Learning keeps the registry valid and adds exactly the offered entry. */
  lemma LearningKeepsValidity(ctx: Context, entries: seq<Entry>, key: Key, schema: Schema)
    requires ValidEntries(ctx, entries)
    ensures ValidEntries(ctx, Learned(ctx, entries, key, schema))
    ensures LearnStatus(ctx, entries, key, schema) == Ok ==>
              Elements(Learned(ctx, entries, key, schema)) == Elements(entries) + {Entry(key, schema)}
  {
    var e, after := Entry(key, schema), Learned(ctx, entries, key, schema);
    if LearnStatus(ctx, entries, key, schema) == Ok && !Holds(entries, key) {
      InsertKeepsOrder(entries, e);
      InsertAdds(entries, e);
      forall i | 0 <= i < |after| ensures CheckSchema(ctx, after[i].key, after[i].schema) == Ok {
        assert after[i] in Elements(after);
        if after[i] != e {
          assert after[i] in entries;
        }
      }
    }
  }

  // ----- Insertion order does not matter -----

  /** Offer a list of schemas in order; None as soon as one is refused. */
  function LearnAll(ctx: Context, entries: seq<Entry>, offers: seq<Entry>): Option<seq<Entry>>
    decreases |offers|
  {
    if offers == [] then Some(entries)
    else if LearnStatus(ctx, entries, offers[0].key, offers[0].schema) != Ok then None
    else LearnAll(ctx, Learned(ctx, entries, offers[0].key, offers[0].schema), offers[1..])
  }

  lemma {:induction false} LearnAllAdds(ctx: Context, entries: seq<Entry>, offers: seq<Entry>)
    requires ValidEntries(ctx, entries) && LearnAll(ctx, entries, offers).Some?
    ensures ValidEntries(ctx, LearnAll(ctx, entries, offers).value)
    ensures Elements(LearnAll(ctx, entries, offers).value) == Elements(entries) + Elements(offers)
    decreases |offers|
  {
    if offers != [] {
      var e, rest := offers[0], offers[1..];
      assert offers == [e] + rest;
      ElementsCons(e, rest);
      LearningKeepsValidity(ctx, entries, e.key, e.schema);
      LearnAllAdds(ctx, Learned(ctx, entries, e.key, e.schema), rest);
    }
  }

  lemma SubsetIsNoLarger(a: seq<Entry>, b: seq<Entry>)
    requires Sorted(a) && Sorted(b) && Elements(a) <= Elements(b)
    ensures |a| <= |b| && (Elements(a) != Elements(b) ==> |a| < |b|)
  {
    SortedHasNoDuplicates(a);
    SortedHasNoDuplicates(b);
    var rest := Elements(b) - Elements(a);
    assert Elements(b) == Elements(a) + rest;
    if Elements(a) != Elements(b) {
      assert rest != {};
    }
  }

  /** Offers that all belong to one valid registry are all accepted on the way to it. */
  lemma {:induction false} OffersOfAValidRegistry(ctx: Context, entries: seq<Entry>, offers: seq<Entry>,
                                                  target: seq<Entry>)
    requires ValidEntries(ctx, entries) && ValidEntries(ctx, target)
    requires Elements(entries) + Elements(offers) <= Elements(target)
    ensures LearnAll(ctx, entries, offers).Some?
    decreases |offers|
  {
    if offers != [] {
      var e := offers[0];
      assert e in Elements(offers) && e in target && Elements(entries) <= Elements(target);
      assert CheckSchema(ctx, e.key, e.schema) == Ok;
      if Holds(entries, e.key) {
        var i :| 0 <= i < |entries| && entries[i].key == e.key;
        assert entries[i] in Elements(target);
        SortedKeysAreDistinct(target, entries[i], e);
      } else {
        assert e !in Elements(entries) && e in Elements(target);
        SubsetIsNoLarger(entries, target);
      }
      LearningKeepsValidity(ctx, entries, e.key, e.schema);
      assert offers == [e] + offers[1..];
      ElementsCons(e, offers[1..]);
      OffersOfAValidRegistry(ctx, Learned(ctx, entries, e.key, e.schema), offers[1..], target);
    }
  }

  /** Offering the same schemas in another order, or with repetitions, builds the same registry. */
  lemma InsertionOrderIsIrrelevant(ctx: Context, entries: seq<Entry>, offers: seq<Entry>, others: seq<Entry>)
    requires ValidEntries(ctx, entries) && LearnAll(ctx, entries, offers).Some?
    requires Elements(offers) == Elements(others)
    ensures LearnAll(ctx, entries, others) == LearnAll(ctx, entries, offers)
  {
    LearnAllAdds(ctx, entries, offers);
    var target := LearnAll(ctx, entries, offers).value;
    OffersOfAValidRegistry(ctx, entries, others, target);
    LearnAllAdds(ctx, entries, others);
    SortedIsCanonical(target, LearnAll(ctx, entries, others).value);
  }

  // ----- The sort before serialising -----

  predicate DifferentKeys(a: Entry, b: Entry) {
    a.key != b.key
  }

  /** `compare_entry_pointers` never goes down. */
  predicate InKeyOrder(entries: seq<Entry>) {
    forall i, j :: 0 <= i < j < |entries| ==> CompareKeys(entries[i].key, entries[j].key) <= 0
  }

  /** Every entry's key precedes those of the entries behind it. */
  ghost predicate KeysAscend(entries: seq<Entry>) {
    forall i, j :: 0 <= i < j < |entries| ==> KeyPrecedes(entries[i].key, entries[j].key)
  }

  lemma SortedKeysAscend(entries: seq<Entry>)
    ensures Sorted(entries) <==> KeysAscend(entries)
  {
    forall i, j | 0 <= i < j < |entries|
      ensures Before(entries[i], entries[j]) <==> KeyPrecedes(entries[i].key, entries[j].key)
    {
      KeysCompareAsTheyPrecede(entries[i].key, entries[j].key);
    }
  }

  /** What qsort is asked to do: any ordered permutation will do. */
  ghost predicate Sorts(sort: seq<Entry> -> seq<Entry>) {
    forall entries {:trigger sort(entries)} :: InKeyOrder(sort(entries)) && multiset(sort(entries)) == multiset(entries)
  }

  /** Ordered entries are strictly ordered exactly when no key occurs twice. */
  lemma OrderedIsSorted(entries: seq<Entry>)
    requires InKeyOrder(entries)
    ensures Sorted(entries) <==> Pairwise(entries, DifferentKeys)
  {
    forall i, j | 0 <= i < j < |entries|
      ensures Before(entries[i], entries[j]) <==> DifferentKeys(entries[i], entries[j]) {
      KeysTotal(entries[i].key, entries[j].key);
    }
  }

  /** The order the sort chooses decides neither whether keys differ nor which entries there are. */
  lemma SortingKeepsTheEntries(entries: seq<Entry>, sorted: seq<Entry>)
    requires multiset(sorted) == multiset(entries)
    ensures |sorted| == |entries| && Elements(sorted) == Elements(entries)
    ensures Pairwise(sorted, DifferentKeys) <==> Pairwise(entries, DifferentKeys)
    ensures forall ctx :: AllAdmitted(ctx, sorted) <==> AllAdmitted(ctx, entries)
  {
    assert |multiset(sorted)| == |multiset(entries)|;
    forall e ensures e in sorted <==> e in entries {
      assert e in multiset(sorted) <==> e in multiset(entries);
    }
    OrderDoesNotMatter(sorted, entries, DifferentKeys);
    forall ctx ensures AllAdmitted(ctx, sorted) <==> AllAdmitted(ctx, entries) {
      AdmittedByContents(ctx, sorted, entries);
      AdmittedByContents(ctx, entries, sorted);
    }
  }

  lemma AdmittedByContents(ctx: Context, a: seq<Entry>, b: seq<Entry>)
    requires Elements(a) == Elements(b)
    ensures AllAdmitted(ctx, a) ==> AllAdmitted(ctx, b)
  {
    if AllAdmitted(ctx, a) {
      forall i | 0 <= i < |b| ensures CheckSchema(ctx, b[i].key, b[i].schema) == Ok {
        assert b[i] in Elements(b) && b[i] in Elements(a);
        var k :| 0 <= k < |a| && a[k] == b[i];
      }
    }
  }

  /** For a valid registry the sort has nothing to do: every ordered permutation is the registry itself. */
  lemma SortingIsIdentity(entries: seq<Entry>, sorted: seq<Entry>)
    requires Sorted(entries) && multiset(sorted) == multiset(entries) && InKeyOrder(sorted)
    ensures sorted == entries
  {
    OrderedIsSorted(entries);
    SortingKeepsTheEntries(entries, sorted);
    OrderedIsSorted(sorted);
    SortedIsCanonical(sorted, entries);
  }
}

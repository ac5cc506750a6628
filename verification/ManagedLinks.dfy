/** The parameters of the managed reader met by the parts that stand behind them: identities are asked of the
    reference index, and reference types are compiled by the schema compiler
    (src/io/serialized_file_managed_values.c). */
module ManagedLinks {
  import opened Bytes
  import opened MatchTally
  import opened ReferenceIndex
  import opened SchemaCompiler
  import opened SchemaCreation
  import Managed
  import SchemaWire

  function Min(a: nat, b: nat): nat {
    if a < b then a else b
  }

  // ----- Identities -----

  /** What the index answers within its own limits. */
  function IndexAnswer(rows: seq<Names>, limits: ReferenceIndex.Limits, names: Names): Managed.Query
    requires ValidRows(rows) && |names| == 3
  {
    if KeyFits(names, limits) && QueryCost(rows, names) <= limits.maxWork
    then Managed.Answer(MatchOf(TallyOf(Flags(rows, names))), QueryCost(rows, names))
    else Managed.QueryRefused(0)
  }

  /** `query_row_type`: with its work capped by what is left, the index gives exactly its answer, or the
      charge of the answer does not fit. */
  method AskIndex(rows: seq<Names>, limits: ReferenceIndex.Limits, names: Names, maxWork: nat, work: nat)
    returns (ok: bool, found: Managed.Match, spent: nat)
    requires ValidRows(rows) && |names| == 3 && work <= maxWork
    ensures work <= spent <= maxWork
    ensures var answer := IndexAnswer(rows, limits, names);
            && ok == (answer.Answer? && work + answer.cost <= maxWork)
            && (ok ==> found == answer.found && spent == work + answer.cost)
  {
    var capped := limits.(maxWork := Min(limits.maxWork, maxWork - work));
    var status, t, used := QueryIndex(rows, names, capped);
    ok, found, spent := status == ReferenceIndex.Ok, MatchOf(t), work + used;
  }

  // ----- Reference types -----

  /** What a reference type's schema costs and retains within its own limits. */
  function SchemaAnswer(bytes: seq<byte>, common: seq<byte>, row: Row, bigEndian: bool, limits: SchemaCreation.Limits,
                        sizes: Sizes): Option<(nat, nat)>
    requires sizes.Valid()
  {
    if Creatable(bytes, common, row, bigEndian, limits, sizes) && Cost(row, common, sizes) <= limits.maxWork
    then Some((Cost(row, common, sizes), RetainedBytes(row, sizes).value))
    else None
  }

  /** `create_schema` behind `select_schema`: with bytes and work capped by what is left, a schema is created
      exactly when it can be within its own limits and its bytes and its cost still fit. */
  method CompileReference(bytes: seq<byte>, common: seq<byte>, row: Row, bigEndian: bool, limits: SchemaCreation.Limits,
                          sizes: Sizes, maxBytes: nat, used: nat, maxWork: nat, work: nat)
    returns (r: Creation, spent: nat)
    requires sizes.Valid() && used <= maxBytes && work <= maxWork
    ensures work <= spent <= maxWork
    ensures var answer := SchemaAnswer(bytes, common, row, bigEndian, limits, sizes);
            && (r.failure.status == SchemaCompiler.Ok <==>
                  answer.Some? && used + answer.value.1 <= maxBytes && work + answer.value.0 <= maxWork)
            && (r.failure.status == SchemaCompiler.Ok ==>
                  && spent == work + answer.value.0 && r.tree == Tree(SourceOf(bytes, common, row, bigEndian))
                  && SchemaWire.SchemaSpelled(ImageAt(bytes, common, row, bigEndian), r.tree, r.maximumDepth))
  {
    var capped := limits.(maxRetainedBytes := Min(limits.maxRetainedBytes, maxBytes - used),
                          maxWork := Min(limits.maxWork, maxWork - work));
    r := CreateSchema(bytes, common, row, bigEndian, capped, sizes, true, true);
    spent := work + r.workUsed;
    assert TreeAdmitted(bytes, row, capped) == TreeAdmitted(bytes, row, limits);
  }
}

/** A whole managed payload: its replay, its tiling, and the resolution of its identifier slots
    (src/io/serialized_file_managed_values.c). */
module ManagedPayload {
  import opened Bytes
  import Meta = MetadataReader
  import opened Managed
  import opened ManagedRows

  // ----- The payload as a function -----

  function HostFields(): seq<Field> {
    [ScalarField(2), ScalarField(3), ScalarField(4), ScalarField(6), ScalarField(7), TextField(8), TextField(12),
     RidField(17),
     RidField(19)]
  }

  function Repeated(field: Field, count: nat): (r: seq<Field>)
    ensures |r| == count
  {
    if count == 0 then [] else [field] + Repeated(field, count - 1)
  }

  datatype CountStep = Counted(count: nat, ordinal: nat, core: Core) | Uncounted(reason: Reason)

  function ReadCount(env: Environment, node: nat, maximum: nat, limit: Reason, core: Core): CountStep
    requires ValidEnvironment(env)
  {
    match ReadScalar(env, env.host, node, core)
    case Stop(reason) => Uncounted(reason)
    case Next(core1) =>
      ScalarIsCommitted(env, env.host, node, core);
      if LastBits(core1) > INT_MAX then Uncounted(BadCount)
      else if LastBits(core1) > maximum then Uncounted(limit)
      else Counted(LastBits(core1), |core.values|, core1)
  }

  /** The host object's own fields and its array of identifiers. */
  function ReadHost(env: Environment, core: Core): CountStep
    requires ValidEnvironment(env)
  {
    match ReadFields(env, env.host, HostFields(), core)
    case Stop(reason) => Uncounted(reason)
    case Next(core1) => ReadHostArray(env, core1)
  }

  function ReadHostArray(env: Environment, core: Core): CountStep
    requires ValidEnvironment(env)
  {
    match ReadCount(env, 22, env.limits.maxElements, ElementLimit, core)
    case Uncounted(reason) => Uncounted(reason)
    case Counted(count, ordinal, core1) =>
      match ReadFields(env, env.host, Repeated(RidField(24), count), core1)
      case Stop(reason) => Uncounted(reason)
      case Next(core2) => Counted(count, ordinal, core2)
  }

  /** The registry's version and row count. */
  function ReadHead(env: Environment, core: Core): CountStep
    requires ValidEnvironment(env)
  {
    match ReadScalar(env, env.host, 26, core)
    case Stop(reason) => Uncounted(reason)
    case Next(core1) =>
      ScalarIsCommitted(env, env.host, 26, core);
      if LastBits(core1) != REGISTRY_VERSION then Uncounted(BadVersion)
      else ReadCount(env, 29, env.limits.maxRows, RowLimit, core1)
  }

  /** The numbers a view keeps beside the tables. */
  datatype View = View(elements: nat, elementsValue: nat, registryStart: nat, versionValue: nat, rowCount: nat,
                       rowCountValue: nat)

  datatype Parse = Parsed(view: View, state: State) | Unparsed(reason: Reason)

  function ParsePayload(env: Environment, replay: bool, state: State): Parse
    requires ValidEnvironment(env)
  {
    match ReadHost(env, state.core)
    case Uncounted(reason) => Unparsed(reason)
    case Counted(elements, elementsValue, host) =>
      ParseRegistry(env, replay, elements, elementsValue, state.(core := host))
  }

  function ParseRegistry(env: Environment, replay: bool, elements: nat, elementsValue: nat, state: State): Parse
    requires ValidEnvironment(env)
  {
    match ReadHead(env, state.core)
    case Uncounted(reason) => Unparsed(reason)
    case Counted(rowCount, rowCountValue, head) =>
      ParseRows(env, replay,
                View(elements, elementsValue, state.core.position, |state.core.values|, rowCount, rowCountValue),
                state.(core := head))
  }

  /** The rows, which must end the payload. */
  function ParseRows(env: Environment, replay: bool, view: View, state: State): Parse
    requires ValidEnvironment(env)
  {
    match ReadRows(env, replay, view.rowCount, state)
    case Halt(reason) => Unparsed(reason)
    case Proceed(end) => if end.core.position != env.end then Unparsed(TrailingBytes) else Parsed(view, end)
  }

  /** What a replay must reproduce of the measuring pass. */
  datatype Summary = Summary(view: View, registryEnd: nat, values: nat, rows: nat, slots: nat, types: nat,
                             strings: nat, scalars: nat, padding: nat)

  function SummaryOf(view: View, state: State): Summary {
    Summary(view, state.core.position, |state.core.values|, |state.core.rows|, |state.core.slots|, |state.cache|,
            state.core.strings, state.core.scalars, state.core.padding)
  }

  function InitialCore(env: Environment): Core {
    Core(env.start, 0, 0, 0, 0, 0, [], [], [], None)
  }

  // ----- The replay agrees with the plan -----

  /** After a successful measuring pass, parsing again over the finished cache gives the same view, the same
      values, slots and rows, and selects no type that is not cached. */
  lemma ReplayAgreesWithPlan(env: Environment, core: Core, selecting: nat, again: nat)
    requires ValidEnvironment(env) && ParsePayload(env, false, State(core, [], selecting)).Parsed?
    ensures var planned := ParsePayload(env, false, State(core, [], selecting));
            var replayed := ParsePayload(env, true, State(core, planned.state.cache, again));
            replayed.Parsed? && replayed.view == planned.view && replayed.state.core == planned.state.core
            && replayed.state.cache == planned.state.cache
  {
    var planned := ParsePayload(env, false, State(core, [], selecting));
    var all := planned.state.cache;
    var head := ReadHead(env, ReadHost(env, core).core);
    var m, r := State(head.core, [], selecting), State(head.core, all, again);
    RowsAreSteps(env, []);
    IterationGrows(RowStep(env, false), head.count, m);
    RowsAreSteps(env, all);
    IterationReplays(RowStep(env, false), RowStep(env, true), head.count, m, r, all);
  }

  // ----- Tiling and weight -----

  /** What every part of a parse keeps: the values tile what was consumed, and the weight never falls. */
  predicate Advance(env: Environment, before: Core, after: Core) {
    Accounted(env, after) && CoreWeight(before) <= CoreWeight(after)
  }

  lemma {:induction false} NamesAdvance(env: Environment, nodes: seq<nat>, core: Core)
    requires ValidEnvironment(env) && Accounted(env, core) && ReadNames(env, nodes, core).Got?
    ensures Advance(env, core, ReadNames(env, nodes, core).core)
    decreases nodes
  {
    if nodes != [] {
      TextIsAccounted(env, nodes[0], core);
      NamesAdvance(env, nodes[1..], ReadName(env, nodes[0], core).core);
    }
  }

  lemma IdentityAdvances(env: Environment, core: Core)
    requires ValidEnvironment(env) && Accounted(env, core) && ReadIdentity(env, core).Identified?
    ensures Advance(env, core, ReadIdentity(env, core).core)
  {
    ScalarIsAccounted(env, env.host, 31, core);
    NamesAdvance(env, NAME_NODES, ReadScalar(env, env.host, 31, core).core);
  }

  predicate StateAdvance(env: Environment, before: State, after: State) {
    Accounted(env, after.core) && Weight(before) <= Weight(after)
  }

  lemma CheckAdvances(env: Environment, replay: bool, before: Core, header: Core, state: State, identity: Identity,
                      found: Match)
    requires ValidEnvironment(env) && Accounted(env, state.core)
    requires FinishCheck(env, replay, before, header, state, identity, found).Proceed?
    ensures StateAdvance(env, state, FinishCheck(env, replay, before, header, state, identity, found).state)
  {
    var decision := Decide(identity, found);
    if decision.Wanted? {
      var type_ := env.types(decision.ordinal);
      FieldsAreAccounted(env, type_.shapes, PayloadFields(type_.isText), state.core);
    }
  }

  lemma RowAdvances(env: Environment, replay: bool, state: State)
    requires ValidEnvironment(env) && Accounted(env, state.core) && ReadRow(env, replay, state).Proceed?
    ensures StateAdvance(env, state, ReadRow(env, replay, state).state)
  {
    var before := state.core.(row := Some(|state.core.rows|));
    var step := ReadIdentity(env, before);
    IdentityAdvances(env, before);
    var answer := env.query(step.identity.names);
    CheckAdvances(env, replay, before, step.core, Charged(state, step.core, step.identity, answer.cost), step.identity,
                  answer.found);
  }

  ghost predicate AdvancesAlways(env: Environment, step: State -> StateStep) {
    forall s: State {:trigger step(s)} :: Accounted(env, s.core) && step(s).Proceed? ==>
      StateAdvance(env, s, step(s).state)
  }

  lemma RowsAdvanceAlways(env: Environment, replay: bool)
    requires ValidEnvironment(env)
    ensures AdvancesAlways(env, RowStep(env, replay))
  {
    forall s: State | Accounted(env, s.core) && RowStep(env, replay)(s).Proceed?
      ensures StateAdvance(env, s, RowStep(env, replay)(s).state)
    {
      RowAdvances(env, replay, s);
    }
  }

  lemma {:induction false} IterationAdvances(env: Environment, step: State -> StateStep, count: nat, state: State)
    requires AdvancesAlways(env, step) && Accounted(env, state.core) && Iterate(step, count, state).Proceed?
    ensures StateAdvance(env, state, Iterate(step, count, state).state)
    decreases count
  {
    if count > 0 {
      IterationAdvances(env, step, count - 1, step(state).state);
    }
  }

  lemma CountAdvances(env: Environment, node: nat, maximum: nat, limit: Reason, core: Core)
    requires ValidEnvironment(env) && Accounted(env, core) && ReadCount(env, node, maximum, limit, core).Counted?
    ensures Advance(env, core, ReadCount(env, node, maximum, limit, core).core)
  {
    ScalarIsAccounted(env, env.host, node, core);
  }

  lemma HostAdvances(env: Environment, core: Core)
    requires ValidEnvironment(env) && Accounted(env, core) && ReadHost(env, core).Counted?
    ensures Advance(env, core, ReadHost(env, core).core)
  {
    FieldsAreAccounted(env, env.host, HostFields(), core);
    var core1 := ReadFields(env, env.host, HostFields(), core).core;
    CountAdvances(env, 22, env.limits.maxElements, ElementLimit, core1);
    var step := ReadCount(env, 22, env.limits.maxElements, ElementLimit, core1);
    FieldsAreAccounted(env, env.host, Repeated(RidField(24), step.count), step.core);
  }

  lemma HeadAdvances(env: Environment, core: Core)
    requires ValidEnvironment(env) && Accounted(env, core) && ReadHead(env, core).Counted?
    ensures Advance(env, core, ReadHead(env, core).core)
  {
    ScalarIsAccounted(env, env.host, 26, core);
    CountAdvances(env, 29, env.limits.maxRows, RowLimit, ReadScalar(env, env.host, 26, core).core);
  }

  /** The values of a parsed payload tile it from end to end, and its size is exactly its strings, scalars and
      padding with four length bytes for each string. */
  lemma PayloadIsAccounted(env: Environment, replay: bool, state: State)
    requires ValidEnvironment(env) && Accounted(env, state.core) && ParsePayload(env, replay, state).Parsed?
    ensures var core := ParsePayload(env, replay, state).state.core;
            && Meta.Tiles(Meta.Sources(core.values), env.start, env.end)
            && env.end - env.start == core.strings + core.scalars + core.padding + 4 * StringCount(core.values)
    ensures Weight(state) <= Weight(ParsePayload(env, replay, state).state)
  {
    HostAdvances(env, state.core);
    var host := ReadHost(env, state.core).core;
    HeadAdvances(env, host);
    var head := ReadHead(env, host);
    RowsAdvanceAlways(env, replay);
    IterationAdvances(env, RowStep(env, replay), head.count, state.(core := head.core));
  }

  // ----- The measuring pass has no internal error -----

  lemma FieldFailsHonestly(env: Environment, shapes: Shapes, field: Field, core: Core)
    requires ValidEnvironment(env)
    ensures ReadField(env, shapes, field, core) != Stop(InternalError)
  {
  }

  lemma {:induction false} FieldsFailHonestly(env: Environment, shapes: Shapes, fields: seq<Field>, core: Core)
    requires ValidEnvironment(env)
    ensures ReadFields(env, shapes, fields, core) != Stop(InternalError)
    decreases fields
  {
    if fields != [] {
      FieldFailsHonestly(env, shapes, fields[0], core);
      var step := ReadField(env, shapes, fields[0], core);
      if step.Next? {
        FieldsFailHonestly(env, shapes, fields[1..], step.core);
      }
    }
  }

  lemma {:induction false} NamesFailHonestly(env: Environment, nodes: seq<nat>, core: Core)
    requires ValidEnvironment(env)
    ensures ReadNames(env, nodes, core) != Refused(InternalError)
    decreases nodes
  {
    if nodes != [] {
      FieldFailsHonestly(env, env.host, TextField(nodes[0]), core);
      var step := ReadName(env, nodes[0], core);
      if step.Got? {
        NamesFailHonestly(env, nodes[1..], step.core);
      }
    }
  }

  lemma RowFailsHonestly(env: Environment, state: State)
    requires ValidEnvironment(env)
    ensures ReadRow(env, false, state) != Halt(InternalError)
  {
    var before := state.core.(row := Some(|state.core.rows|));
    var rid := ReadScalar(env, env.host, 31, before);
    FieldFailsHonestly(env, env.host, ScalarField(31), before);
    if rid.Next? {
      NamesFailHonestly(env, NAME_NODES, rid.core);
      var step := ReadIdentity(env, before);
      if step.Identified? {
        CheckFailsHonestly(env, before, step.core, state, step.identity);
      }
    }
  }

  lemma CheckFailsHonestly(env: Environment, before: Core, header: Core, state: State, identity: Identity)
    requires ValidEnvironment(env) && |identity.names| == 3
    ensures CheckRow(env, false, before, header, state, identity) != Halt(InternalError)
  {
    var answer := env.query(identity.names);
    if answer.Answer? && Decide(identity, answer.found).Wanted? {
      var t := env.types(Decide(identity, answer.found).ordinal);
      if t.Qualified? {
        FieldsFailHonestly(env, t.shapes, PayloadFields(t.isText), Charged(state, header, identity, answer.cost).core);
      }
    }
  }

  /** A step that never reports an internal error. */
  ghost predicate FailsHonestly(step: State -> StateStep) {
    forall s: State {:trigger step(s)} :: step(s) != Halt(InternalError)
  }

  lemma {:induction false} IterationFailsHonestly(step: State -> StateStep, count: nat, state: State)
    requires FailsHonestly(step)
    ensures Iterate(step, count, state) != Halt(InternalError)
    decreases count
  {
    if count > 0 && step(state).Proceed? {
      IterationFailsHonestly(step, count - 1, step(state).state);
    }
  }

  lemma RowsFailHonestly(env: Environment, count: nat, state: State)
    requires ValidEnvironment(env)
    ensures ReadRows(env, false, count, state) != Halt(InternalError)
  {
    forall s: State ensures RowStep(env, false)(s) != Halt(InternalError) {
      RowFailsHonestly(env, s);
    }
    IterationFailsHonestly(RowStep(env, false), count, state);
  }

  /** A measuring pass never reports an internal error. */
  lemma PayloadFailsHonestly(env: Environment, state: State)
    requires ValidEnvironment(env)
    ensures ParsePayload(env, false, state) != Unparsed(InternalError)
  {
    var host := ReadHost(env, state.core);
    HostFailsHonestly(env, state.core);
    if host.Counted? {
      RegistryFailsHonestly(env, host.count, host.ordinal, state.(core := host.core));
    }
  }

  lemma RegistryFailsHonestly(env: Environment, elements: nat, elementsValue: nat, state: State)
    requires ValidEnvironment(env)
    ensures ParseRegistry(env, false, elements, elementsValue, state) != Unparsed(InternalError)
  {
    var head := ReadHead(env, state.core);
    HeadFailsHonestly(env, state.core);
    if head.Counted? {
      RowsFailHonestly(env, head.count, state.(core := head.core));
    }
  }

  lemma HeadFailsHonestly(env: Environment, core: Core)
    requires ValidEnvironment(env)
    ensures ReadHead(env, core) != Uncounted(InternalError)
  {
    var version := ReadScalar(env, env.host, 26, core);
    FieldFailsHonestly(env, env.host, ScalarField(26), core);
    if version.Next? {
      FieldFailsHonestly(env, env.host, ScalarField(29), version.core);
    }
  }

  lemma HostFailsHonestly(env: Environment, core: Core)
    requires ValidEnvironment(env)
    ensures ReadHost(env, core) != Uncounted(InternalError)
  {
    FieldsFailHonestly(env, env.host, HostFields(), core);
    var fields := ReadFields(env, env.host, HostFields(), core);
    if fields.Next? {
      FieldFailsHonestly(env, env.host, ScalarField(22), fields.core);
      var count := ReadCount(env, 22, env.limits.maxElements, ElementLimit, fields.core);
      if count.Counted? {
        FieldsFailHonestly(env, env.host, Repeated(RidField(24), count.count), count.core);
      }
    }
  }
}

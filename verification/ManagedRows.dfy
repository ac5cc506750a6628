/** The registry of a managed payload: identities, the cache of selected types, and why a replay over the
    finished cache cannot disagree with the measuring pass (src/io/serialized_file_managed_values.c). */
module ManagedRows {
  import opened Bytes
  import Meta = MetadataReader
  import opened Managed

  // ----- Identities -----

  /** A registry identifier with its class name, namespace and assembly name. */
  datatype Identity = Identity(rid: u64, names: seq<seq<byte>>)

  datatype IdentityStep = Identified(identity: Identity, core: Core) | Unidentified(reason: Reason)

  lemma TextIsCommitted(env: Environment, node: nat, core: Core)
    requires ValidEnvironment(env) && ReadText(env, node, core).Next?
    ensures var c := ReadText(env, node, core).core;
            && |c.values| == |core.values| + 1 && c.values[..|core.values|] == core.values
            && c.values[|core.values|].value.Text? && c.slots == core.slots && c.rows == core.rows && c.row == core.row
            && c.values[|core.values|].value.text.offset + c.values[|core.values|].value.text.size <= env.end
  {
  }

  /** The bytes of the string just read. */
  function LastText(env: Environment, core: Core): seq<byte>
    requires ValidEnvironment(env) && core.values != [] && core.values[|core.values| - 1].value.Text?
  {
    var span := core.values[|core.values| - 1].value.text;
    if span.offset + span.size > |env.bytes| then [] else SpanBytes(env, span)
  }

  function ReadName(env: Environment, node: nat, core: Core): (r: Read<seq<byte>>)
    requires ValidEnvironment(env)
    ensures r.Got? ==> ReadText(env, node, core) == Next(r.core)
  {
    match ReadText(env, node, core)
    case Stop(reason) => Refused(reason)
    case Next(core1) =>
      TextIsCommitted(env, node, core);
      Got(LastText(env, core1), core1)
  }

  const NAME_NODES := [33, 37, 41]

  function ReadNames(env: Environment, nodes: seq<nat>, core: Core): (r: Read<seq<seq<byte>>>)
    requires ValidEnvironment(env)
    ensures r.Got? ==> |r.value| == |nodes|
  {
    if nodes == [] then Got([], core)
    else
      match ReadName(env, nodes[0], core)
      case Refused(reason) => Refused(reason)
      case Got(name, core1) =>
        match ReadNames(env, nodes[1..], core1)
        case Refused(reason) => Refused(reason)
        case Got(names, next) => Got([name] + names, next)
  }

  function ReadIdentity(env: Environment, core: Core): (r: IdentityStep)
    requires ValidEnvironment(env)
    ensures r.Identified? ==> |r.identity.names| == 3
  {
    match ReadScalar(env, env.host, 31, core)
    case Stop(reason) => Unidentified(reason)
    case Next(core1) =>
      ScalarIsCommitted(env, env.host, 31, core);
      match ReadNames(env, NAME_NODES, core1)
      case Refused(reason) => Unidentified(reason)
      case Got(names, next) => Identified(Identity(LastBits(core1), names), next)
  }

  predicate IsEmpty(identity: Identity) {
    forall name {:trigger name in identity.names} :: name in identity.names ==> name == []
  }

  function TerminatorNames(): (r: seq<seq<byte>>)
    ensures |r| == 3
  {
    [Ascii("Terminus"), Ascii("UnityEngine.DMAT"), Ascii("FAKE_ASM")]
  }

  datatype Verdict = Verdict(same: bool, cost: nat)

  /** Compare names one after the other: one unit for a length, and the length for the bytes. */
  function CompareNames(names: seq<seq<byte>>, targets: seq<seq<byte>>): (r: Verdict)
    requires |names| == |targets|
    ensures r.same <==> names == targets
  {
    if names == [] then Verdict(true, 0)
    else if |names[0]| != |targets[0]| then Verdict(false, 1)
    else if names[0] != targets[0] then Verdict(false, 1 + |targets[0]|)
    else
      var rest := CompareNames(names[1..], targets[1..]);
      assert names == [names[0]] + names[1..] && targets == [targets[0]] + targets[1..];
      Verdict(rest.same, 1 + |targets[0]| + rest.cost)
  }

  // ----- Selecting a type -----

  datatype Selection = Found(index: nat, cache: seq<nat>, cost: nat) | Unselected(reason: Reason)

  /** The first place of an ordinal in the cache. */
  function IndexOf(cache: seq<nat>, ordinal: nat): (r: Option<nat>)
    ensures r.None? <==> ordinal !in cache
    ensures r.Some? ==> r.value < |cache| && cache[r.value] == ordinal && ordinal !in cache[..r.value]
  {
    if cache == [] then None
    else if cache[0] == ordinal then Some(0)
    else
      match IndexOf(cache[1..], ordinal)
      case None => None
      case Some(i) =>
        assert cache[..i + 1] == [cache[0]] + cache[1..][..i];
        Some(i + 1)
  }

  /** The bytes the cached types retain. */
  function RetainedTypes(env: Environment, cache: seq<nat>): nat {
    if cache == [] then 0
    else
      var t := env.types(cache[|cache| - 1]);
      RetainedTypes(env, cache[..|cache| - 1]) + (if t.Qualified? then t.retained else 0)
  }

  /** `select_schema`: search the cache, and on the measuring pass compile a type not seen before. */
  function Select(env: Environment, replay: bool, cache: seq<nat>, ordinal: nat): Selection {
    match IndexOf(cache, ordinal)
    case Some(i) => Found(i, cache, i + 1)
    case None =>
      if replay then Unselected(InternalError)
      else if |cache| >= env.limits.maxTypes then Unselected(TypeLimit)
      else
        match env.types(ordinal)
        case Unqualified(_) => Unselected(TypeRejected)
        case Qualified(_, _, cost, retained) =>
          if env.prerequisites + RetainedTypes(env, cache) + retained > env.limits.maxPrerequisites
          then Unselected(PrerequisiteLimit)
          else Found(|cache|, cache + [ordinal], |cache| + cost)
  }

  // ----- Rows -----

  /** A parse: its core, the cache of selected types, and the work spent on selecting. */
  datatype State = State(core: Core, cache: seq<nat>, selecting: nat)

  function Weight(state: State): nat {
    CoreWeight(state.core) + state.selecting
  }

  predicate StateBelow(before: State, after: State) {
    && Weight(before) <= Weight(after) && |before.core.values| <= |after.core.values|
    && |before.core.slots| <= |after.core.slots| && |before.core.rows| <= |after.core.rows|
  }

  datatype StateStep = Proceed(state: State) | Halt(reason: Reason)

  datatype Decision = Empty | Wanted(ordinal: nat) | Rejected(reason: Reason)

  /** What a row's identity and its match in the reference index make of it. */
  function Decide(identity: Identity, found: Match): Decision {
    if identity.rid == NULL_RID && IsEmpty(identity) && found.Missing? then Empty
    else if IsEmpty(identity) && found.Missing? then Rejected(BadNullRow)
    else
      match found
      case Missing => Rejected(TypeMissing)
      case Ambiguous => Rejected(TypeAmbiguous)
      case Unique(ordinal) => Wanted(ordinal)
  }

  function PayloadFields(isText: bool): seq<Field> {
    if isText then [ScalarField(1), TextField(2), RidField(7)] else [ScalarField(1), ScalarField(2), RidField(4)]
  }

  function FinishRow(before: Core, header: Core, core: Core, kind: Kind, identity: Identity, found: Match): Core {
    var payload :=
      Meta.Span(header.position, if core.position < header.position then 0 else core.position - header.position);
    var source :=
      Meta.Span(before.position, if core.position < before.position then 0 else core.position - before.position);
    core.(rows := core.rows + [RegistryRow(kind, identity.rid, found, |before.values|, |header.values|, |core.values|,
                                           payload, source)])
  }

  /** Selecting a type as a step of the parse. */
  function SelectStep(env: Environment, replay: bool, state: State, ordinal: nat): StateStep {
    match Select(env, replay, state.cache, ordinal)
    case Unselected(reason) => Halt(reason)
    case Found(_, cache, cost) => Proceed(State(state.core, cache, state.selecting + cost))
  }

  /** The part of a row behind its identity. */
  function ReadSelected(env: Environment, replay: bool, before: Core, header: Core, state: State, identity: Identity,
                        ordinal: nat): StateStep
    requires ValidEnvironment(env)
  {
    match Select(env, replay, state.cache, ordinal)
    case Unselected(reason) => Halt(reason)
    case Found(index, cache, cost) =>
      ReadSelectedPayload(env, before, header, State(state.core, cache, state.selecting + cost), identity, ordinal,
                          index)
  }

  /** The payload of a selected type. */
  function ReadSelectedPayload(env: Environment, before: Core, header: Core, state: State, identity: Identity,
                               ordinal: nat, index: nat): StateStep
    requires ValidEnvironment(env)
  {
    match env.types(ordinal)
    case Unqualified(_) => Halt(TypeRejected)
    case Qualified(shapes, isText, _, _) =>
      match ReadFields(env, shapes, PayloadFields(isText), state.core)
      case Stop(reason) => Halt(reason)
      case Next(core) =>
        Proceed(state.(core := FinishRow(before, header, core, Payload(index), identity, Unique(ordinal))))
  }

  function ReadRow(env: Environment, replay: bool, state: State): StateStep
    requires ValidEnvironment(env)
  {
    var before := state.core.(row := Some(|state.core.rows|));
    match ReadIdentity(env, before)
    case Unidentified(reason) => Halt(reason)
    case Identified(identity, header) => CheckRow(env, replay, before, header, state, identity)
  }

  /** A row once its identity is read: the terminator, the reference index, then the payload. */
  function CheckRow(env: Environment, replay: bool, before: Core, header: Core, state: State,
                    identity: Identity): StateStep
    requires ValidEnvironment(env) && |identity.names| == 3
  {
    if CompareNames(identity.names, TerminatorNames()).same then Halt(Terminator)
    else
      match env.query(identity.names)
      case QueryRefused(_) => Halt(QueryFailed)
      case Answer(found, cost) =>
        FinishCheck(env, replay, before, header, Charged(state, header, identity, cost), identity, found)
  }

  /** The state behind the identity, with the work of comparing names and asking the index. */
  function Charged(state: State, header: Core, identity: Identity, cost: nat): State
    requires |identity.names| == 3
  {
    state.(core := header.(extra := header.extra + CompareNames(identity.names, TerminatorNames()).cost + cost))
  }

  function FinishCheck(env: Environment, replay: bool, before: Core, header: Core, state: State, identity: Identity,
                       found: Match)
    : StateStep
    requires ValidEnvironment(env)
  {
    match Decide(identity, found)
    case Rejected(reason) => Halt(reason)
    case Empty => Proceed(state.(core := FinishRow(before, header, state.core, NullRow, identity, found)))
    case Wanted(ordinal) => ReadSelected(env, replay, before, header, state, identity, ordinal)
  }

  /** Run a step `count` times. */
  function Iterate(step: State -> StateStep, count: nat, state: State): StateStep {
    if count == 0 then Proceed(state)
    else
      match step(state)
      case Halt(reason) => Halt(reason)
      case Proceed(next) => Iterate(step, count - 1, next)
  }

  function RowStep(env: Environment, replay: bool): State -> StateStep
    requires ValidEnvironment(env)
  {
    state => ReadRow(env, replay, state)
  }

  function ReadRows(env: Environment, replay: bool, count: nat, state: State): StateStep
    requires ValidEnvironment(env)
  {
    Iterate(RowStep(env, replay), count, state)
  }

  // ----- The replay -----

  predicate Distinct(cache: seq<nat>) {
    forall i, j :: 0 <= i < j < |cache| ==> cache[i] != cache[j]
  }

  lemma SelectGrows(env: Environment, cache: seq<nat>, ordinal: nat)
    requires Distinct(cache) && Select(env, false, cache, ordinal).Found?
    ensures var s := Select(env, false, cache, ordinal); Distinct(s.cache) && cache <= s.cache
  {
  }

  /** On the finished cache every selection finds the index it had when the cache was growing. */
  lemma SelectReplays(env: Environment, cache: seq<nat>, all: seq<nat>, ordinal: nat)
    requires Distinct(all) && Select(env, false, cache, ordinal).Found?
      && Select(env, false, cache, ordinal).cache <= all
    ensures var s := Select(env, false, cache, ordinal);
      Select(env, true, all, ordinal) == Found(s.index, all, s.index + 1)
  {
    var s := Select(env, false, cache, ordinal);
    assert s.cache[s.index] == ordinal && all[s.index] == ordinal;
    OnePlace(all, IndexOf(all, ordinal).value, s.index);
  }

  lemma OnePlace(cache: seq<nat>, i: nat, j: nat)
    requires Distinct(cache) && i < |cache| && j < |cache| && cache[i] == cache[j]
    ensures i == j
  {
  }

  /** The states of the two passes: one parse, with the finished cache in the second. */
  predicate Mirrors(measured: State, replayed: State, all: seq<nat>) {
    replayed.core == measured.core && replayed.cache == all && measured.cache <= all
  }

  predicate StepMirrors(measured: StateStep, replayed: StateStep, all: seq<nat>) {
    measured.Proceed? && measured.state.cache <= all ==>
      replayed.Proceed? && Mirrors(measured.state, replayed.state, all)
  }

  lemma SelectedReplays(env: Environment, before: Core, header: Core, measured: State, replayed: State,
                        identity: Identity, ordinal: nat, all: seq<nat>)
    requires ValidEnvironment(env) && Distinct(all) && Mirrors(measured, replayed, all)
    ensures StepMirrors(ReadSelected(env, false, before, header, measured, identity, ordinal),
                        ReadSelected(env, true, before, header, replayed, identity, ordinal), all)
  {
    var s := Select(env, false, measured.cache, ordinal);
    if s.Found? && s.cache <= all {
      SelectReplays(env, measured.cache, all, ordinal);
    }
  }

  lemma RowReplays(env: Environment, measured: State, replayed: State, all: seq<nat>)
    requires ValidEnvironment(env) && Distinct(all) && Mirrors(measured, replayed, all)
    ensures StepMirrors(ReadRow(env, false, measured), ReadRow(env, true, replayed), all)
  {
    var before := measured.core.(row := Some(|measured.core.rows|));
    var step := ReadIdentity(env, before);
    if step.Identified? {
      CheckRowReplays(env, before, step.core, measured, replayed, step.identity, all);
    }
  }

  lemma CheckRowReplays(env: Environment, before: Core, header: Core, measured: State, replayed: State,
                        identity: Identity, all: seq<nat>)
    requires ValidEnvironment(env) && Distinct(all) && Mirrors(measured, replayed, all) && |identity.names| == 3
    ensures StepMirrors(CheckRow(env, false, before, header, measured, identity),
                        CheckRow(env, true, before, header, replayed, identity), all)
  {
    var answer := env.query(identity.names);
    if answer.Answer? {
      var m, r := Charged(measured, header, identity, answer.cost), Charged(replayed, header, identity, answer.cost);
      CheckReplays(env, before, header, m, r, identity, answer.found, all);
    }
  }

  lemma CheckReplays(env: Environment, before: Core, header: Core, measured: State, replayed: State, identity: Identity,
                     found: Match, all: seq<nat>)
    requires ValidEnvironment(env) && Distinct(all) && Mirrors(measured, replayed, all)
    ensures StepMirrors(FinishCheck(env, false, before, header, measured, identity, found),
                        FinishCheck(env, true, before, header, replayed, identity, found), all)
  {
    if Decide(identity, found).Wanted? {
      SelectedReplays(env, before, header, measured, replayed, identity, Decide(identity, found).ordinal, all);
    }
  }

  lemma RowGrows(env: Environment, state: State)
    requires ValidEnvironment(env) && Distinct(state.cache) && ReadRow(env, false, state).Proceed?
    ensures var s := ReadRow(env, false, state).state; Distinct(s.cache) && state.cache <= s.cache
  {
    var before := state.core.(row := Some(|state.core.rows|));
    var identity := ReadIdentity(env, before).identity;
    var answer := env.query(identity.names);
    var decision := Decide(identity, answer.found);
    if decision.Wanted? {
      SelectGrows(env, state.cache, decision.ordinal);
    }
  }

  /** A step that keeps the cache distinct and only extends it. */
  ghost predicate Grows(step: State -> StateStep) {
    forall s: State {:trigger step(s)} :: Distinct(s.cache) && step(s).Proceed? ==>
      Distinct(step(s).state.cache) && s.cache <= step(s).state.cache
  }

  /** A measuring step and its replay. */
  ghost predicate Replays(measure: State -> StateStep, replay: State -> StateStep, all: seq<nat>) {
    forall m: State, r: State {:trigger measure(m), replay(r)} :: Mirrors(m, r, all) ==>
      StepMirrors(measure(m), replay(r), all)
  }

  lemma RowsAreSteps(env: Environment, all: seq<nat>)
    requires ValidEnvironment(env) && Distinct(all)
    ensures Grows(RowStep(env, false)) && Replays(RowStep(env, false), RowStep(env, true), all)
  {
    forall s: State | Distinct(s.cache) && RowStep(env, false)(s).Proceed?
      ensures Distinct(RowStep(env, false)(s).state.cache) && s.cache <= RowStep(env, false)(s).state.cache
    {
      RowGrows(env, s);
    }
    forall m: State, r: State | Mirrors(m, r, all)
      ensures StepMirrors(RowStep(env, false)(m), RowStep(env, true)(r), all) {
      RowReplays(env, m, r, all);
    }
  }

  lemma {:induction false} IterationGrows(step: State -> StateStep, count: nat, state: State)
    requires Grows(step) && Distinct(state.cache) && Iterate(step, count, state).Proceed?
    ensures var s := Iterate(step, count, state).state; Distinct(s.cache) && state.cache <= s.cache
    decreases count
  {
    if count > 0 {
      IterationGrows(step, count - 1, step(state).state);
    }
  }

  lemma {:induction false} IterationReplays(measure: State -> StateStep, replay: State -> StateStep, count: nat,
                                            measured: State, replayed: State, all: seq<nat>)
    requires Grows(measure) && Replays(measure, replay, all) && Distinct(measured.cache)
      && Mirrors(measured, replayed, all)
    ensures StepMirrors(Iterate(measure, count, measured), Iterate(replay, count, replayed), all)
    decreases count
  {
    var whole := Iterate(measure, count, measured);
    if count > 0 && whole.Proceed? && whole.state.cache <= all {
      var step := measure(measured);
      IterationGrows(measure, count - 1, step.state);
      PrefixChain(step.state.cache, whole.state.cache, all);
      assert StepMirrors(step, replay(replayed), all);
      IterationReplays(measure, replay, count - 1, step.state, replay(replayed).state, all);
    }
  }

  lemma PrefixChain(a: seq<nat>, b: seq<nat>, c: seq<nat>)
    requires a <= b <= c
    ensures a <= c
  {
  }
}

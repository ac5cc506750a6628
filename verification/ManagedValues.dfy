/** Creating managed values: measure, allocate, replay, resolve (src/io/serialized_file_managed_values.c). */
module ManagedValues {
  import opened Bytes
  import opened MatchTally
  import opened Managed
  import opened ManagedRows
  import opened ManagedPayload
  import opened ManagedPayloadWire
  import opened ManagedScan
  import opened ManagedTables
  import Storage = RetainedStorage

  // ----- Resolving identifier slots -----

  /** Which rows have this identifier. */
  function RidFlags(bits: u64, rows: seq<RegistryRow>): (r: seq<bool>)
    ensures |r| == |rows|
  {
    seq(|rows|, i requires 0 <= i < |rows| => rows[i].ridBits == bits)
  }

  function TallyRows(bits: u64, rows: seq<RegistryRow>): Tally {
    TallyOf(RidFlags(bits, rows))
  }

  datatype Resolution = Unresolved | Several | NullReference | OneRow

  function Resolve(t: Tally, rows: seq<RegistryRow>): Resolution {
    if t.count == 0 then Unresolved
    else if t.count > 1 || t.first.None? || t.first.value >= |rows| then Several
    else if rows[t.first.value].kind.NullRow? then NullReference
    else OneRow
  }

  /** A slot is resolved exactly when one row has its identifier, to that row and its kind. */
  lemma ResolutionIsExact(bits: u64, rows: seq<RegistryRow>)
    ensures var verdict := Resolve(TallyRows(bits, rows), rows);
            && (verdict == Unresolved <==> forall i {:trigger rows[i]} :: 0 <= i < |rows| ==> rows[i].ridBits != bits)
            && (verdict == OneRow || verdict == NullReference ==>
                  var t := TallyRows(bits, rows);
                  t.first.Some? && t.first.value < |rows| && rows[t.first.value].ridBits == bits
                  && (verdict == NullReference <==> rows[t.first.value].kind.NullRow?)
                  && forall i {:trigger rows[i]} :: 0 <= i < |rows| && rows[i].ridBits == bits ==> i == t.first.value)
            && (verdict == Several ==>
                  exists i, j {:trigger rows[i], rows[j]} ::
                    0 <= i < j < |rows| && rows[i].ridBits == bits && rows[j].ridBits == bits)
  {
    var flags, t := RidFlags(bits, rows), TallyRows(bits, rows);
    TallyMeans(flags);
    if t.count == 0 {
      forall i | 0 <= i < |rows| ensures rows[i].ridBits != bits {
        assert flags[i] in flags;
      }
    } else {
      var first := t.first.value;
      assert rows[first].ridBits == bits;
      if t.count == 1 {
        forall i | 0 <= i < |rows| ensures rows[i].ridBits == bits ==> i == first {
          OnlyMatch(flags, i);
        }
      } else {
        assert rows[t.second.value].ridBits == bits;
      }
    }
  }

  /** One slot against every row, one unit each, and one more for its verdict. */
  method TallySlot(bits: u64, rows: seq<RegistryRow>, maxWork: nat, work: nat) returns (ok: bool, t: Tally, spent: nat)
    requires work <= maxWork
    ensures ok == (work + |rows| + 1 <= maxWork) && work <= spent <= maxWork
    ensures ok ==> t == TallyRows(bits, rows) && spent == work + |rows| + 1
  {
    t, spent := Tally(0, None, None), work;
    ghost var flags := RidFlags(bits, rows);
    for row := 0 to |rows|
      invariant spent == work + row && spent <= maxWork && t == TallyOf(flags[..row])
    {
      if 1 > maxWork - spent {
        return false, t, spent;
      }
      spent := spent + 1;
      NextFlag(flags, row);
      t := Count(t, row, rows[row].ridBits == bits);
    }
    assert flags[..|rows|] == flags;
    if 1 > maxWork - spent {
      return false, t, spent;
    }
    return true, t, spent + 1;
  }

  /** Every slot's tally, in order. */
  function Tallies(slots: seq<Slot>, rows: seq<RegistryRow>): (r: seq<Tally>)
    ensures |r| == |slots|
  {
    if slots == [] then [] else Tallies(slots[..|slots| - 1], rows) + [TallyRows(slots[|slots| - 1].bits, rows)]
  }

  function CountOf(slots: seq<Slot>, rows: seq<RegistryRow>, wanted: Resolution): nat {
    if slots == [] then 0
    else
      CountOf(slots[..|slots| - 1], rows, wanted)
      + (if Resolve(TallyRows(slots[|slots| - 1].bits, rows), rows) == wanted then 1 else 0)
  }

  datatype Resolved = Resolved(tallies: seq<Tally>, missing: nat, ambiguous: nat)

  /** `resolve_slots`: exactly one unit for each slot and row, and one for each slot. */
  method ResolveSlots(slots: seq<Slot>, rows: seq<RegistryRow>, maxWork: nat, work: nat)
    returns (ok: bool, resolved: Resolved, spent: nat)
    requires work <= maxWork
    ensures ok == (work + |slots| * (|rows| + 1) <= maxWork) && work <= spent <= maxWork
    ensures ok ==>
      resolved == Resolved(Tallies(slots, rows), CountOf(slots, rows, Unresolved), CountOf(slots, rows, Several))
    ensures ok ==> spent == work + |slots| * (|rows| + 1)
  {
    spent := work;
    resolved := Resolved([], 0, 0);
    assert slots[..0] == [];
    for i := 0 to |slots|
      invariant spent == work + i * (|rows| + 1) && work <= spent <= maxWork
      invariant resolved ==
        Resolved(Tallies(slots[..i], rows), CountOf(slots[..i], rows, Unresolved), CountOf(slots[..i], rows, Several))
    {
      NextProduct(i, |slots|, |rows| + 1);
      assert slots[..i + 1][..i] == slots[..i];
      var t;
      ok, t, spent := TallySlot(slots[i].bits, rows, maxWork, spent);
      if !ok {
        return;
      }
      var verdict := Resolve(t, rows);
      resolved := Resolved(resolved.tallies + [t], resolved.missing + (if verdict == Unresolved then 1 else 0),
                           resolved.ambiguous + (if verdict == Several then 1 else 0));
    }
    assert slots[..|slots|] == slots;
    ok := true;
  }

  lemma NextProduct(i: nat, n: nat, width: nat)
    requires i < n
    ensures (i + 1) * width == i * width + width && (i + 1) * width <= n * width
  {
    Bytes.ProductIsMonotone(width, i + 1, n);
  }

  // ----- Two passes -----

  /** What creating managed values is given besides its environment: the storage shape and the outer limits. */
  datatype Plan = Plan(headerSize: nat, arrays: seq<Storage.Array>, maxRetained: nat, maxWork: nat)

  predicate ValidPlan(plan: Plan) {
    |plan.arrays| == 4 && Storage.Aligned(plan.arrays)
  }

  /** The size of the values, selected types, registry rows and slots behind one header. */
  function Retained(plan: Plan, state: State): Option<nat>
    requires ValidPlan(plan)
  {
    Storage.PlanArrays(plan.headerSize, plan.arrays,
                       [|state.core.values|, |state.cache|, |state.core.rows|, |state.core.slots|])
  }

  function Start(env: Environment, cache: seq<nat>): State {
    State(InitialCore(env), cache, 0)
  }

  /** What a pass is charged for. */
  function PassWork(env: Environment, end: State): int {
    Weight(end) - CoreWeight(InitialCore(env))
  }

  const PLANNING_WORK: nat := 4

  /** Every slot against every row, and one verdict each. */
  function ResolvingWork(core: Core): nat {
    Times(|core.slots|, |core.rows| + 1)
  }

  /** A product by repeated addition, which keeps it out of the other sums. */
  function Times(n: nat, width: nat): nat {
    if n == 0 then 0 else Times(n - 1, width) + width
  }

  lemma {:induction false} TimesIsProduct(n: nat, width: nat)
    ensures Times(n, width) == n * width
  {
    if n > 0 {
      TimesIsProduct(n - 1, width);
    }
  }

  /** The whole charge of a successful creation after its prerequisites: both passes, the plan, the retained
      bytes, the resolution of every slot against every row, and one unit for completion. */
  function TotalWork(env: Environment, plan: Plan, before: nat, planned: State, replayed: State, retained: nat): int {
    before + PassWork(env, planned) + PLANNING_WORK + retained + PassWork(env, replayed)
    + ResolvingWork(planned.core) + 1
  }

  datatype Failure = ParseFailed(reason: Reason) | RetainedLimit | OutOfMemory | OutOfWork

  function FailureOf(reason: Reason): Failure {
    if reason == WorkLimit then OutOfWork else ParseFailed(reason)
  }

  /** The measuring pass and the storage plan. */
  method Measure(env: Environment, plan: Plan, before: nat)
    returns (failure: Option<Failure>, summary: Summary, cache: seq<nat>, work: nat, ghost planned: State)
    requires ValidEnvironment(env) && ValidPlan(plan) && before <= plan.maxWork
    ensures before <= work <= plan.maxWork
    ensures var p := ParsePayload(env, false, Start(env, []));
            && (p.Parsed? ==> planned == p.state)
            && (failure.None? <==>
                  && p.Parsed? && var r := Retained(plan, p.state);
                     r.Some? && r.value <= plan.maxRetained
                     && before + PassWork(env, p.state) + PLANNING_WORK + r.value <= plan.maxWork)
            && (failure.None? ==>
                  && summary == SummaryOf(p.view, p.state) && cache == p.state.cache
                  && work == before + PassWork(env, p.state) + PLANNING_WORK + Retained(plan, p.state).value)
            && (failure.Some? && failure.value.ParseFailed? ==> p == Unparsed(failure.value.reason))
    ensures failure != Some(ParseFailed(InternalError))
  {
    PayloadFailsHonestly(env, Start(env, []));
    ghost var p := ParsePayload(env, false, Start(env, []));
    PayloadWeighs(env, false, Start(env, []));
    var tables := new Tables(0, 0, 0);
    var nothing := SummaryOf(View(0, 0, 0, 0, 0, 0), Start(env, []));
    var build := new Build(env, plan.maxWork, tables, false, nothing, [], before);
    var ok, view := build.ReadPayload();
    summary, cache := SummaryOf(view, State(build.core, build.cache, 0)), build.cache;
    planned := if p.Parsed? then p.state else build.Now();
    if !ok {
      return Some(FailureOf(build.reason)), summary, cache, build.work, planned;
    }
    failure, work := PlanStorage(plan, summary, build.work, planned);
  }

  /** `plan_array` for each table, the retained limit and the charge for the retained bytes. */
  method PlanStorage(plan: Plan, summary: Summary, before: nat, ghost planned: State)
    returns (failure: Option<Failure>, work: nat)
    requires ValidPlan(plan) && before <= plan.maxWork && summary == SummaryOf(summary.view, planned)
    ensures before <= work <= plan.maxWork
    ensures failure.None? <==>
              var r := Retained(plan, planned);
              r.Some? && r.value <= plan.maxRetained && before + PLANNING_WORK + r.value <= plan.maxWork
    ensures failure.None? ==> work == before + PLANNING_WORK + Retained(plan, planned).value
    ensures failure.Some? ==> !failure.value.ParseFailed?
  {
    work := before;
    if PLANNING_WORK > plan.maxWork - work {
      return Some(OutOfWork), work;
    }
    work := work + PLANNING_WORK;
    var size :=
      Storage.PlanArrays(plan.headerSize, plan.arrays, [summary.values, summary.types, summary.rows, summary.slots]);
    if size.None? || size.value > plan.maxRetained {
      return Some(RetainedLimit), work;
    }
    if size.value > plan.maxWork - work {
      return Some(OutOfWork), work;
    }
    return None, work + size.value;
  }

  /** The replay over the finished cache: it reproduces the plan, or the work budget stops it. Even when it
      is stopped early, none of the five internal errors has occurred. */
  method Replay(env: Environment, plan: Plan, summary: Summary, cache: seq<nat>, tables: Tables, before: nat,
                ghost planned: State)
    returns (ok: bool, reason: Reason, work: nat)
    requires ValidEnvironment(env) && before <= plan.maxWork
    requires Measured(env, summary, cache, planned) && Fits(tables, planned.core)
    modifies tables.values, tables.slots, tables.rows
    ensures before <= work <= plan.maxWork
    ensures var replayed := ParsePayload(env, true, Start(env, cache));
            && replayed.Parsed? && replayed.view == summary.view && replayed.state.core == planned.core
            && ok == (before + PassWork(env, replayed.state) <= plan.maxWork)
            && (ok ==> work == before + PassWork(env, replayed.state))
    ensures !ok ==> reason == WorkLimit
    ensures ok ==> Holds(tables, planned.core)
  {
    ReplayAgreesWithPlan(env, InitialCore(env), 0, 0);
    PayloadWeighs(env, true, Start(env, cache));
    var build := new Build(env, plan.maxWork, tables, true, summary, cache, before);
    ghost var replayed := ParsePayload(env, true, Start(env, cache));
    assert build.AsPlanned(replayed);
    var view;
    ok, view := build.ReadPayload();
    reason, work := build.reason, build.work;
    if ok {
      MirroredAll(tables.values, planned.core.values);
      MirroredAll(tables.slots, planned.core.slots);
      MirroredAll(tables.rows, planned.core.rows);
    }
  }

  /** The outcome of a successful measuring pass. */
  predicate Measured(env: Environment, summary: Summary, cache: seq<nat>, planned: State)
    requires ValidEnvironment(env)
  {
    && ParsePayload(env, false, Start(env, [])) == Parsed(summary.view, planned)
    && summary == SummaryOf(summary.view, planned) && cache == planned.cache
  }

  /** Tables with exactly the planned sizes. */
  predicate Fits(tables: Tables, core: Core) {
    && tables.values.Length == |core.values| && tables.slots.Length == |core.slots| && tables.rows.Length == |core.rows|
  }

  predicate CanCreate(env: Environment, plan: Plan, before: nat, memory: bool)
    requires ValidEnvironment(env) && ValidPlan(plan)
  {
    var p := ParsePayload(env, false, Start(env, []));
    var can :=
      && p.Parsed? && memory
      && var retained, replayed := Retained(plan, p.state), ParsePayload(env, true, Start(env, p.state.cache));
         retained.Some? && retained.value <= plan.maxRetained && replayed.Parsed?
         && TotalWork(env, plan, before, p.state, replayed.state, retained.value) <= plan.maxWork;
    can
  }

  /** The result is exactly the measured payload with every slot resolved, at exactly the announced cost. */
  ghost predicate Created(env: Environment, plan: Plan, before: nat, view: View, tables: Tables, resolved: Resolved,
                          work: nat)
    requires ValidEnvironment(env) && ValidPlan(plan)
    reads tables.values, tables.slots, tables.rows
  {
    var p := ParsePayload(env, false, Start(env, []));
    var created :=
      && p.Parsed? && view == p.view
      && Holds(tables, p.state.core) && resolved == ResolvedSlots(p.state.core)
      && var retained, replayed := Retained(plan, p.state), ParsePayload(env, true, Start(env, p.state.cache));
         retained.Some? && replayed.Parsed?
         && work == TotalWork(env, plan, before, p.state, replayed.state, retained.value);
    created
  }

  /** Replay and resolve: only the work budget can stop them. */
  method Complete(env: Environment, plan: Plan, summary: Summary, cache: seq<nat>, tables: Tables, before: nat,
                  ghost planned: State, ghost replayed: State)
    returns (ok: bool, reason: Reason, resolved: Resolved, work: nat)
    requires ValidEnvironment(env) && before <= plan.maxWork
    requires Measured(env, summary, cache, planned) && Fits(tables, planned.core)
    requires ParsePayload(env, true, Start(env, cache)) == Parsed(summary.view, replayed)
    modifies tables.values, tables.slots, tables.rows
    ensures work <= plan.maxWork
    ensures ok == (before + PassWork(env, replayed) + ResolvingWork(planned.core) + 1 <= plan.maxWork)
    ensures ok ==> work == before + PassWork(env, replayed) + ResolvingWork(planned.core) + 1
    ensures !ok ==> reason == WorkLimit
    ensures ok ==> Holds(tables, planned.core)
    ensures ok ==> resolved == ResolvedSlots(planned.core)
  {
    resolved := Resolved([], 0, 0);
    ok, reason, work := Replay(env, plan, summary, cache, tables, before, planned);
    if !ok {
      return;
    }
    reason := WorkLimit;
    TimesIsProduct(|planned.core.slots|, |planned.core.rows| + 1);
    ok, resolved, work := ResolveSlots(tables.slots[..], tables.rows[..], plan.maxWork, work);
    if !ok {
      return;
    }
    if 1 > plan.maxWork - work {
      ok := false;
      return;
    }
    work := work + 1;
  }

  /** Every slot of a parse resolved against every row. */
  function ResolvedSlots(core: Core): Resolved {
    Resolved(Tallies(core.slots, core.rows), CountOf(core.slots, core.rows, Unresolved),
             CountOf(core.slots, core.rows, Several))
  }

  // ----- What is created, from the bytes alone -----

  /** The storage and the work of both passes, the plan and the resolution are within the plan. */
  predicate FitsPlan(env: Environment, plan: Plan, before: nat, state: State)
    requires ValidPlan(plan)
  {
    var core := state.core;
    var pass := core.position - env.start + core.spans + |core.values| + |core.slots| + |core.rows| + core.extra;
    var retained := Retained(plan, state);
    && retained.Some? && retained.value <= plan.maxRetained
    && before + pass + state.selecting + 4 + retained.value + pass + SelectedWork(core.rows)
       + |core.slots| * (|core.rows| + 1) + 1
       <= plan.maxWork
  }

  /** The bytes spell a payload within the limits, and it fits the plan. */
  ghost predicate Creatable(env: Environment, plan: Plan, before: nat)
    requires ValidPlan(plan)
  {
    var creatable :=
      exists view: View, state: State {:trigger PayloadSpelled(env, view, state)} ::
        PayloadSpelled(env, view, state) && FitsPlan(env, plan, before, state);
    creatable
  }

  /** The tables hold the values, slots and rows of a payload that the bytes spell, each of which fits its bytes. */
  ghost predicate SpelledTables(env: Environment, view: View, tables: Tables)
    reads tables.values, tables.slots, tables.rows
  {
    var fit :=
      && TablesFit(env, tables.values[..], tables.slots[..], tables.rows[..])
      && ViewFits(view, tables.values[..], tables.rows[..])
      && exists state: State {:trigger PayloadSpelled(env, view, state)} ::
           PayloadSpelled(env, view, state) && Holds(tables, state.core);
    fit
  }

  ghost predicate Fit(env: Environment, view: View, state: State) {
    var fit :=
      && PayloadSpelled(env, view, state) && TablesFit(env, state.core.values, state.core.slots, state.core.rows)
      && ViewFits(view, state.core.values, state.core.rows);
    fit
  }

  lemma HeldIsSpelled(env: Environment, view: View, state: State, tables: Tables)
    requires Fit(env, view, state) && Holds(tables, state.core)
    ensures SpelledTables(env, view, tables)
  {
  }

  lemma CreatableWhenSpelled(env: Environment, plan: Plan, before: nat)
    requires ValidEnvironment(env) && ValidPlan(plan)
    ensures CanCreate(env, plan, before, true) <==> Creatable(env, plan, before)
    ensures var p := ParsePayload(env, false, Start(env, []));
            p.Parsed? ==> Fit(env, p.view, p.state)
  {
    var p := ParsePayload(env, false, Start(env, []));
    if p.Parsed? {
      PayloadReadsExactly(env, p.view, p.state);
      SpelledTablesFit(env, p.view, p.state);
      PassesCost(env, plan, before, p.state);
    }
    forall view: View, state: State | PayloadSpelled(env, view, state) ensures p == Parsed(view, state) {
      PayloadReadsExactly(env, view, state);
    }
  }

  lemma PassesCost(env: Environment, plan: Plan, before: nat, state: State)
    requires ValidEnvironment(env) && ValidPlan(plan) && ParsePayload(env, false, Start(env, [])).Parsed?
    requires state == ParsePayload(env, false, Start(env, [])).state
    ensures CanCreate(env, plan, before, true) <==> FitsPlan(env, plan, before, state)
  {
    ReplayAgreesWithPlan(env, InitialCore(env), 0, 0);
    ReplayCharges(env, state.cache);
    var replayed := ParsePayload(env, true, Start(env, state.cache)).state;
    WorkInParts(env, plan, before, state, replayed);
  }

  lemma WorkInParts(env: Environment, plan: Plan, before: nat, planned: State, replayed: State)
    requires ValidPlan(plan) && replayed.core == planned.core && replayed.selecting == SelectedWork(planned.core.rows)
    ensures var retained := Retained(plan, planned);
            FitsPlan(env, plan, before, planned)
            <==> retained.Some? && retained.value <= plan.maxRetained
                 && TotalWork(env, plan, before, planned, replayed, retained.value) <= plan.maxWork
  {
    TimesIsProduct(|planned.core.slots|, |planned.core.rows| + 1);
  }

  /** Both passes and the resolution, in the terms of the parse. */
  method CreateTables(env: Environment, plan: Plan, before: nat, memory: bool)
    returns (failure: Option<Failure>, view: View, tables: Tables, resolved: Resolved, work: nat)
    requires ValidEnvironment(env) && ValidPlan(plan) && before <= plan.maxWork
    ensures work <= plan.maxWork
    ensures failure.None? <==> CanCreate(env, plan, before, memory)
    ensures failure.None? ==> Created(env, plan, before, view, tables, resolved, work)
    ensures failure.Some? && failure.value.ParseFailed? ==>
      ParsePayload(env, false, Start(env, [])) == Unparsed(failure.value.reason)
    ensures failure != Some(ParseFailed(InternalError))
  {
    resolved := Resolved([], 0, 0);
    PassesWeigh(env);
    var summary, cache;
    ghost var planned;
    failure, summary, cache, work, planned := Measure(env, plan, before);
    view := summary.view;
    if failure.Some? {
      tables := new Tables(0, 0, 0);
      return;
    }
    ghost var replayed := ParsePayload(env, true, Start(env, cache));
    failure, tables, resolved, work := Finish(env, plan, summary, cache, work, memory, planned, replayed.state);
  }

  /** `serialized_file_managed_values_create` behind its prerequisites. Once the measuring pass has succeeded,
      the only failures left are the retained limit, memory and work. No internal error ever occurs, whether
      the passes finish or not. Creation succeeds exactly where the bytes spell a payload that fits the plan, and the
      tables then say what the bytes say. */
  method CreateManagedValues(env: Environment, plan: Plan, before: nat, memory: bool)
    returns (failure: Option<Failure>, view: View, tables: Tables, resolved: Resolved, work: nat)
    requires ValidEnvironment(env) && ValidPlan(plan) && before <= plan.maxWork
    ensures work <= plan.maxWork
    ensures failure.None? <==> CanCreate(env, plan, before, memory)
    ensures failure.None? ==> Created(env, plan, before, view, tables, resolved, work)
    ensures failure.Some? && failure.value.ParseFailed? ==>
      ParsePayload(env, false, Start(env, [])) == Unparsed(failure.value.reason)
    ensures failure != Some(ParseFailed(InternalError))
    ensures failure.None? <==> memory && Creatable(env, plan, before)
    ensures failure.None? ==> SpelledTables(env, view, tables)
  {
    failure, view, tables, resolved, work := CreateTables(env, plan, before, memory);
    CreatableWhenSpelled(env, plan, before);
    if failure.None? {
      HeldIsSpelled(env, view, ParsePayload(env, false, Start(env, [])).state, tables);
    }
  }

  /** The tables, allocated, filled and resolved. */
  method Finish(env: Environment, plan: Plan, summary: Summary, cache: seq<nat>, before: nat, memory: bool,
                ghost planned: State, ghost replayed: State)
    returns (failure: Option<Failure>, tables: Tables, resolved: Resolved, work: nat)
    requires ValidEnvironment(env) && before <= plan.maxWork && Measured(env, summary, cache, planned)
    requires ParsePayload(env, true, Start(env, cache)) == Parsed(summary.view, replayed)
    ensures work <= plan.maxWork
    ensures failure.None? <==>
      memory && before + PassWork(env, replayed) + ResolvingWork(planned.core) + 1 <= plan.maxWork
    ensures failure.None? ==> work == before + PassWork(env, replayed) + ResolvingWork(planned.core) + 1
    ensures failure.Some? ==> failure.value == if memory then OutOfWork else OutOfMemory
    ensures failure.None? ==> Holds(tables, planned.core) && resolved == ResolvedSlots(planned.core)
  {
    if !memory {
      tables := new Tables(0, 0, 0);
      return Some(OutOfMemory), tables, Resolved([], 0, 0), before;
    }
    tables := new Tables(summary.values, summary.slots, summary.rows);
    var ok, reason;
    ok, reason, resolved, work := Complete(env, plan, summary, cache, tables, before, planned, replayed);
    failure := if ok then None else Some(FailureOf(reason));
  }

  /** The tables are exactly the values, slots and rows of a parse. */
  ghost predicate Holds(tables: Tables, core: Core)
    reads tables.values, tables.slots, tables.rows
  {
    && tables.values[..] == core.values && tables.slots[..] == core.slots && tables.rows[..] == core.rows
  }

  /** Neither pass has a negative charge. */
  lemma PassesWeigh(env: Environment)
    requires ValidEnvironment(env)
    ensures var p := ParsePayload(env, false, Start(env, []));
            p.Parsed? ==> 0 <= PassWork(env, p.state)
    ensures var p := ParsePayload(env, false, Start(env, []));
            p.Parsed? ==> ParsePayload(env, true, Start(env, p.state.cache)).Parsed?
                          && ParsePayload(env, true, Start(env, p.state.cache)).view == p.view
                          && 0 <= PassWork(env, ParsePayload(env, true, Start(env, p.state.cache)).state)
  {
    var p := ParsePayload(env, false, Start(env, []));
    PayloadWeighs(env, false, Start(env, []));
    if p.Parsed? {
      ReplayAgreesWithPlan(env, InitialCore(env), 0, 0);
      PayloadWeighs(env, true, Start(env, p.state.cache));
    }
  }
}

/** `SyncEngine` of `src/core/sync-engine.ts`: scope filtering, which adapter
    calls a target receives, per-target error isolation, and the status and
    history the engine keeps. Adapters are functions that return a result or
    an error; the source adapter is a function of the path it is asked to
    parse, and the clock is the `now` parameter. */
module SyncEngine {
  import opened Wrappers
  import opened Text
  import opened Models
  import opened Errors
  import SyncResults

  // ---------------------------------------------------------------------
  // Options and scope filtering

  datatype Scope = All | RequirementsOnly | TasksOnly | Single

  /** `SyncOptions`; an omitted scope is `None`, an omitted `dryRun` is false. */
  datatype SyncOptions = SyncOptions(scope: Option<Scope>, itemId: Option<string>, dryRun: bool)

  /** `array.find((x) => x.id === id)`. */
  function FindRequirement(rs: seq<Requirement>, id: string): (r: Option<Requirement>)
    ensures r.Some? ==> r.value in rs && r.value.id == id
    ensures r.None? ==> forall i :: 0 <= i < |rs| ==> rs[i].id != id
    ensures r.Some? ==> exists i :: 0 <= i < |rs| && rs[i] == r.value && forall j :: 0 <= j < i ==> rs[j].id != id
  {
    if rs == [] then None
    else if rs[0].id == id then Some(rs[0])
    else
      var r := FindRequirement(rs[1..], id);
      assert forall i :: 1 <= i < |rs| ==> rs[i] == rs[1..][i - 1];
      r
  }

  function FindTask(ts: seq<Task>, id: string): (r: Option<Task>)
    ensures r.Some? ==> r.value in ts && r.value.id == id
    ensures r.None? ==> forall i :: 0 <= i < |ts| ==> ts[i].id != id
    ensures r.Some? ==> exists i :: 0 <= i < |ts| && ts[i] == r.value && forall j :: 0 <= j < i ==> ts[j].id != id
  {
    if ts == [] then None
    else if ts[0].id == id then Some(ts[0])
    else
      var r := FindTask(ts[1..], id);
      assert forall i :: 1 <= i < |ts| ==> ts[i] == ts[1..][i - 1];
      r
  }

  function AsList<T>(o: Option<T>): (xs: seq<T>)
    ensures |xs| <= 1
    ensures o.Some? ==> xs == [o.value]
    ensures o.None? ==> xs == []
  {
    match o
    case Some(x) => [x]
    case None => []
  }

  /** `filterByScope`. The scope defaults to 'all', which keeps the data as
      it is. Any other scope builds a fresh object holding only the meta, the
      design and the selected lists; the epic fields are not copied. */
  function FilterByScope(data: SpecData, opts: SyncOptions): (f: SpecData)
    ensures f.meta == data.meta && f.design == data.design
    ensures |f.requirements| <= |data.requirements| && forall x <- f.requirements :: x in data.requirements
    ensures |f.tasks| <= |data.tasks| && forall x <- f.tasks :: x in data.tasks
  {
    var scope := opts.scope.GetOr(All);
    if scope == All then data
    else
      var empty := SpecData(data.meta, [], data.design, [], None, None, None);
      if scope == RequirementsOnly then empty.(requirements := data.requirements)
      else if scope == TasksOnly then empty.(tasks := data.tasks)
      else if Truthy(opts.itemId) then
        empty.(requirements := AsList(FindRequirement(data.requirements, opts.itemId.value)),
               tasks := AsList(FindTask(data.tasks, opts.itemId.value)))
      else empty
  }

  /** The filter's rules, scope by scope. */
  lemma FilterByScopeRules(data: SpecData, opts: SyncOptions)
    ensures var f := FilterByScope(data, opts);
      && (opts.scope.None? || opts.scope == Some(All) ==> f == data)
      && (opts.scope.Some? && opts.scope != Some(All) ==>
            f.meta == data.meta && f.design == data.design && f.epicTitle.None? && f.epicDescription.None?)
      && (opts.scope == Some(RequirementsOnly) ==> f.requirements == data.requirements && f.tasks == [])
      && (opts.scope == Some(TasksOnly) ==> f.tasks == data.tasks && f.requirements == [])
  {
  }

  /** With scope 'single', each list keeps at most the first item whose id is
      the item id, the two lists checked independently; with no item id both
      lists are empty. */
  lemma FilterSingle(data: SpecData, opts: SyncOptions)
    requires opts.scope == Some(Single)
    ensures var f := FilterByScope(data, opts);
      && |f.requirements| <= 1 && |f.tasks| <= 1
      && (!Truthy(opts.itemId) ==> f.requirements == [] && f.tasks == [])
      && (Truthy(opts.itemId) ==>
            && (f.requirements != [] <==> exists i :: 0 <= i < |data.requirements| && data.requirements[i].id == opts.itemId.value)
            && (f.tasks != [] <==> exists i :: 0 <= i < |data.tasks| && data.tasks[i].id == opts.itemId.value)
            && (forall r :: r in f.requirements ==> r in data.requirements && r.id == opts.itemId.value)
            && (forall t :: t in f.tasks ==> t in data.tasks && t.id == opts.itemId.value))
  {
    if Truthy(opts.itemId) {
      var id := opts.itemId.value;
      var fr := FindRequirement(data.requirements, id);
      var ft := FindTask(data.tasks, id);
      if fr.None? {
        assert forall i :: 0 <= i < |data.requirements| ==> data.requirements[i].id != id;
      }
      if ft.None? {
        assert forall i :: 0 <= i < |data.tasks| ==> data.tasks[i].id != id;
      }
    }
  }

  // ---------------------------------------------------------------------
  // syncToTarget

  /** A target adapter: its name and its three sync operations; `syncDesign`
      is optional in the interface. */
  datatype TargetAdapter = TargetAdapter(
    name: string,
    syncRequirements: seq<Requirement> -> Result<SyncResult, Error>,
    syncTasks: seq<Task> -> Result<SyncResult, Error>,
    syncDesign: Option<Design -> Result<SyncResult, Error>>)

  /** One call the engine makes on a target. */
  datatype Call = SyncRequirementsCall(requirements: seq<Requirement>)
                | SyncTasksCall(tasks: seq<Task>)
                | SyncDesignCall(design: Design)
  {
    /** The position of the call's kind in the order the engine makes them. */
    function Rank(): nat {
      match this
      case SyncRequirementsCall(_) => 0
      case SyncTasksCall(_) => 1
      case SyncDesignCall(_) => 2
    }
  }

  predicate SendsRequirements(data: SpecData, opts: SyncOptions) {
    (opts.scope == Some(All) || opts.scope == Some(RequirementsOnly)) && |data.requirements| > 0
  }

  predicate SendsTasks(data: SpecData, opts: SyncOptions) {
    (opts.scope == Some(All) || opts.scope == Some(TasksOnly) || opts.scope.None?) && |data.tasks| > 0
  }

  predicate SendsDesign(hasSyncDesign: bool, data: SpecData, opts: SyncOptions) {
    opts.scope == Some(All) && data.design.Some? && hasSyncDesign
  }

  /** The calls `syncToTarget` makes outside a dry run, in order. */
  function Calls(hasSyncDesign: bool, data: SpecData, opts: SyncOptions): (cs: seq<Call>)
    ensures |cs| <= 3
    ensures forall i, j :: 0 <= i < j < |cs| ==> cs[i].Rank() < cs[j].Rank()
    ensures SyncRequirementsCall(data.requirements) in cs <==> SendsRequirements(data, opts)
    ensures SyncTasksCall(data.tasks) in cs <==> SendsTasks(data, opts)
    ensures (exists d :: SyncDesignCall(d) in cs) <==> SendsDesign(hasSyncDesign, data, opts)
    ensures forall c :: c in cs ==>
      (c in [SyncRequirementsCall(data.requirements), SyncTasksCall(data.tasks)]
       || (data.design.Some? && c == SyncDesignCall(data.design.value)))
  {
    (if SendsRequirements(data, opts) then [SyncRequirementsCall(data.requirements)] else [])
    + (if SendsTasks(data, opts) then [SyncTasksCall(data.tasks)] else [])
    + (if SendsDesign(hasSyncDesign, data, opts) then [SyncDesignCall(data.design.value)] else [])
  }

  /** Making one call on the target. */
  function Invoke(target: TargetAdapter, c: Call): Result<SyncResult, Error>
    requires c.SyncDesignCall? ==> target.syncDesign.Some?
  {
    match c
    case SyncRequirementsCall(rs) => target.syncRequirements(rs)
    case SyncTasksCall(ts) => target.syncTasks(ts)
    case SyncDesignCall(d) => target.syncDesign.value(d)
  }

  predicate Callable(target: TargetAdapter, cs: seq<Call>) {
    forall i :: 0 <= i < |cs| ==> cs[i].SyncDesignCall? ==> target.syncDesign.Some?
  }

  /** Making the calls in order: the first that throws ends the sequence and
      the results gathered so far are lost with it. */
  function RunCalls(target: TargetAdapter, cs: seq<Call>): (r: Result<seq<SyncResult>, Error>)
    requires Callable(target, cs)
    ensures r.Success? ==> |r.value| == |cs|
    ensures r.Success? ==> forall i :: 0 <= i < |cs| ==> Invoke(target, cs[i]) == Success(r.value[i])
    ensures r.Failure? <==> exists i :: 0 <= i < |cs| && Invoke(target, cs[i]).Failure?
    ensures r.Failure? ==> exists i :: (0 <= i < |cs| && Invoke(target, cs[i]) == Failure(r.error)
      && forall j :: 0 <= j < i ==> Invoke(target, cs[j]).Success?)
  {
    if cs == [] then Success([])
    else
      match Invoke(target, cs[0])
      case Failure(e) => Failure(e)
      case Success(x) =>
        match RunCalls(target, cs[1..])
        case Failure(e) => Failure(e)
        case Success(xs) => Success([x] + xs)
  }

  /** What a dry run reports for a target. */
  const DryRunResult := SyncResult(true, 0, 0, 0, [], None)

  /** `syncToTarget`. */
  function SyncToTarget(target: TargetAdapter, data: SpecData, opts: SyncOptions): (r: Result<seq<SyncResult>, Error>)
    ensures opts.dryRun ==> r == Success([DryRunResult])
  {
    if opts.dryRun then Success([DryRunResult])
    else RunCalls(target, Calls(target.syncDesign.Some?, data, opts))
  }

  /** A dry run reports one success per target and depends on nothing the
      target does: two targets give the same answer, so no adapter
      operation is consulted. */
  lemma DryRunCallsNothing(t1: TargetAdapter, t2: TargetAdapter, data: SpecData, opts: SyncOptions)
    requires opts.dryRun
    ensures SyncToTarget(t1, data, opts) == SyncToTarget(t2, data, opts) == Success([DryRunResult])
    ensures DryRunResult.success && DryRunResult.created == DryRunResult.updated == DryRunResult.failed == 0
    ensures DryRunResult.changes == [] && DryRunResult.errors.None?
  {
  }

  /** Outside a dry run, a target whose calls all succeed yields one result
      per call, in the order requirements, tasks, design, each the result of
      that call. */
  lemma TargetResultsInCallOrder(target: TargetAdapter, data: SpecData, opts: SyncOptions)
    requires !opts.dryRun
    requires SyncToTarget(target, data, opts).Success?
    ensures var cs := Calls(target.syncDesign.Some?, data, opts);
      var rs := SyncToTarget(target, data, opts).value;
      && |rs| == |cs|
      && (forall i :: 0 <= i < |cs| ==> Invoke(target, cs[i]) == Success(rs[i]))
      && (forall i, j :: 0 <= i < j < |cs| ==> cs[i].Rank() < cs[j].Rank())
  {
  }

  /** An omitted scope keeps all the data yet sends only the tasks. */
  lemma OmittedScopeSendsOnlyTasks(target: TargetAdapter, data: SpecData, opts: SyncOptions)
    requires opts.scope.None? && !opts.dryRun
    ensures FilterByScope(data, opts) == data
    ensures Calls(target.syncDesign.Some?, data, opts) == (if |data.tasks| > 0 then [SyncTasksCall(data.tasks)] else [])
  {
  }

  /** Scope 'single' matches none of the three branches: the target is not
      called and contributes no result. */
  lemma SingleScopeSendsNothing(target: TargetAdapter, data: SpecData, opts: SyncOptions)
    requires opts.scope == Some(Single) && !opts.dryRun
    ensures Calls(target.syncDesign.Some?, FilterByScope(data, opts), opts) == []
    ensures SyncToTarget(target, FilterByScope(data, opts), opts) == Success([])
  {
  }

  /** When any planned call throws, the results of the calls before it are
      lost: the target's sync fails as a whole. */
  lemma PartialResultsDiscarded(target: TargetAdapter, data: SpecData, opts: SyncOptions, k: nat)
    requires !opts.dryRun
    requires var cs := Calls(target.syncDesign.Some?, data, opts);
      k < |cs| && Callable(target, cs) && Invoke(target, cs[k]).Failure?
    ensures SyncToTarget(target, data, opts).Failure?
  {
  }

  // ---------------------------------------------------------------------
  // sync

  datatype StatusKind = Idle | Syncing | ErrorStatus

  /** `SyncStatus`. */
  datatype SyncStatus = SyncStatus(status: StatusKind, lastSync: Option<string>, results: Option<seq<SyncResult>>)

  /** The engine's state between calls. */
  datatype Engine = Engine(status: SyncStatus, history: seq<SyncResult>)

  function NewEngine(): (e: Engine)
    ensures e.status.status == Idle && e.history == []
  {
    Engine(SyncStatus(Idle, None, None), [])
  }

  /** The result recorded for a target whose sync threw. */
  function ErrorResult(message: string): (r: SyncResult)
    ensures !r.success && r.created == 0 && r.updated == 0 && r.failed == 1
    ensures r.changes == [] && r.errors == Some([message])
    ensures SyncResults.Consistent(r)
  {
    SyncResult(false, 0, 0, 1, [], Some([message]))
  }

  /** What one target adds to the results: its own results, or the single
      error result when its sync threw. */
  function Contribution(target: TargetAdapter, data: SpecData, opts: SyncOptions): seq<SyncResult> {
    match SyncToTarget(target, data, opts)
    case Success(rs) => rs
    case Failure(e) => [ErrorResult(e.Message())]
  }

  /** The contributions of all targets, in target order. */
  function AllContributions(targets: seq<TargetAdapter>, data: SpecData, opts: SyncOptions): seq<SyncResult>
    decreases |targets|
  {
    if targets == [] then []
    else Contribution(targets[0], data, opts) + AllContributions(targets[1..], data, opts)
  }

  lemma ContributionsStep(targets: seq<TargetAdapter>, i: nat, data: SpecData, opts: SyncOptions)
    requires i < |targets|
    ensures AllContributions(targets[i..], data, opts)
      == Contribution(targets[i], data, opts) + AllContributions(targets[i + 1..], data, opts)
  {
    assert targets[i..][1..] == targets[i + 1..];
  }

  lemma ContributionsDone(targets: seq<TargetAdapter>, data: SpecData, opts: SyncOptions)
    ensures AllContributions(targets[|targets|..], data, opts) == []
  {
    assert targets[|targets|..] == [];
  }

  /** The `for` loop over the targets, each inside its own `try`. */
  method SyncTargets(targets: seq<TargetAdapter>, data: SpecData, opts: SyncOptions)
    returns (results: seq<SyncResult>)
    ensures results == AllContributions(targets, data, opts)
  {
    hide AllContributions;
    results := [];
    var i := 0;
    while i < |targets|
      invariant 0 <= i <= |targets|
      invariant results + AllContributions(targets[i..], data, opts) == AllContributions(targets, data, opts)
    {
      ContributionsStep(targets, i, data, opts);
      results := results + Contribution(targets[i], data, opts);
      i := i + 1;
    }
    ContributionsDone(targets, data, opts);
  }

  lemma {:induction false} ContributionsAppend(a: seq<TargetAdapter>, b: seq<TargetAdapter>, data: SpecData, opts: SyncOptions)
    ensures AllContributions(a + b, data, opts) == AllContributions(a, data, opts) + AllContributions(b, data, opts)
    decreases |a|
  {
    if a == [] {
      assert a + b == b;
    } else {
      assert (a + b)[1..] == a[1..] + b;
      ContributionsAppend(a[1..], b, data, opts);
    }
  }

  /** A target that throws contributes exactly the one error result carrying
      its message, and the targets before and after it contribute as they
      would without it. */
  lemma FailingTargetIsolated(targets: seq<TargetAdapter>, i: nat, data: SpecData, opts: SyncOptions)
    requires i < |targets| && SyncToTarget(targets[i], data, opts).Failure?
    ensures var e := SyncToTarget(targets[i], data, opts).error;
      AllContributions(targets, data, opts)
      == AllContributions(targets[..i], data, opts) + [ErrorResult(e.Message())] + AllContributions(targets[i + 1..], data, opts)
  {
    FailedContribution(targets[i], data, opts);
    hide AllContributions, Contribution, SyncToTarget;
    ContributionsSplit(targets, i, data, opts);
    ContributionsStep(targets, i, data, opts);
  }

  lemma ContributionsSplit(targets: seq<TargetAdapter>, i: nat, data: SpecData, opts: SyncOptions)
    requires i <= |targets|
    ensures AllContributions(targets, data, opts)
      == AllContributions(targets[..i], data, opts) + AllContributions(targets[i..], data, opts)
  {
    hide AllContributions;
    assert targets == targets[..i] + targets[i..];
    ContributionsAppend(targets[..i], targets[i..], data, opts);
  }

  lemma FailedContribution(target: TargetAdapter, data: SpecData, opts: SyncOptions)
    requires SyncToTarget(target, data, opts).Failure?
    ensures Contribution(target, data, opts) == [ErrorResult(SyncToTarget(target, data, opts).error.Message())]
  {
  }

  /** The path the source is asked to parse: the item id when truthy, else
      the working directory. */
  function ParsePath(opts: SyncOptions, cwd: string): string {
    if Truthy(opts.itemId) then opts.itemId.value else cwd
  }

  predicate AnyFailed(results: seq<SyncResult>) {
    exists i :: 0 <= i < |results| && !results[i].success
  }

  /** `sync`. The source is parsed once; a parse failure sets the status to
      'error', leaves the history alone and is rethrown. Otherwise every
      target contributes its results, they are appended to the history, and
      the status becomes 'error' when any of them failed and 'idle' when
      none did. */
  method Sync(engine: Engine, source: string -> Result<SpecData, Error>, targets: seq<TargetAdapter>,
              opts: SyncOptions, cwd: string, now: string)
    returns (engine': Engine, r: Result<seq<SyncResult>, Error>)
    ensures source(ParsePath(opts, cwd)).Failure? ==>
      r == Failure(source(ParsePath(opts, cwd)).error)
      && engine' == Engine(SyncStatus(ErrorStatus, Some(now), None), engine.history)
    ensures source(ParsePath(opts, cwd)).Success? ==>
      var results := AllContributions(targets, FilterByScope(source(ParsePath(opts, cwd)).value, opts), opts);
      && r == Success(results)
      && engine'.history == engine.history + results
      && engine'.status == SyncStatus(if AnyFailed(results) then ErrorStatus else Idle, Some(now), Some(results))
  {
    match source(ParsePath(opts, cwd))
    case Failure(e) =>
      engine' := Engine(SyncStatus(ErrorStatus, Some(now), None), engine.history);
      r := Failure(e);
    case Success(specData) =>
      var filtered := FilterByScope(specData, opts);
      var results := SyncTargets(targets, filtered, opts);
      var hasErrors := exists i :: 0 <= i < |results| && !results[i].success;
      engine' := Engine(SyncStatus(if hasErrors then ErrorStatus else Idle, Some(now), Some(results)),
                        engine.history + results);
      r := Success(results);
  }

  /** `getStatus`: a copy of the status. */
  function GetStatus(engine: Engine): (s: SyncStatus)
    ensures s == engine.status
  {
    engine.status
  }

  /** `getHistory`: a copy of the history. */
  function GetHistory(engine: Engine): (h: seq<SyncResult>)
    ensures h == engine.history
  {
    engine.history
  }

  /** `clearHistory`: the history is emptied and the status kept. */
  function ClearHistory(engine: Engine): (e: Engine)
    ensures e.history == [] && e.status == engine.status
  {
    engine.(history := [])
  }
}

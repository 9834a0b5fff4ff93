/** The control flow of `syncRequirements`, `syncTasks`, `getTaskStatus` and
    `findIssueByLabel` in `src/adapters/target/github.ts`. GitHub is a state
    `S` reached through two oracles: `search` lists the issues carrying a
    label, `perform` carries out one create, update or comment call. */
module GitHubSync {
  import opened Wrappers
  import opened Text
  import opened Models
  import opened SyncResults
  import opened GitHubFormat

  /** The options the adapter hands to `createIssue` and `updateIssue`. */
  datatype IssueRequest = IssueRequest(
    title: string,
    body: string,
    state: Option<IssueState>,
    labels: seq<string>,
    assignee: Option<string>)

  /** One remote call: `createIssue`, `updateIssue` or `addComment`. */
  datatype Call =
    | CreateIssue(request: IssueRequest)
    | UpdateIssue(number: nat, request: IssueRequest)
    | AddComment(number: nat, comment: string)

  /** An element of the list passed to `syncRequirements` or `syncTasks`. */
  datatype Item = OfRequirement(req: Requirement) | OfTask(task: Task) {
    function Kind(): ItemKind {
      if OfRequirement? then ReqKind else TaskKind
    }

    function Id(): string {
      if OfRequirement? then req.id else task.id
    }

    function OwnLabels(): Option<seq<string>> {
      if OfRequirement? then req.labels else task.labels
    }

    /** The marker label the item is looked up and tagged by. */
    function SyncLabel(): string {
      MarkerLabel(Kind(), Id())
    }

    function Type(): ItemType {
      if OfRequirement? then RequirementItem else TaskItem
    }

    /** The issue fields written on both the create and the update path. */
    function Request(): IssueRequest {
      match this
      case OfRequirement(r) =>
        IssueRequest(r.title, FormatRequirementBody(r), None, BuildLabels(r.labels, SyncLabel()), None)
      case OfTask(t) =>
        IssueRequest(t.title, FormatTaskBody(t), Some(StateFor(t.status)), BuildLabels(t.labels, SyncLabel()), t.assignee)
    }
  }

  /** Every item's request carries its marker label last; a task's request
      asks for a closed issue exactly when the task is done, a requirement's
      leaves the state alone. */
  lemma RequestShape(item: Item)
    ensures var q := item.Request();
      |q.labels| > 0 && q.labels[|q.labels| - 1] == item.SyncLabel()
      && (item.OfRequirement? ==> q.state.None? && q.assignee.None?)
      && (item.OfTask? ==> (q.state == Some(ClosedState) <==> item.task.status == Done) && q.state.Some?)
  {
  }

  /** `findIssueByLabel`: the first issue the search returns; a failed search
      is swallowed and reads as no issue. */
  function FindIssueByLabel<S>(search: (S, string) -> Result<seq<Issue>, string>, s: S, name: string): (r: Option<Issue>)
    ensures r.Some? <==> search(s, name).Success? && search(s, name).value != []
    ensures r.Some? ==> r.value == search(s, name).value[0]
  {
    match search(s, name)
    case Success(issues) => if issues == [] then None else Some(issues[0])
    case Failure(_) => None
  }

  /** The calls made for one item: a create when no issue carries its marker,
      otherwise an update of that issue, followed for a task by a change
      comment when fields changed and comments are not switched off. */
  function Calls(item: Item, existing: Option<Issue>, addComments: Option<bool>, now: string): (calls: seq<Call>)
    ensures 1 <= |calls| <= 2
    ensures existing.None? ==> calls == [CreateIssue(item.Request())]
    ensures existing.Some? ==> calls[0] == UpdateIssue(existing.value.number, item.Request())
    ensures |calls| == 2 <==>
      existing.Some? && item.OfTask? && DetectTaskChanges(existing.value, item.task, now) != []
      && addComments != Some(false)
    ensures |calls| == 2 ==>
      calls[1] == AddComment(existing.value.number, FormatChangeComment(DetectTaskChanges(existing.value, item.task, now), now))
  {
    match existing
    case None => [CreateIssue(item.Request())]
    case Some(issue) =>
      var update := UpdateIssue(issue.number, item.Request());
      if item.OfTask? then
        var changes := DetectTaskChanges(issue, item.task, now);
        if |changes| > 0 && addComments != Some(false) then
          [update, AddComment(issue.number, FormatChangeComment(changes, now))]
        else [update]
      else [update]
  }

  /** A failed lookup sends the item down the create path. */
  lemma LookupErrorCreates<S>(search: (S, string) -> Result<seq<Issue>, string>, s: S, item: Item,
                              addComments: Option<bool>, now: string)
    requires search(s, item.SyncLabel()).Failure?
    ensures Calls(item, FindIssueByLabel(search, s, item.SyncLabel()), addComments, now) == [CreateIssue(item.Request())]
  {
  }

  /** The state after a run of calls and the message of the call that threw, if any. */
  datatype Ran<S> = Ran(state: S, error: Option<string>)

  /** Awaiting the calls in order; the first that throws ends the item. */
  function RunCalls<S>(perform: (S, Call) -> Result<S, string>, s: S, calls: seq<Call>): Ran<S>
    decreases |calls|
  {
    if calls == [] then Ran(s, None)
    else
      match perform(s, calls[0])
      case Failure(e) => Ran(s, Some(e))
      case Success(s') => RunCalls(perform, s', calls[1..])
  }

  /** What one item contributes: its change record, or the caught message. */
  datatype ItemOutcome = Synced(change: SyncChange) | FailedItem(message: string)

  datatype Step<S> = Step(outcome: ItemOutcome, state: S)

  function FailureMessage(item: Item, error: string): string {
    "Failed to sync " + item.Kind().Noun() + " " + item.Id() + ": " + error
  }

  /** The body of the `for` loop of `syncRequirements`/`syncTasks` for one item. */
  function SyncItem<S>(search: (S, string) -> Result<seq<Issue>, string>, perform: (S, Call) -> Result<S, string>,
                       s: S, item: Item, addComments: Option<bool>, now: string): (step: Step<S>)
    ensures var existing := FindIssueByLabel(search, s, item.SyncLabel());
      var ran := RunCalls(perform, s, Calls(item, existing, addComments, now));
      && step.state == ran.state
      && (step.outcome.Synced? <==> ran.error.None?)
      && (step.outcome.Synced? ==>
            step.outcome.change == SyncChange(now, if existing.Some? then Updated else Created, item.Type(), item.Id(), None))
      && (step.outcome.FailedItem? ==> step.outcome.message == FailureMessage(item, ran.error.value))
  {
    var existing := FindIssueByLabel(search, s, item.SyncLabel());
    var ran := RunCalls(perform, s, Calls(item, existing, addComments, now));
    match ran.error
    case Some(e) => Step(FailedItem(FailureMessage(item, e)), ran.state)
    case None =>
      var action := if existing.Some? then Updated else Created;
      Step(Synced(SyncChange(now, action, item.Type(), item.Id(), None)), ran.state)
  }

  /** Recording one item's outcome in the running result. */
  function Tally(acc: SyncResult, outcome: ItemOutcome): (r: SyncResult)
    ensures r.created + r.updated + r.failed == acc.created + acc.updated + acc.failed + 1
    ensures outcome.Synced? ==> r.changes == acc.changes + [outcome.change] && r.failed == acc.failed
    ensures outcome.Synced? && outcome.change.action == Created ==> r.created == acc.created + 1
    ensures outcome.Synced? && outcome.change.action != Created ==> r.updated == acc.updated + 1
    ensures outcome.FailedItem? ==> r == AddError(acc, outcome.message)
  {
    match outcome
    case Synced(c) =>
      if c.action == Created then acc.(created := acc.created + 1, changes := acc.changes + [c])
      else acc.(updated := acc.updated + 1, changes := acc.changes + [c])
    case FailedItem(m) => AddError(acc, m)
  }

  datatype Batch<S> = Batch(result: SyncResult, state: S)

  /** The `for` loop over all items, from the running result `acc`. Each item
      lands in exactly one counter, and every created or updated item adds
      one change record. */
  function SyncItems<S>(search: (S, string) -> Result<seq<Issue>, string>, perform: (S, Call) -> Result<S, string>,
                        s: S, items: seq<Item>, addComments: Option<bool>, now: string, acc: SyncResult): (b: Batch<S>)
    ensures b.result.created + b.result.updated + b.result.failed == acc.created + acc.updated + acc.failed + |items|
    ensures acc.created <= b.result.created && acc.updated <= b.result.updated && acc.failed <= b.result.failed
    ensures |b.result.changes| + acc.created + acc.updated == |acc.changes| + b.result.created + b.result.updated
    ensures Consistent(acc) ==> Consistent(b.result)
    decreases |items|
  {
    if items == [] then Batch(acc, s)
    else
      var step := SyncItem(search, perform, s, items[0], addComments, now);
      var next := Tally(acc, step.outcome);
      assert Consistent(acc) ==> Consistent(next);
      SyncItems(search, perform, step.state, items[1..], addComments, now, next)
  }

  function Requirements(reqs: seq<Requirement>): (items: seq<Item>)
    ensures |items| == |reqs| && forall i :: 0 <= i < |reqs| ==> items[i] == OfRequirement(reqs[i])
  {
    seq(|reqs|, i requires 0 <= i < |reqs| => OfRequirement(reqs[i]))
  }

  function Tasks(tasks: seq<Task>): (items: seq<Item>)
    ensures |items| == |tasks| && forall i :: 0 <= i < |tasks| ==> items[i] == OfTask(tasks[i])
  {
    seq(|tasks|, i requires 0 <= i < |tasks| => OfTask(tasks[i]))
  }

  /** `syncRequirements`: an empty list gives the empty result. */
  function SyncRequirements<S>(search: (S, string) -> Result<seq<Issue>, string>, perform: (S, Call) -> Result<S, string>,
                               s: S, reqs: seq<Requirement>, now: string): (b: Batch<S>)
    ensures b.result.created + b.result.updated + b.result.failed == |reqs|
    ensures |b.result.changes| == b.result.created + b.result.updated
    ensures Consistent(b.result)
    ensures reqs == [] ==> b == Batch(CreateSyncResult(), s)
  {
    SyncItems(search, perform, s, Requirements(reqs), None, now, CreateSyncResult())
  }

  /** `syncTasks`: an empty list gives the empty result. */
  function SyncTasks<S>(search: (S, string) -> Result<seq<Issue>, string>, perform: (S, Call) -> Result<S, string>,
                        s: S, tasks: seq<Task>, addComments: Option<bool>, now: string): (b: Batch<S>)
    ensures b.result.created + b.result.updated + b.result.failed == |tasks|
    ensures |b.result.changes| == b.result.created + b.result.updated
    ensures Consistent(b.result)
    ensures tasks == [] ==> b == Batch(CreateSyncResult(), s)
  {
    SyncItems(search, perform, s, Tasks(tasks), addComments, now, CreateSyncResult())
  }

  /** `getTaskStatus`: done exactly when the first issue carrying the task's
      marker is closed; never in progress or blocked. */
  function GetTaskStatus<S>(search: (S, string) -> Result<seq<Issue>, string>, s: S, taskId: string): (st: TaskStatus)
    ensures st == Todo || st == Done
    ensures st == Done <==>
      var found := search(s, MarkerLabel(TaskKind, taskId));
      found.Success? && found.value != [] && found.value[0].state == ClosedState
  {
    TaskStatusOf(FindIssueByLabel(search, s, MarkerLabel(TaskKind, taskId)))
  }
}

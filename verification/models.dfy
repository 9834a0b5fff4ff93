/** The unified data model of `src/core/models.ts`. Optional properties are
    `Option`s; `any`-typed field-change values are optional strings. */
module Models {
  import opened Wrappers

  datatype SpecMeta = SpecMeta(name: string, version: string, createdAt: string, updatedAt: string)

  datatype TaskStatus = Todo | InProgress | Done | Blocked {
    /** The enum's string value. */
    function Value(): string {
      match this
      case Todo => "todo"
      case InProgress => "in_progress"
      case Done => "done"
      case Blocked => "blocked"
    }
  }

  /** Reading a status back from its string value. */
  function StatusFromValue(s: string): (r: Option<TaskStatus>)
    ensures r.Some? ==> r.value.Value() == s
  {
    if s == "todo" then Some(Todo)
    else if s == "in_progress" then Some(InProgress)
    else if s == "done" then Some(Done)
    else if s == "blocked" then Some(Blocked)
    else None
  }

  /** The four statuses have four pairwise-distinct values: reading a value
      back recovers the status, and only the four values are accepted. */
  lemma StatusValuesRoundTrip(st: TaskStatus, s: string)
    ensures StatusFromValue(st.Value()) == Some(st)
    ensures StatusFromValue(s).Some? <==> s in {"todo", "in_progress", "done", "blocked"}
  {
  }

  datatype Requirement = Requirement(
    id: string,
    title: string,
    description: string,
    priority: Option<string>,
    labels: Option<seq<string>>,
    syncId: Option<string>)

  datatype Task = Task(
    id: string,
    title: string,
    description: Option<string>,
    status: TaskStatus,
    assignee: Option<string>,
    parentId: Option<string>,
    labels: Option<seq<string>>,
    syncId: Option<string>,
    specName: Option<string>,
    specPath: Option<string>)

  /** A requirement with only its mandatory fields. */
  function NewRequirement(id: string, title: string, description: string): (r: Requirement)
    ensures r.id == id && r.title == title && r.description == description
    ensures r.priority.None? && r.labels.None? && r.syncId.None?
  {
    Requirement(id, title, description, None, None, None)
  }

  /** A task with only its mandatory fields and an assignee. */
  function NewTask(id: string, title: string, status: TaskStatus, assignee: Option<string>): (t: Task)
    ensures t.id == id && t.title == title && t.status == status && t.assignee == assignee
    ensures t.description.None? && t.parentId.None? && t.labels.None? && t.syncId.None?
    ensures t.specName.None? && t.specPath.None?
  {
    Task(id, title, None, status, assignee, None, None, None, None, None)
  }

  datatype EpicState = EpicTodo | EpicInProgress | EpicDone

  datatype EpicStatus = EpicStatus(
    status: EpicState,
    progress: int,
    total: nat,
    completed: nat,
    inProgress: nat,
    todo: nat)

  /** The documented invariant of an epic status; nothing in the source
      computes one, so it is only stated. */
  predicate ValidEpicStatus(e: EpicStatus) {
    0 <= e.progress <= 100 && e.completed + e.inProgress + e.todo == e.total
  }

  datatype Design = Design(content: string, sections: Option<map<string, string>>)

  datatype SyncAction = Created | Updated | Closed {
    function Value(): string {
      match this
      case Created => "created"
      case Updated => "updated"
      case Closed => "closed"
    }
  }

  datatype ItemType = RequirementItem | TaskItem | DesignItem {
    function Value(): string {
      match this
      case RequirementItem => "requirement"
      case TaskItem => "task"
      case DesignItem => "design"
    }
  }

  datatype FieldChange = FieldChange(field: string, oldValue: Option<string>, newValue: Option<string>)

  datatype SyncChange = SyncChange(
    timestamp: string,
    action: SyncAction,
    itemType: ItemType,
    itemId: string,
    fieldChanges: Option<seq<FieldChange>>)

  datatype SyncResult = SyncResult(
    success: bool,
    created: nat,
    updated: nat,
    failed: nat,
    changes: seq<SyncChange>,
    errors: Option<seq<string>>)

  /** The top-level container. `epicTitle` and `epicDescription` are declared
      mandatory, but the scope filter builds values without them, so they are
      optional here. */
  datatype SpecData = SpecData(
    meta: SpecMeta,
    requirements: seq<Requirement>,
    design: Option<Design>,
    tasks: seq<Task>,
    epicTitle: Option<string>,
    epicDescription: Option<string>,
    epicStatus: Option<EpicStatus>)
}

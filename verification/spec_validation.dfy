/** `validateSpecData` of `src/adapters/source/base.ts`: the checks a parsed
    `SpecData` must pass, in order, with the message of the first that fails.
    The source throws a plain `Error`; here the check yields `Fail(message)`. */
module SpecValidation {
  import opened Wrappers
  import opened Text
  import opened Models

  /** The fields a requirement must have, as JavaScript truthiness of strings. */
  predicate RequirementOk(r: Requirement) {
    r.id != "" && r.title != "" && r.description != ""
  }

  /** The fields a task must have. The status is one of the enum's values,
      all non-empty, so only the id and the title can be missing. */
  predicate TaskOk(t: Task) {
    t.id != "" && t.title != "" && t.status.Value() != ""
  }

  predicate MetaOk(m: SpecMeta) {
    m.name != "" && m.version != "" && m.createdAt != "" && m.updatedAt != ""
  }

  /** What validation accepts, stated without its order. */
  predicate Valid(data: SpecData) {
    && MetaOk(data.meta)
    && (forall i :: 0 <= i < |data.requirements| ==> RequirementOk(data.requirements[i]))
    && (forall i :: 0 <= i < |data.tasks| ==> TaskOk(data.tasks[i]))
  }

  /** The first missing meta field, checked name, version, createdAt, updatedAt. */
  function MetaProblem(m: SpecMeta): (r: Option<string>)
    ensures r.None? <==> MetaOk(m)
  {
    if m.name == "" then Some("Invalid SpecData: missing meta.name")
    else if m.version == "" then Some("Invalid SpecData: missing meta.version")
    else if m.createdAt == "" then Some("Invalid SpecData: missing meta.createdAt")
    else if m.updatedAt == "" then Some("Invalid SpecData: missing meta.updatedAt")
    else None
  }

  /** The first index at or after `i` whose element fails `ok`: the element
      on which the `forEach` callback throws. */
  function FirstBad<T>(xs: seq<T>, ok: T -> bool, i: nat): (r: Option<nat>)
    requires i <= |xs|
    ensures r.Some? ==> i <= r.value < |xs| && !ok(xs[r.value])
    ensures r.Some? ==> forall k :: i <= k < r.value ==> ok(xs[k])
    ensures r.None? ==> forall k :: i <= k < |xs| ==> ok(xs[k])
    decreases |xs| - i
  {
    if i == |xs| then None
    else if !ok(xs[i]) then Some(i)
    else FirstBad(xs, ok, i + 1)
  }

  /** The message for the requirement at `index`, naming its first missing field. */
  function RequirementMessage(index: nat, r: Requirement): string {
    "Invalid requirement at index " + NatToString(index) + ": missing "
      + (if r.id == "" then "id" else if r.title == "" then "title" else "description")
  }

  function TaskMessage(index: nat, t: Task): string {
    "Invalid task at index " + NatToString(index) + ": missing "
      + (if t.id == "" then "id" else if t.title == "" then "title" else "status")
  }

  /** `validateSpecData`: meta first, then the requirements by index, then the
      tasks by index; the first failure is reported. */
  function ValidateSpecData(data: SpecData): (r: Outcome<string>)
    ensures r.Pass? <==> Valid(data)
    ensures !MetaOk(data.meta) ==> r == Fail(MetaProblem(data.meta).value)
  {
    match MetaProblem(data.meta)
    case Some(msg) => Fail(msg)
    case None =>
      match FirstBad(data.requirements, RequirementOk, 0)
      case Some(i) => Fail(RequirementMessage(i, data.requirements[i]))
      case None =>
        match FirstBad(data.tasks, TaskOk, 0)
        case Some(i) => Fail(TaskMessage(i, data.tasks[i]))
        case None => Pass
  }

  /** With the meta fields present, the reported requirement is the first
      one with a missing field, and no task is looked at before it. */
  lemma FirstBadRequirementReported(data: SpecData, i: nat)
    requires MetaOk(data.meta) && i < |data.requirements| && !RequirementOk(data.requirements[i])
    requires forall k :: 0 <= k < i ==> RequirementOk(data.requirements[k])
    ensures ValidateSpecData(data) == Fail(RequirementMessage(i, data.requirements[i]))
  {
  }

  /** With the meta fields and all requirements present, the reported task
      is the first one with a missing field. */
  lemma FirstBadTaskReported(data: SpecData, i: nat)
    requires MetaOk(data.meta) && forall k :: 0 <= k < |data.requirements| ==> RequirementOk(data.requirements[k])
    requires i < |data.tasks| && !TaskOk(data.tasks[i])
    requires forall k :: 0 <= k < i ==> TaskOk(data.tasks[k])
    ensures ValidateSpecData(data) == Fail(TaskMessage(i, data.tasks[i]))
  {
  }

  /** A requirement with an empty description fails validation. */
  lemma EmptyDescriptionRejected(data: SpecData, i: nat)
    requires i < |data.requirements| && data.requirements[i].description == ""
    ensures ValidateSpecData(data).Fail?
  {
    assert !RequirementOk(data.requirements[i]);
  }

  /** The status check cannot fail: every status has a non-empty value. */
  lemma StatusAlwaysPresent(t: Task)
    ensures TaskOk(t) <==> t.id != "" && t.title != ""
  {
    match t.status
    case Todo =>
    case InProgress =>
    case Done =>
    case Blocked =>
  }
}

/** The pure rules of the GitHub target adapter (`src/adapters/target/github.ts`):
    the marker labels that tie issues to spec items, the label list, the
    issue bodies, change detection, the change comment and the mapping
    between task status and issue state. */
module GitHubFormat {
  import opened Wrappers
  import opened Text
  import opened Models

  datatype IssueState = OpenState | ClosedState {
    function Value(): string {
      match this
      case OpenState => "open"
      case ClosedState => "closed"
    }
  }

  /** An issue as the adapter reads it back from GitHub. */
  datatype Issue = Issue(
    number: nat,
    title: string,
    body: string,
    state: IssueState,
    labels: seq<string>,
    assignee: Option<string>)

  /** The two kinds of spec item the adapter syncs. */
  datatype ItemKind = ReqKind | TaskKind {
    /** The word used in failure messages. */
    function Noun(): string {
      match this
      case ReqKind => "requirement"
      case TaskKind => "task"
    }
  }

  const ReqMarkerPrefix := "specbridge:req-id:"
  const TaskMarkerPrefix := "specbridge:task-id:"

  function MarkerPrefix(kind: ItemKind): string {
    match kind
    case ReqKind => ReqMarkerPrefix
    case TaskKind => TaskMarkerPrefix
  }

  /** The label that correlates an issue with the item `id`. */
  function MarkerLabel(kind: ItemKind, id: string): (l: string)
    ensures StartsWith(l, "specbridge:") && EndsWith(l, id)
  {
    MarkerPrefix(kind) + id
  }

  datatype Marker = Marker(kind: ItemKind, id: string)

  /** Reads a marker label back into its kind and item id. */
  function ParseMarker(name: string): Option<Marker> {
    if StartsWith(name, ReqMarkerPrefix) then Some(Marker(ReqKind, name[|ReqMarkerPrefix|..]))
    else if StartsWith(name, TaskMarkerPrefix) then Some(Marker(TaskKind, name[|TaskMarkerPrefix|..]))
    else None
  }

  predicate IsMarker(name: string) {
    ParseMarker(name).Some?
  }

  /** Marker labels are read back exactly, so two items share a label only
      when they have the same kind and the same id. */
  lemma MarkerRoundTrip(kind: ItemKind, id: string)
    ensures ParseMarker(MarkerLabel(kind, id)) == Some(Marker(kind, id))
  {
    var l := MarkerLabel(kind, id);
    assert l[..|MarkerPrefix(kind)|] == MarkerPrefix(kind);
    if kind == TaskKind {
      assert l[11] == 't';
      assert !StartsWith(l, ReqMarkerPrefix) by { assert ReqMarkerPrefix[11] == 'r'; }
    }
    assert l[|MarkerPrefix(kind)|..] == id;
  }

  lemma MarkerInjective(k1: ItemKind, a: string, k2: ItemKind, b: string)
    ensures MarkerLabel(k1, a) == MarkerLabel(k2, b) <==> k1 == k2 && a == b
  {
    MarkerRoundTrip(k1, a);
    MarkerRoundTrip(k2, b);
  }

  /** `buildLabels`: the item's own labels, then the sync label when it is truthy. */
  function BuildLabels(labels: Option<seq<string>>, syncLabel: string): (r: seq<string>)
    ensures |labels.GetOr([])| <= |r| && r[..|labels.GetOr([])|] == labels.GetOr([])
    ensures syncLabel != "" ==> |r| == |labels.GetOr([])| + 1 && r[|r| - 1] == syncLabel
    ensures syncLabel == "" ==> r == labels.GetOr([])
  {
    labels.GetOr([]) + (if syncLabel != "" then [syncLabel] else [])
  }

  /** The labels sent for an item carry its marker, and when the item's own
      labels hold no marker, it is the only marker among them. */
  lemma BuiltLabelsMarkOnlyTheItem(labels: Option<seq<string>>, kind: ItemKind, id: string)
    requires forall l <- labels.GetOr([]) :: !IsMarker(l)
    ensures var r := BuildLabels(labels, MarkerLabel(kind, id));
      MarkerLabel(kind, id) in r && forall l <- r :: IsMarker(l) ==> l == MarkerLabel(kind, id)
  {
    var r := BuildLabels(labels, MarkerLabel(kind, id));
    MarkerRoundTrip(kind, id);
    assert r == labels.GetOr([]) + [MarkerLabel(kind, id)];
  }

  /** The issue state sent for a task: closed exactly when the task is done. */
  function StateFor(status: TaskStatus): (s: IssueState)
    ensures s == ClosedState <==> status == Done
  {
    if status == Done then ClosedState else OpenState
  }

  /** `getTaskStatus` given the looked-up issue: no issue and open issues
      read as todo, closed issues as done. */
  function TaskStatusOf(issue: Option<Issue>): (st: TaskStatus)
    ensures st == Todo || st == Done
    ensures st == Done <==> issue.Some? && issue.value.state == ClosedState
  {
    match issue
    case None => Todo
    case Some(i) => if i.state == ClosedState then Done else Todo
  }

  /** Writing a status as an issue state and reading it back keeps `done`
      and collapses every other status to `todo`. */
  lemma StateReadBack(issue: Issue, status: TaskStatus)
    ensures TaskStatusOf(Some(issue.(state := StateFor(status)))) == (if status == Done then Done else Todo)
  {
  }

  /** One `detectTaskChanges` entry. */
  function FieldUpdate(taskId: string, now: string, field: string, oldValue: Option<string>, newValue: Option<string>): SyncChange {
    SyncChange(now, Updated, TaskItem, taskId, Some([FieldChange(field, oldValue, newValue)]))
  }

  /** `detectTaskChanges`: a title entry when the titles differ, then an
      assignee entry when the assignees differ. */
  function DetectTaskChanges(issue: Issue, task: Task, now: string): (r: seq<SyncChange>)
    ensures |r| == (if issue.title != task.title then 1 else 0) + (if issue.assignee != task.assignee then 1 else 0)
    ensures forall c <- r :: c.action == Updated && c.itemType == TaskItem && c.itemId == task.id && c.timestamp == now
    ensures issue.title != task.title ==>
      r[0].fieldChanges == Some([FieldChange("title", Some(issue.title), Some(task.title))])
    ensures issue.assignee != task.assignee ==>
      r[|r| - 1].fieldChanges == Some([FieldChange("assignee", issue.assignee, task.assignee)])
  {
    (if issue.title != task.title then [FieldUpdate(task.id, now, "title", Some(issue.title), Some(task.title))] else [])
    + (if issue.assignee != task.assignee then [FieldUpdate(task.id, now, "assignee", issue.assignee, task.assignee)] else [])
  }

  /** A template literal's rendering of an optional value. */
  function Show(v: Option<string>): string {
    match v
    case Some(s) => s
    case None => "undefined"
  }

  function FieldLine(c: FieldChange): string {
    "- **" + c.field + ":** " + Show(c.oldValue) + " → " + Show(c.newValue) + "\n"
  }

  /** One line per field change, in order. */
  function FieldLines(cs: seq<FieldChange>): string {
    if cs == [] then "" else FieldLine(cs[0]) + FieldLines(cs[1..])
  }

  /** The lines of every change that lists field changes, in order. */
  function ChangeLines(changes: seq<SyncChange>): string {
    if changes == [] then ""
    else FieldLines(changes[0].fieldChanges.GetOr([])) + ChangeLines(changes[1..])
  }

  function CommentHeader(now: string): string {
    "🔄 **Synced by SpecBridge**\n\n" + "**Time:** " + now + "\n\n" + "**Changes:**\n"
  }

  /** `formatChangeComment`, with the time as a parameter. */
  function FormatChangeComment(changes: seq<SyncChange>, now: string): (r: string)
    ensures StartsWith(r, CommentHeader(now))
  {
    CommentHeader(now) + ChangeLines(changes)
  }

  lemma {:induction false} ChangeLinesAppend(a: seq<SyncChange>, b: seq<SyncChange>)
    ensures ChangeLines(a + b) == ChangeLines(a) + ChangeLines(b)
  {
    if a == [] {
      assert a + b == b;
    } else {
      assert (a + b)[1..] == a[1..] + b;
      ChangeLinesAppend(a[1..], b);
    }
  }

  /** The comment posted for detected changes lists the title change and then
      the assignee change, each only when that field differs. */
  lemma DetectedChangesComment(issue: Issue, task: Task, now: string)
    ensures FormatChangeComment(DetectTaskChanges(issue, task, now), now)
      == CommentHeader(now)
         + (if issue.title != task.title then FieldLine(FieldChange("title", Some(issue.title), Some(task.title))) else "")
         + (if issue.assignee != task.assignee then FieldLine(FieldChange("assignee", issue.assignee, task.assignee)) else "")
  {
    hide ChangeLines, FieldLines, FieldLine, CommentHeader;
    var tc := FieldChange("title", Some(issue.title), Some(task.title));
    var ac := FieldChange("assignee", issue.assignee, task.assignee);
    var t := if issue.title != task.title then [FieldUpdate(task.id, now, "title", Some(issue.title), Some(task.title))] else [];
    var a := if issue.assignee != task.assignee then [FieldUpdate(task.id, now, "assignee", issue.assignee, task.assignee)] else [];
    OptionalChangeLines(t, issue.title != task.title, FieldUpdate(task.id, now, "title", Some(issue.title), Some(task.title)), tc);
    OptionalChangeLines(a, issue.assignee != task.assignee, FieldUpdate(task.id, now, "assignee", issue.assignee, task.assignee), ac);
    ChangeLinesAppend(t, a);
    assert DetectTaskChanges(issue, task, now) == t + a;
  }

  /** The lines of at most one change that lists exactly one field change. */
  lemma OptionalChangeLines(t: seq<SyncChange>, present: bool, c: SyncChange, fc: FieldChange)
    requires t == (if present then [c] else []) && c.fieldChanges == Some([fc])
    ensures ChangeLines(t) == if present then FieldLine(fc) else ""
  {
    if present {
      assert FieldLines([fc]) == FieldLine(fc) + FieldLines([]);
      assert ChangeLines(t) == FieldLines([fc]) + ChangeLines([]);
    }
  }

  const Footer := "\n---\n*Synced by SpecBridge*"

  function Header(title: string): string {
    "# " + title + "\n\n"
  }

  /** The description paragraph, present only when the description is truthy. */
  function Paragraph(text: Option<string>): string {
    if Truthy(text) then text.value + "\n\n" else ""
  }

  /** A `**Name:** value` line, present only when the value is truthy. */
  function FieldRow(prefix: string, value: Option<string>): string {
    if Truthy(value) then prefix + value.value + "\n" else ""
  }

  const AssigneePrefix := "**Assignee:** @"
  const ParentPrefix := "**Parent Task:** "
  const PriorityPrefix := "**Priority:** "

  const StatusPrefix := "**Status:** "

  function StatusRow(status: TaskStatus): string {
    StatusPrefix + status.Value() + "\n"
  }

  /** `formatTaskBody`: the title heading, the description when present, the
      status line, the assignee and parent lines when present, then the
      footer. */
  function FormatTaskBody(t: Task): (body: string)
    ensures StartsWith(body, Header(t.title))
    ensures EndsWith(body, Footer)
  {
    SixParts(Header(t.title), Paragraph(t.description), StatusRow(t.status), FieldRow(AssigneePrefix, t.assignee), FieldRow(ParentPrefix, t.parentId), Footer);
    Header(t.title) + Paragraph(t.description) + StatusRow(t.status) + FieldRow(AssigneePrefix, t.assignee) + FieldRow(ParentPrefix, t.parentId) + Footer
  }

  /** Where each part of a task body sits: the description right after the
      heading, the status line right after that, the assignee line right
      after the status line, the parent line right before the footer. */
  lemma TaskBodyLayout(t: Task)
    ensures var body, h, p, st := FormatTaskBody(t), Header(t.title), Paragraph(t.description), StatusRow(t.status);
      && OccursAt(body, st, |h| + |p|)
      && (Truthy(t.description) ==> OccursAt(body, t.description.value + "\n\n", |h|))
      && (Truthy(t.assignee) ==> OccursAt(body, AssigneePrefix + t.assignee.value + "\n", |h| + |p| + |st|))
      && (Truthy(t.parentId) ==> EndsWith(body, ParentPrefix + t.parentId.value + "\n" + Footer))
      && (!Truthy(t.assignee) && !Truthy(t.parentId) ==> EndsWith(body, st + Footer))
  {
    SixParts(Header(t.title), Paragraph(t.description), StatusRow(t.status), FieldRow(AssigneePrefix, t.assignee), FieldRow(ParentPrefix, t.parentId), Footer);
  }

  /** The status line is the only part of a task body that depends on the
      status, and the four status values differ in their first character, so
      the body determines the status. */
  lemma TaskBodyDeterminesStatus(t: Task, status: TaskStatus)
    ensures FormatTaskBody(t.(status := status)) == FormatTaskBody(t) ==> status == t.status
  {
    var u := t.(status := status);
    var k := |Header(t.title)| + |Paragraph(t.description)|;
    hide FormatTaskBody, StatusRow, Header, Paragraph;
    TaskBodyLayout(t);
    TaskBodyLayout(u);
    StatusRowFirstChar(t.status);
    StatusRowFirstChar(status);
    OccursAtIndex(FormatTaskBody(t), StatusRow(t.status), k, |StatusPrefix|);
    OccursAtIndex(FormatTaskBody(u), StatusRow(status), k, |StatusPrefix|);
  }

  /** The character after the status prefix tells the four statuses apart. */
  lemma StatusRowFirstChar(status: TaskStatus)
    ensures |StatusPrefix| < |StatusRow(status)|
    ensures StatusRow(status)[|StatusPrefix|] == match status
      case Todo => 't' case InProgress => 'i' case Done => 'd' case Blocked => 'b'
  {
    assert StatusRow(status) == StatusPrefix + (status.Value() + "\n");
  }

  /** A task with no description, assignee or parent gets the minimal body:
      heading, status line, footer. */
  lemma MinimalTaskBody(t: Task)
    requires !Truthy(t.description) && !Truthy(t.assignee) && !Truthy(t.parentId)
    ensures FormatTaskBody(t) == Header(t.title) + StatusRow(t.status) + Footer
  {
    var h, st := Header(t.title), StatusRow(t.status);
    assert h + "" + st + "" + "" + Footer == h + st + Footer;
  }

  /** `formatRequirementBody`: the title heading, the description when
      present, the priority line when present, then the footer. */
  function FormatRequirementBody(r: Requirement): (body: string)
    ensures StartsWith(body, Header(r.title))
    ensures EndsWith(body, Footer)
  {
    SixParts(Header(r.title), Paragraph(Some(r.description)), FieldRow(PriorityPrefix, r.priority), "", "", Footer);
    Header(r.title) + Paragraph(Some(r.description)) + FieldRow(PriorityPrefix, r.priority) + "" + "" + Footer
  }

  /** Where each part of a requirement body sits; without description and
      priority the body is the heading followed by the footer. */
  lemma RequirementBodyLayout(r: Requirement)
    ensures var body := FormatRequirementBody(r);
      && (r.description != "" ==> OccursAt(body, r.description + "\n\n", |Header(r.title)|))
      && (Truthy(r.priority) ==> EndsWith(body, PriorityPrefix + r.priority.value + "\n" + Footer))
      && (r.description == "" && !Truthy(r.priority) ==> body == Header(r.title) + Footer)
  {
    var h, p, pr := Header(r.title), Paragraph(Some(r.description)), FieldRow(PriorityPrefix, r.priority);
    SixParts(h, p, pr, "", "", Footer);
    SixParts(h, p, "", "", pr, Footer);
    if r.description == "" && !Truthy(r.priority) {
      assert h + p + pr + "" + "" + Footer == h + Footer;
    }
  }
}

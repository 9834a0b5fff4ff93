# SpecBridge sync core in Dafny

SpecBridge reads Kiro specification directories, each with a
`requirements.md`, a `design.md` and a `tasks.md`. It turns them into one
`SpecData` record: requirements, tasks, an optional design and the epic
fields. It then pushes that record to target platforms such as GitHub
Issues, and a sync engine sits between the two sides.

This project models the decision layer of that pipeline:
- the scope filter, which adapter calls a target receives, per-target error
  isolation, and the engine's status and history;
- the `SyncResult` algebra;
- the GitHub reconciliation rules: marker labels, create versus update,
  per-item accounting, issue state, change comments and body formatting;
- the Kiro markdown parsers for task lines and requirement headings, the
  epic title, and the multi-spec merge;
- the spec and configuration validators, and environment-variable
  substitution;
- the sync-state map;
- the data model and the error hierarchy.

Every effect becomes an input:
- directory contents arrive as per-spec records of file texts;
- the parsed YAML tree is a value;
- the environment is a map;
- the clock is a `now` string;
- the GitHub search and write calls are oracle functions over an abstract
  remote state `S`;
- source and target adapters are functions that return a result or an
  error.

The modules follow the source files:

| module | file |
|---|---|
| `Errors` | `src/utils/errors.ts` |
| `Models` | `src/core/models.ts` |
| `SyncResults` | `src/adapters/target/base.ts` |
| `GitHubFormat`, `GitHubSync` | `src/adapters/target/github.ts` |
| `IssueStore` | an in-memory issue tracker behind the GitHub oracles (`src/adapters/target/github.ts`), used to state idempotence and read-back |
| `KiroTasks`, `KiroRequirements`, `Kiro` | `src/adapters/source/kiro.ts` |
| `SpecValidation` | `src/adapters/source/base.ts` |
| `Config` | `src/core/config.ts` |
| `SyncState` | `src/core/sync-state.ts` |
| `SyncEngine` | `src/core/sync-engine.ts` |

`Wrappers` and `Text` hold `Option`/`Result` and the JavaScript string
helpers: `trim`, `split`, `join`, `\s`, `\w`, `toUpperCase` on ASCII, and
number printing.

### The two markdown patterns

The task and requirement patterns are recognised by hand-written matchers.
Each matcher runs over the whole text, with the `g` and `m` flags, and
follows the regular expression's backtracking exactly. `\s` spans line
breaks, so a match may run across lines. In both patterns, only two parts
are non-deterministic:
- the whitespace before the title gives characters back only when nothing
  but whitespace is left;
- the lazy task title stops at the first position where the optional
  ` (@word)` and the end of the line can follow.

### Where the code and its own comments disagree (the code is followed)

The comments above the task pattern at `src/adapters/source/kiro.ts:256-259`
promise two line formats, `- [ ] 1.1 Task title` and `- [ ] 1. Task title`,
and the markers `[ ] = todo`, `[x] = done` and `[-] = in_progress`. The
pattern on the next line does otherwise:
- **The marker class.** The task-marker class `[ x-~]` is a space or a
  character in the range `x`..`~`.
  - A `[-]` line is therefore never matched, and the in-progress branch of
    the status mapping cannot be reached from the parser.
  - `y`, `z`, `{`, `|` and `}` read as todo.
- **Task ids.** A task id has at most one dot level and must be followed by
  a dot, so `- [ ] 1.1 Task title` is not a task line.

### How the scope is applied

Two facts about `src/core/sync-engine.ts:176-245`, modelled as written:
- For every scope other than `all`, the filter drops the epic title,
  description and status, because the filtered record is rebuilt from meta
  and design only.
- An omitted scope keeps all the data but sends only tasks. The `single`
  scope filters the data and then sends nothing.

### The issue search

`findIssueByLabel` (`src/adapters/target/github.ts:237-281`) takes the first
issue of a label listing that asks for no sort order. GitHub lists issues
newest first by default, so the store's search lists matching issues newest
first, and the issue found for a marker is the newest one carrying it. The
Octokit branch asks for all states. The `gh issue list` branch asks for no
state, so it sees open issues only. `IssueStore.Search` is the first,
`IssueStore.SearchOpen` the second.

## Model

| member | source | states |
|---|---|---|
| Errors.CodeDeterminesClass | src/utils/errors.ts:28-83 | the five subclasses' codes are pairwise distinct: two subclass errors have the same code exactly when they are the same class |
| Errors.MessageShapes | src/utils/errors.ts:28-52 | a not-found message ends with the path; a parse message starts with `Failed to parse configuration: ` and ends with the detail; an adapter message is `Adapter '<name>' error: <detail>`; an authentication message names the platform and ends with the credentials hint |
| Errors.RateLimitRetryHint | src/utils/errors.ts:58-69 | the rate-limit message names the platform and ends with ` Retry after <n>s` exactly when `retryAfter` is truthy (present and non-zero), otherwise with `<platform>.` |
| Models.StatusFromValue | src/core/models.ts:28-33 | reading a status string back yields a status whose value is that string |
| Models.StatusValuesRoundTrip | src/core/models.ts:28-33 | every status round-trips through its string value, and exactly the four strings todo, in_progress, done, blocked are status values |
| SyncResults.CreateSyncResult | src/adapters/target/base.ts:89-98 | a fresh result is successful, all-zero, without changes and consistent |
| SyncResults.Absorb | src/adapters/target/base.ts:110-119 | one merge step adds the counters, ands the success, appends the changes and keeps consistency |
| SyncResults.AddErrors | src/adapters/target/base.ts:132-137 | adding messages one by one raises `failed` by their number, appends them in order, fails the result when there is one, and keeps consistency |
| SyncResults.AddError | src/adapters/target/base.ts:132-137 | the result is unsuccessful, `failed` grows by exactly one, the message is appended to the errors, and the created and updated counters and the changes are untouched |
| SyncResults.MergeFrom | src/adapters/target/base.ts:110-120 | the merge loop from any accumulator: success is the conjunction, each counter adds the inputs' totals, and changes and errors are appended in input order |
| SyncResults.MergeSyncResults | src/adapters/target/base.ts:107-123 | success iff every input succeeded (true for none); each counter is the sum over the inputs; changes are concatenated in order; errors are the present error lists concatenated in order |
| SyncResults.TotalAppend | src/adapters/target/base.ts:110-115 | counter totals are additive over concatenation |
| SyncResults.AllChangesAppend | src/adapters/target/base.ts:115 | the concatenated changes distribute over concatenation of the inputs |
| SyncResults.AllErrorsAppend | src/adapters/target/base.ts:116-119 | the concatenated errors distribute over concatenation of the inputs |
| SyncResults.AllSucceededAppend | src/adapters/target/base.ts:111 | all of `a + b` succeed iff all of `a` and all of `b` do |
| SyncResults.MergePair | src/adapters/target/base.ts:107-123 | merging two results adds their counters, ands their success and concatenates their changes and errors |
| SyncResults.MergeIsHomomorphism | src/adapters/target/base.ts:89-123 | merging nothing gives the fresh result, and merging `a + b` equals merging the merge of `a` with the merge of `b` |
| SyncResults.AddErrorIsAbsorbFailure | src/adapters/target/base.ts:107-137 | adding an error equals merging in a fresh result that carries that one error |
| SyncResults.AddErrorsFromFresh | src/adapters/target/base.ts:89-98 | starting from a fresh result and adding only errors gives `failed = \|errors\|`, success iff nothing failed, and the errors in order |
| SyncResults.AddErrorsKeepsConsistent | src/adapters/target/base.ts:132-137 | adding errors to a consistent result keeps `failed = \|errors\|` and success iff nothing failed |
| SyncResults.MergeKeepsConsistent | src/adapters/target/base.ts:107-123 | the merge of consistent results is consistent |
| SyncResults.ConsistentTotals | src/adapters/target/base.ts:107-123 | over consistent results, the failed total is the number of errors and all succeed iff nothing failed |
| GitHubFormat.MarkerLabel | src/adapters/target/github.ts:118 | the correlation label starts with `specbridge:` and ends with the item id |
| GitHubFormat.MarkerRoundTrip | src/adapters/target/github.ts:118 | a marker label reads back as exactly the kind and id it was built from |
| GitHubFormat.MarkerInjective | src/adapters/target/github.ts:118 | two items share a marker label iff they have the same kind and id |
| GitHubFormat.BuildLabels | src/adapters/target/github.ts:466-478 | the item's labels (or none) come first and unchanged, followed by the sync label when it is non-empty, so the length is one more |
| GitHubFormat.BuiltLabelsMarkOnlyTheItem | src/adapters/target/github.ts:466-478 | when the item's own labels hold no marker, the built labels hold its marker and no other |
| GitHubFormat.StateFor | src/adapters/target/github.ts:175 | a task's issue is closed iff the task is done |
| GitHubFormat.TaskStatusOf | src/adapters/target/github.ts:220-228 | the status read back is done iff an issue was found and it is closed, otherwise todo; never in progress or blocked |
| GitHubFormat.StateReadBack | src/adapters/target/github.ts:175-228 | writing a task's state and reading it back gives done for a done task and todo for every other status |
| GitHubFormat.DetectTaskChanges | src/adapters/target/github.ts:368-404 | zero to two updated-task entries: a title entry (old and new title) iff the titles differ, then an assignee entry iff the assignees differ |
| GitHubFormat.FormatChangeComment | src/adapters/target/github.ts:487-501 | the comment starts with the synced-by header and the time |
| GitHubFormat.ChangeLinesAppend | src/adapters/target/github.ts:492-498 | the change lines of `a + b` are the lines of `a` followed by those of `b` |
| GitHubFormat.DetectedChangesComment | src/adapters/target/github.ts:368-404 | the comment for detected changes is the header, then a title line iff the titles differ, then an assignee line iff the assignees differ |
| GitHubFormat.FormatTaskBody | src/adapters/target/github.ts:413-433 | a task body starts with `# <title>` and a blank line and ends with the SpecBridge footer |
| GitHubFormat.TaskBodyLayout | src/adapters/target/github.ts:413-433 | the status line follows the heading and the optional description; the description, assignee and parent lines appear in place exactly when truthy |
| GitHubFormat.TaskBodyDeterminesStatus | src/adapters/target/github.ts:413-433 | the body of a task determines its status |
| GitHubFormat.StatusRowFirstChar | src/adapters/target/github.ts:420 | the first character after `**Status:** ` differs for each of the four statuses |
| GitHubFormat.MinimalTaskBody | src/adapters/target/github.ts:413-433 | with no description, assignee or parent, the body is the heading, the status line and the footer |
| GitHubFormat.FormatRequirementBody | src/adapters/target/github.ts:442-456 | a requirement body starts with `# <title>` and ends with the footer |
| GitHubFormat.RequirementBodyLayout | src/adapters/target/github.ts:442-456 | the description follows the heading when non-empty; the priority line precedes the footer when truthy; with neither, the body is heading plus footer |
| GitHubSync.RequestShape | src/adapters/target/github.ts:120-136 | every request carries the item's marker label last; a task's request asks for a closed issue iff the task is done, and a requirement's sets no state or assignee |
| GitHubSync.FindIssueByLabel | src/adapters/target/github.ts:237-281 | the lookup finds an issue iff the search succeeds with a non-empty list, and then it is the first one; a search error reads as not found |
| GitHubSync.Calls | src/adapters/target/github.ts:118-136 | no existing issue leads to one create; an existing one leads to an update of that issue number, followed by a change comment iff the item is a task with detected changes and comments are not turned off |
| GitHubSync.LookupErrorCreates | src/adapters/target/github.ts:237-281 | a failing lookup sends the item down the create path |
| GitHubSync.SyncItem | src/adapters/target/github.ts:116-148 | an item is synced iff all its calls succeed; its change is `created` or `updated` by whether an issue was found; otherwise the failure message names the kind, the id and the error |
| GitHubSync.Tally | src/adapters/target/github.ts:139-147 | each outcome raises exactly one counter: created for a created change, updated otherwise, failed via `addError` for a failure |
| GitHubSync.SyncItems | src/adapters/target/github.ts:116-148 | counters grow by exactly the number of items, never shrink, each sync adds one change, and consistency is kept |
| GitHubSync.SyncRequirements | src/adapters/target/github.ts:113-151 | `created + updated + failed` equals the number of requirements, `\|changes\| = created + updated`, the result is consistent, and no input gives the fresh result with no remote change |
| GitHubSync.SyncTasks | src/adapters/target/github.ts:160-211 | the same accounting for tasks, with the state and comment rules |
| GitHubSync.GetTaskStatus | src/adapters/target/github.ts:220-228 | done iff the first issue with the task's marker label is closed; todo when none is found or the search fails |
| IssueStore.Matching | src/adapters/target/github.ts:237-281 | the search returns issues that carry the label, and returns none iff no issue carries it |
| IssueStore.OpenIssues | src/adapters/target/github.ts:259-260 | the open issues, and all of them |
| IssueStore.SearchOpen | src/adapters/target/github.ts:259-264 | the `gh` search never fails and returns only open issues carrying the label |
| IssueStore.MatchingFirst | src/adapters/target/github.ts:240-248 | the first issue found is the newest issue carrying the label, GitHub's default order |
| IssueStore.MatchingHead | src/adapters/target/github.ts:240-248 | a non-empty search result starts with the newest issue carrying the label |
| IssueStore.Revise | src/adapters/target/github.ts:315-336 | an update keeps the issue number, writes the labels and sets the state only when one is given |
| IssueStore.Perform | src/adapters/target/github.ts:289-336 | the corrected create (the requested state forwarded, as the request built at src/adapters/target/github.ts:191 asks) appends one issue and keeps the others, a comment leaves the issues alone, an update fails iff the number is unknown, and numbering is kept |
| IssueStore.PerformAsWritten | src/adapters/target/github.ts:289-306 | as written, a create always opens the new issue, whatever state was asked for |
| IssueStore.RequestLabels | src/adapters/target/github.ts:466-478 | a plain item's request labels hold its marker and no other marker |
| IssueStore.CreateKeepsGood | src/adapters/target/github.ts:289-306 | creating keeps issues numbered and each carrying at most one marker, keeps every existing marker findable, and makes the new marker findable |
| IssueStore.UpdateKeepsGood | src/adapters/target/github.ts:315-336 | updating the issue that carries a marker keeps the store invariant and every marker findable |
| IssueStore.BothAct | src/adapters/target/github.ts:289-336 | the corrected create and the create as written both act on the store as the adapter does (`ActsAsStore`: every call as `Perform`, except that a create may drop the requested state) |
| IssueStore.CreateActs | src/adapters/target/github.ts:289-306 | through either create, a create succeeds and appends an issue built from the request, with or without its state |
| IssueStore.UpdateWhenFound | src/adapters/target/github.ts:116-148 | an item whose issue the search finds is counted as updated and only that issue is revised, for either search and either create |
| IssueStore.ItemState | src/adapters/target/github.ts:116-148 | with the create as written or corrected, against the store an item always syncs: an unseen marker creates, a seen one updates the newest issue carrying it |
| IssueStore.ItemStep | src/adapters/target/github.ts:116-148 | with the create as written or corrected, one item sync keeps the store invariant, updates iff its marker was present, and leaves its marker findable |
| IssueStore.ItemsStep | src/adapters/target/github.ts:113-211 | with the create as written or corrected, a batch keeps the invariant, fails nothing, leaves every item findable, and only updates when every marker was already present |
| IssueStore.SecondSyncOnlyUpdates | src/adapters/target/github.ts:113-211 | as written, with the Octokit search over all states, syncing the same items twice: the first pass fails nothing and the second creates nothing and updates every item |
| IssueStore.SecondSyncOnlyUpdatesCorrected | src/adapters/target/github.ts:113-211 | with the corrected create, syncing the same items twice: the first pass fails nothing and the second creates nothing and updates every item |
| IssueStore.StepReadsBack | src/adapters/target/github.ts:160-228 | with the corrected create, after a task sync, the issue the search finds first for the task's marker (the newest carrying it) has the state the task's status asks for |
| IssueStore.TaskStatusReadsBack | src/adapters/target/github.ts:160-228 | with state forwarded on create, the status read back after a sync is done for a done task and todo otherwise |
| IssueStore.DoneTaskReadsBackTodo | src/adapters/target/github.ts:289-306 | as written, a freshly created done task reads back as todo |
| IssueStore.OpenSearchMissesClosed | src/adapters/target/github.ts:259-264 | the `gh` search finds nothing for a label that only closed issues carry |
| IssueStore.CreateWhenNotFound | src/adapters/target/github.ts:116-136 | an item the search does not find is created and counted as created |
| IssueStore.OpenSearchFindsOnly | src/adapters/target/github.ts:259-264 | the `gh` search finds an open issue carrying the label |
| IssueStore.OpenSearchCreatesAgain | src/adapters/target/github.ts:259-264 | as written, with the `gh` search, a done task synced three times is created open, then updated (which closes it), then created again, leaving two issues with its marker |
| KiroTasks.MarkerClass | src/adapters/source/kiro.ts:260-279 | the marker class is exactly space and `x`..`~`; `-` is not in it; `x` maps to done and every other marker to todo |
| KiroTasks.LazyTitleStopsAtSuffix | src/adapters/source/kiro.ts:260 | the lazy title ends where an ` (@word)` suffix or the end of the line first follows, and the assignee comes from that suffix |
| KiroTasks.LazyTitleIsShortest | src/adapters/source/kiro.ts:260 | no shorter title admits a suffix or the end of the line |
| KiroTasks.IdEnd | src/adapters/source/kiro.ts:260 | a recognised task id is digits with at most one dotted part, followed by a dot |
| KiroTasks.HeadAt | src/adapters/source/kiro.ts:260 | a line head starts at a line start with `-` and a marker from the class |
| KiroTasks.TaskMatchAt | src/adapters/source/kiro.ts:260 | a match starts a line with `-`, ends at a line end, and has a class marker, a valid id, a non-empty single-line title and an optional word assignee |
| KiroTasks.StatusOf | src/adapters/source/kiro.ts:269-279 | a marker maps to done iff it is `x`, to in progress iff it is `-`, and never to blocked |
| KiroTasks.LazyTitle | src/adapters/source/kiro.ts:260 | the lazy title stays on one line and ends at a line end, after an assignee group when one is taken |
| KiroTasks.TitleFrom | src/adapters/source/kiro.ts:260 | the title part is non-empty, on one line, and ends at a line end; an assignee is a word |
| KiroTasks.ToTask | src/adapters/source/kiro.ts:264-286 | a matched line gives a task with a valid id, a trimmed (possibly empty) title and a todo or done status |
| KiroTasks.BlankTitleTask | src/adapters/source/kiro.ts:260-286 | `- [ ] 1.  ` is a task line whose trimmed title is empty |
| KiroTasks.ScanTasks | src/adapters/source/kiro.ts:263-287 | every task the scan produces is well formed |
| KiroTasks.ParseTasks | src/adapters/source/kiro.ts:248-290 | the parser never yields an in-progress or blocked task |
| KiroTasks.DashMarkerIgnored | src/adapters/source/kiro.ts:260 | a `- [-]` line is not a task |
| KiroTasks.SubtaskWithoutDotIgnored | src/adapters/source/kiro.ts:260 | `- [ ] 1.1 Title` is not a task, since the id must be followed by a dot |
| KiroTasks.NoMatchWithoutDash | src/adapters/source/kiro.ts:260 | no match starts at a character other than `-` |
| KiroTasks.ScanDocument | src/adapters/source/kiro.ts:263-287 | scanning a document of rendered task lines yields exactly the task each line describes, in order |
| KiroTasks.ParseDocument | src/adapters/source/kiro.ts:248-290 | parsing rendered task lines inverts the rendering: ids, trimmed titles, statuses and assignees come back in order |
| KiroRequirements.ReqMatchAt | src/adapters/source/kiro.ts:197 | a heading match starts with `#`, ends at a line end and carries a non-empty digit number |
| KiroRequirements.TitleAfter | src/adapters/source/kiro.ts:197 | the heading title is non-empty and on one line, and ends at a line end |
| KiroRequirements.NextHeading | src/adapters/source/kiro.ts:206 | the result is the first `###` at or after the search start, and -1 iff there is none |
| KiroRequirements.DescriptionEnd | src/adapters/source/kiro.ts:206-209 | the description runs from its start to the first `###` after it, or to the end of the text |
| KiroRequirements.ToRequirement | src/adapters/source/kiro.ts:200-215 | a match gives `req-<number>` with a trimmed title and description and no optional field |
| KiroRequirements.ScanRequirements | src/adapters/source/kiro.ts:200-216 | every requirement the scan produces is well formed |
| KiroRequirements.ParseRequirements | src/adapters/source/kiro.ts:186-219 | every parsed requirement is well formed and has an id starting with `req-` |
| KiroRequirements.HeadingMatches | src/adapters/source/kiro.ts:197 | a rendered `### 需求 N: title` line matches with that number and title |
| KiroRequirements.ScanDocument | src/adapters/source/kiro.ts:200-216 | scanning rendered sections yields exactly the requirement each section describes, in order |
| KiroRequirements.ParseDocument | src/adapters/source/kiro.ts:186-219 | parsing rendered sections inverts the rendering: ids, titles and trimmed descriptions come back in order |
| KiroRequirements.AdjacentHeadings | src/adapters/source/kiro.ts:205-209 | a heading followed directly by another heading gives a requirement with an empty description |
| Kiro.FormatEpicTitle | src/adapters/source/kiro.ts:171-177 | the title has the name's length; each character is upper-cased at the start of a segment, a space where the name has `-`, and kept otherwise |
| Kiro.EpicTitleChars | src/adapters/source/kiro.ts:171-177 | split on `-`, capitalise and join with a space equals the character-wise description |
| Kiro.EpicTitleOneWord | src/adapters/source/kiro.ts:171-177 | a name without `-` is just capitalised |
| Kiro.EpicTitleTwoWords | src/adapters/source/kiro.ts:171-177 | `a-b` becomes `A B` |
| Kiro.EpicTitleExampleTwoWords | src/adapters/source/kiro.ts:171-177 | `user-authentication` becomes `User Authentication` |
| Kiro.EpicTitleExampleOneWord | src/adapters/source/kiro.ts:171-177 | `test` becomes `Test`, and the empty name stays empty |
| Kiro.LastSegment | src/adapters/source/kiro.ts:98 | the segment is a suffix of the path without `/`, and is the whole path or preceded by `/` |
| Kiro.Basename | src/adapters/source/kiro.ts:98 | the base name has no `/` and is the last segment once the trailing `/`s are removed |
| Kiro.TrimTrailingSlashes | src/adapters/source/kiro.ts:98 | the path loses exactly its final run of `/` |
| Kiro.BasenameOfJoin | src/adapters/source/kiro.ts:80-98 | the base name of `dir/entry` is the entry, so a spec is named after its directory entry |
| Kiro.LastSegmentAfterSlash | src/adapters/source/kiro.ts:80-98 | the last segment of `dir/entry` is the entry |
| Kiro.PrefixRequirement | src/adapters/source/kiro.ts:121-124 | the id becomes `<spec>:<id>` and every other field is kept |
| Kiro.PrefixTask | src/adapters/source/kiro.ts:127-132 | the id becomes `<spec>:<id>`, specName and specPath are set, and every other field is kept |
| Kiro.PrefixedRequirements | src/adapters/source/kiro.ts:116-124 | one prefixed requirement per parsed requirement, in file order |
| Kiro.PrefixedTasks | src/adapters/source/kiro.ts:118-132 | one prefixed task per parsed task, in file order |
| Kiro.AppendDescription | src/adapters/source/kiro.ts:106-113 | the first content is taken as is; later ones are appended after `\n\n---\n\n` |
| Kiro.FirstDesign | src/adapters/source/kiro.ts:137-139 | a design results iff some spec has one |
| Kiro.MergeLists | src/adapters/source/kiro.ts:97-140 | the merge loop appends every spec's prefixed requirements and tasks in directory order and keeps the first design |
| Kiro.MergeRequirements | src/adapters/source/kiro.ts:134 | merged requirements are all specs' prefixed requirements in order |
| Kiro.MergeTasks | src/adapters/source/kiro.ts:135 | merged tasks are all specs' prefixed tasks in order |
| Kiro.MergeDesign | src/adapters/source/kiro.ts:137-139 | the merged design is the first design present |
| Kiro.MergeDescriptionFrom | src/adapters/source/kiro.ts:106-113 | from a non-empty description, each present requirements file is appended after the separator |
| Kiro.MergeDescriptionEmpty | src/adapters/source/kiro.ts:106-113 | from an empty description, the result joins the contents after dropping leading empty ones |
| Kiro.MergeDirsSpec | src/adapters/source/kiro.ts:92-140 | the merge equals its reference: all prefixed lists, first design, and the contents joined by the separator when none is empty |
| Kiro.AllRequirementsPrefixed | src/adapters/source/kiro.ts:121-134 | every merged requirement is some spec's parsed requirement with that spec's prefix |
| Kiro.Wrap | src/adapters/source/kiro.ts:159-161 | every parse failure is an adapter error of the Kiro adapter |
| Kiro.Assemble | src/adapters/source/kiro.ts:143-155 | the record's meta is the base name, version `1.0.0` and the time, and its epic title is the formatted base name |
| Kiro.Parse | src/adapters/source/kiro.ts:50-162 | a missing directory and an empty listing give their adapter errors; a success is the validated assembly of the merge |
| Kiro.ParseSucceeds | src/adapters/source/kiro.ts:50-162 | parsing succeeds iff the directory lists at least one spec and the assembled record validates |
| Kiro.AdjacentHeadingsFailParse | src/adapters/source/kiro.ts:205-209 | a requirements file whose first heading is directly followed by another makes the whole parse fail |
| Kiro.BlankTaskTitleFailsParse | src/adapters/source/kiro.ts:260-286 | a tasks file holding `- [ ] 1.  ` makes the whole parse fail, because the task's title is empty |
| Kiro.AllTasksAt | src/adapters/source/kiro.ts:127-135 | a spec's first task sits, prefixed, in the merged task list |
| SpecValidation.MetaProblem | src/adapters/source/base.ts:71-85 | a meta problem is reported iff some meta field is empty |
| SpecValidation.FirstBad | src/adapters/source/base.ts:98-121 | the index found is the first item failing the check, and none is found iff all pass |
| SpecValidation.ValidateSpecData | src/adapters/source/base.ts:69-122 | validation passes iff meta, every requirement and every task are complete; a meta problem is reported first |
| SpecValidation.FirstBadRequirementReported | src/adapters/source/base.ts:98-108 | with a good meta, the first incomplete requirement is reported with its index and missing field |
| SpecValidation.FirstBadTaskReported | src/adapters/source/base.ts:111-121 | with good meta and requirements, the first incomplete task is reported with its index and missing field |
| SpecValidation.EmptyDescriptionRejected | src/adapters/source/base.ts:105-107 | a requirement with an empty description fails validation |
| SpecValidation.StatusAlwaysPresent | src/adapters/source/base.ts:118-120 | every status value is non-empty, so a task is complete iff its id and title are |
| Config.PlaceholderEnd | src/core/config.ts:191 | the closing brace found ends a `${name}` with a non-empty name free of `}`, and none is found iff no placeholder starts there |
| Config.ReplaceEnvVars | src/core/config.ts:190-198 | a failure is the undefined-variable parse error for a name the environment lacks, and a string without `$` comes back unchanged |
| Config.NoPlaceholderUnchanged | src/core/config.ts:190-198 | a string without a placeholder is returned unchanged |
| Config.ReplaceIsRender | src/core/config.ts:190-198 | substitution of a well-formed template equals its rendering: text kept, references replaced left to right, values not rescanned |
| Config.RenderSucceeds | src/core/config.ts:193-195 | rendering succeeds iff every referenced name is set |
| Config.ReplaceFailsIffUnset | src/core/config.ts:193-195 | substitution fails iff some referenced name is unset |
| Config.ReplaceNamesFirstUnset | src/core/config.ts:193-195 | the failure names the first unset variable |
| Config.ReplaceEnvVarsInConfig | src/core/config.ts:207-227 | it succeeds iff every string leaf resolves; arrays keep their length, objects their keys in order, non-string leaves stay, and failures are parse errors |
| Config.ReplaceItems | src/core/config.ts:212-214 | the array items are replaced one for one |
| Config.ReplaceFields | src/core/config.ts:216-224 | the object fields are replaced one for one with the keys kept |
| Config.NoPlaceholderConfigUnchanged | src/core/config.ts:207-227 | a tree without placeholders comes back unchanged |
| Config.FirstBadTarget | src/core/config.ts:162-178 | the index found is the first malformed target, and none is found iff all are well formed |
| Config.ValidateConfig | src/core/config.ts:131-179 | validation passes iff the version is "1.0", the source has a type and every target of a non-empty array is well formed; failures are parse errors or a null read |
| Config.FirstBadTargetReported | src/core/config.ts:162-178 | with version and source good, the first malformed target is reported with its index and the first failing field |
| Config.MissingVersionFirst | src/core/config.ts:133-135 | a missing version is reported before anything else |
| Config.NumericVersionRejected | src/core/config.ts:137-141 | a version written as a number is rejected |
| Config.ValidateConfigAccepts | src/core/config.ts:131-179 | a config with version 1.0, a kiro source and one complete target is accepted |
| Config.ValidateConfigNoTargets | src/core/config.ts:153-159 | an empty target list is rejected with the at-least-one-target message |
| Config.ConfigFilePath | src/core/config.ts:98 | a given path is used as is, otherwise the default file in the working directory |
| Config.LoadSteps | src/core/config.ts:105-115 | the load steps succeed iff the YAML parses, every variable resolves and the substituted tree validates |
| Config.LoadConfigAsWritten | src/core/config.ts:97-122 | as written: a missing file is a not-found error and every later failure a parse error |
| Config.DoublePrefixAsWritten | src/core/config.ts:116-121 | as written, a validation failure's message carries the `Failed to parse configuration: ` prefix twice |
| Config.LoadConfig | src/core/config.ts:97-122 | a missing file is a not-found error, every later failure a parse error, and success iff the steps succeed |
| Config.SinglePrefix | src/core/config.ts:116-121 | corrected, a validation failure is passed on unchanged with one prefix |
| Config.UnsetVariableDoublePrefixAsWritten | src/core/config.ts:116-121 | as written, an unset variable's error is wrapped again, so its message carries the `Failed to parse configuration: ` prefix twice |
| Config.UnsetVariableReported | src/core/config.ts:116-121 | corrected, an unset variable is reported as the substitution's own error |
| Config.YamlFailureWrapped | src/core/config.ts:116-121 | a YAML failure becomes one parse error naming the file |
| SyncState.NewManager | src/core/sync-state.ts:39-43 | a new manager has an empty map and a state file under `.specbridge/sync-state.json` |
| SyncState.Load | src/core/sync-state.ts:51-65 | loading keeps the parsed map, and falls back to the empty map when the file is absent or unreadable |
| SyncState.GetSyncId | src/core/sync-state.ts:88-90 | an id is found iff the key is present, and it is the stored value |
| SyncState.SetSyncId | src/core/sync-state.ts:99-101 | after setting, the key reads back the value and every other key is unchanged |
| SyncState.RemoveSyncId | src/core/sync-state.ts:109-111 | after removing, the key reads back nothing and every other key is unchanged |
| SyncState.GetAll | src/core/sync-state.ts:119-121 | the copy holds exactly the keys and values the manager reads back |
| SyncState.Clear | src/core/sync-state.ts:127-129 | after clearing, no key reads back anything |
| SyncState.HasSynced | src/core/sync-state.ts:138-140 | an item is synced iff its sync id is defined |
| SyncState.GetSyncedCount | src/core/sync-state.ts:148-150 | the count is the number of keys |
| SyncState.SetCount | src/core/sync-state.ts:99-150 | overwriting a key keeps the count; adding a new key raises it by one |
| SyncState.RemoveCount | src/core/sync-state.ts:109-150 | after removal the key is not synced, and the count drops by one iff it was present |
| SyncState.ClearEmpties | src/core/sync-state.ts:127-150 | after clearing, the count is zero and nothing is synced |
| SyncState.SetKeepsOthers | src/core/sync-state.ts:99-140 | setting one key does not change whether another is synced |
| SyncState.HasSyncedAsWritten | src/core/sync-state.ts:138-140 | as written, the check agrees with the map except on names every object inherits |
| SyncState.PrototypeNameAlwaysSynced | src/core/sync-state.ts:138-140 | as written, `toString` counts as synced after clearing and after removal, while the count is zero |
| SyncState.GetSyncIdAsWritten | src/core/sync-state.ts:88-90 | as written, the lookup returns the stored id for a set key, an inherited member for a name of `Object.prototype`, and is defined exactly when `hasSynced` as written is true |
| SyncState.PrototypeNameReadsMember | src/core/sync-state.ts:88-90 | as written, after clearing, the id read for `toString` is the inherited method, not `undefined` |
| SyncEngine.FindRequirement | src/core/sync-engine.ts:233 | the requirement found is the first with the id, and none is found iff no requirement has it |
| SyncEngine.FindTask | src/core/sync-engine.ts:238 | the task found is the first with the id, and none is found iff no task has it |
| SyncEngine.FilterByScope | src/core/sync-engine.ts:213-245 | the filter keeps meta and design, and each list keeps only items of the input list, never more of them |
| SyncEngine.FilterByScopeRules | src/core/sync-engine.ts:213-245 | an omitted or `all` scope keeps the data; other scopes keep meta and design and drop the epic fields; `requirements` and `tasks` keep only their list |
| SyncEngine.FilterSingle | src/core/sync-engine.ts:231-242 | `single` keeps at most one requirement and one task, each present iff some item has the id, and nothing without an id |
| SyncEngine.Calls | src/core/sync-engine.ts:176-200 | requirements are sent iff the scope is all or requirements and the list is non-empty; tasks iff all, tasks or omitted and non-empty; design iff all, present and supported; in that order |
| SyncEngine.RunCalls | src/core/sync-engine.ts:176-202 | the results are the calls' results in order, or the error of the first call that throws |
| SyncEngine.SyncToTarget | src/core/sync-engine.ts:162-173 | a dry run yields exactly one all-zero successful result |
| SyncEngine.DryRunCallsNothing | src/core/sync-engine.ts:162-173 | in a dry run every target yields the same all-zero result, whatever its adapter functions do |
| SyncEngine.TargetResultsInCallOrder | src/core/sync-engine.ts:176-202 | a target's results are its calls' results, ordered requirements, tasks, design |
| SyncEngine.OmittedScopeSendsOnlyTasks | src/core/sync-engine.ts:186-218 | an omitted scope keeps all data but sends only the tasks |
| SyncEngine.SingleScopeSendsNothing | src/core/sync-engine.ts:176-245 | the single scope sends no call and contributes no result |
| SyncEngine.PartialResultsDiscarded | src/core/sync-engine.ts:176-202 | if any call of a target throws, the target's sync fails and its earlier results are lost |
| SyncEngine.NewEngine | src/core/sync-engine.ts:50-53 | a new engine is idle with an empty history |
| SyncEngine.ErrorResult | src/core/sync-engine.ts:106-113 | a failing target contributes an unsuccessful result with one failure, no changes and its message as the only error |
| SyncEngine.SyncTargets | src/core/sync-engine.ts:94-117 | the loop's results are every target's contribution in target order |
| SyncEngine.ContributionsAppend | src/core/sync-engine.ts:94-117 | contributions are additive over concatenation of targets |
| SyncEngine.FailingTargetIsolated | src/core/sync-engine.ts:94-117 | a throwing target contributes exactly its error result, with the targets before and after it contributing as usual |
| SyncEngine.ContributionsSplit | src/core/sync-engine.ts:94-117 | the contributions of the targets split at any index |
| SyncEngine.FailedContribution | src/core/sync-engine.ts:102-116 | a throwing target's contribution is its single error result |
| SyncEngine.Sync | src/core/sync-engine.ts:64-143 | the source is parsed once, at the item id or the working directory; a parse failure sets error status, keeps history and is rethrown; otherwise history grows by the results and the status is error iff some result failed |
| SyncEngine.ClearHistory | src/core/sync-engine.ts:271-273 | clearing empties the history and leaves the status alone |

## Left out

- Filesystem access: `src/utils/file.ts` and the directory discovery in `src/adapters/source/kiro.ts:52-89`. A listing is either missing or a sequence of per-spec records holding the file texts.
- `gray-matter` front-matter stripping and YAML parsing, which are foreign libraries. Requirements and design bodies arrive already stripped, and configuration arrives as a parsed tree or a parse error message.
- Octokit calls, the `gh` subprocess and its command strings, and authentication (`src/adapters/target/github.ts:66-104`, `289-358`). They are oracle functions `search` and `perform` over an abstract remote state.
- Reading and writing the JSON state file (`src/core/sync-state.ts:51-79`). Loading receives what parsing produced; saving is not modelled.
- The logger, the CLI commands, `src/index.ts` and `process.exit`.
- `SyncEngine.Scope` has the four scope values only. `src/cli/commands/sync.ts:70` passes any `--scope` string through (`as any`); any other non-empty string filters the lists to empty and passes no call gate, so nothing is sent, and an empty string acts as an omitted scope. Strings outside the four values are not modelled.
- Asynchrony: every awaited call is treated as sequential.
- The clock. One `now` string stands for every `new Date().toISOString()` in a call, so the two meta timestamps of a parse are equal.
- The transient `syncing` status that `sync` sets at `src/core/sync-engine.ts:73`. Every completed or failed call overwrites it.
- `Models.ValidEpicStatus`: the epic-status invariant is only stated, because no code computes an epic status.
- The `sections` field of a design, which the parser never fills.
- `Array.isArray` checks in validation, which typed sequences cannot fail.
- The difference between `undefined` and `null` for optional model fields; both are `None`.
- Unicode beyond what the two patterns need. Upper-casing the first letter of an epic-title segment covers ASCII letters only.
- `SyncEngine.Sync`: an exception thrown by the scope filter is not modelled, because the filter cannot throw on typed data.
- `path.basename`: the `path.join` normalisation of the spec directory path is left out (`.` and `..` segments, repeated `/`). Base names are taken on POSIX paths only.
- `Config.ConfigFilePath` and `SyncState.NewManager` join with `cwd + "/" + name` and do not normalise as `path.join` does: a cwd of `/` gives `//.specbridge.yaml`, where the source gives `/.specbridge.yaml`.
- `Config.ReplaceEnvVars` looks names up in `env` as a map of own keys. `process.env[varName]` also returns members inherited from `Object.prototype`, so `${toString}` is replaced by the text of that function and never reported unset.
- `Config.ReplaceIsRender` covers the strings a `WellWritten` template renders to. A literal part that ends in `$` or holds `${` (as in `$${X}` or `${}-${X}`) has no such template, so substitution of those strings is stated only by the `Config.ReplaceEnvVars` contract.
- `Config.Value`: YAML numbers are integers. Fractions (a `version` of `1.5`), infinities and `.nan` (which is falsy where an integer would be truthy) are not modelled.
- `GetSyncId` reads own keys only. `this.state[itemId]` also returns members inherited from `Object.prototype`; `SyncState.GetSyncIdAsWritten` models that reading, and the rest of the model uses the own-key one. Writing `__proto__` as a key of the state object is not modelled.
- The issue order: the search lists matching issues newest first, as GitHub does when no sort is asked for (`src/adapters/target/github.ts:240-245`, `259-260`). Another server-side order is not modelled.
- The `gh` search sees open issues only. `IssueStore.SecondSyncOnlyUpdates`, `IssueStore.SecondSyncOnlyUpdatesCorrected`, `IssueStore.StepReadsBack` and `IssueStore.TaskStatusReadsBack` are stated for the Octokit search over all states; with the `gh` search a closed issue is not found again (`IssueStore.OpenSearchCreatesAgain`).
- `IssueStore.SearchOpen`, `IssueStore.PerformAsWritten` and `IssueStore.OpenSearchCreatesAgain` assume that `gh` accepts the command lines at `src/adapters/target/github.ts:260`, `299-301` and `328-332` (the `--json` field list with `assignee`, and `gh issue edit` with `--closed`, `--open`, `--label` and `--assignee`) and that it reports `state` in lower case, as the Octokit branch does. If `gh` rejects the list command, every lookup fails, the `catch` at `276-278` turns that into not found, and every sync creates (`GitHubSync.LookupErrorCreates`). If it rejects the edit command, every update fails. Neither behaviour of the `gh` tool itself is modelled.
- `SyncEngine.GetStatus` and `SyncEngine.GetHistory`: these return copies, which in a value model are the same values, so they carry no table row.

## Findings

| source | as written | input that shows it | evidently intended | confidence | as-written member | corrected member |
|---|---|---|---|---|---|---|
| src/adapters/target/github.ts:289-306 | `createIssue` sends title, body, labels and assignee but never the requested `state`, so every new issue is open | a new task with status done, synced once, then read with `getTaskStatus` | the issue is created closed, as the update path does at 315-336, so the task reads back as done | not executed | IssueStore.DoneTaskReadsBackTodo | IssueStore.TaskStatusReadsBack |
| src/core/config.ts:116-121 | the `catch` wraps every non-not-found error in a new `ConfigParseError`, including one `validateConfig` already threw | a config whose targets list is empty | the message `Failed to parse configuration: At least one target must be configured`, with one prefix | not executed | Config.DoublePrefixAsWritten | Config.SinglePrefix |
| src/adapters/target/github.ts:259-260 | the `gh issue list` command asks for no `--state`, so it lists open issues only, unlike the Octokit branch's `state: 'all'` | a done task synced three times through the `gh` CLI, assuming `gh` accepts the command lines at 260 and 328-332: created open, then closed by the update, then created again (if `gh` rejects them, every `gh` sync creates instead) | the closed issue is found and updated, not created again | not executed | IssueStore.OpenSearchCreatesAgain | IssueStore.SecondSyncOnlyUpdates |
| src/core/sync-state.ts:138-140 | `hasSynced` uses the `in` operator, which also sees names inherited from `Object.prototype` | item id `toString` after `clear()` | `hasSynced` is true only for keys that were set and not removed | not executed | SyncState.PrototypeNameAlwaysSynced | SyncState.HasSynced |

/** An in-memory GitHub repository behind the adapter's oracles: issues are
    numbered from 1 in creation order, a label search lists the issues that
    carry the label newest first (the order GitHub lists issues in when no
    sort is asked for), and the three calls of
    `src/adapters/target/github.ts` (`createIssue`, `updateIssue`,
    `addComment`) act on it. It gives whole-sync properties a concrete
    meaning: a second sync only updates, and a task's status reads back. */
module IssueStore {
  import opened Wrappers
  import opened Models
  import opened SyncResults
  import opened GitHubFormat
  import opened GitHubSync

  datatype Comment = Comment(number: nat, body: string)

  datatype Store = Store(issues: seq<Issue>, comments: seq<Comment>)

  /** Issue `i` (from 0) has number `i + 1`. */
  predicate Numbered(st: Store) {
    forall i :: 0 <= i < |st.issues| ==> st.issues[i].number == i + 1
  }

  /** The issues carrying label `name`, newest first. */
  function Matching(issues: seq<Issue>, name: string): (r: seq<Issue>)
    ensures forall x <- r :: x in issues && name in x.labels
    ensures r == [] <==> forall i :: 0 <= i < |issues| ==> name !in issues[i].labels
    decreases |issues|
  {
    if issues == [] then []
    else
      var init := issues[..|issues| - 1];
      var rest := Matching(init, name);
      assert forall i :: 0 <= i < |init| ==> init[i] == issues[i];
      if name in issues[|issues| - 1].labels then [issues[|issues| - 1]] + rest else rest
  }

  /** The first match is the newest issue that carries the label. */
  lemma {:induction false} MatchingFirst(issues: seq<Issue>, name: string, j: nat)
    requires j < |issues| && name in issues[j].labels
    requires forall i :: j < i < |issues| ==> name !in issues[i].labels
    ensures Matching(issues, name) != [] && Matching(issues, name)[0] == issues[j]
  {
    if j < |issues| - 1 {
      var init := issues[..|issues| - 1];
      assert init[j] == issues[j];
      forall i | j < i < |init| ensures name !in init[i].labels {
        assert init[i] == issues[i];
      }
      MatchingFirst(init, name, j);
    }
  }

  /** The position of the first match. */
  lemma {:induction false} MatchingHead(issues: seq<Issue>, name: string) returns (j: nat)
    requires Matching(issues, name) != []
    ensures j < |issues| && name in issues[j].labels && Matching(issues, name)[0] == issues[j]
    ensures forall i :: j < i < |issues| ==> name !in issues[i].labels
  {
    if name in issues[|issues| - 1].labels {
      j := |issues| - 1;
    } else {
      var init := issues[..|issues| - 1];
      j := MatchingHead(init, name);
      assert issues[j] == init[j];
      forall i | j < i < |issues| ensures name !in issues[i].labels {
        if i < |issues| - 1 {
          assert issues[i] == init[i];
        }
      }
    }
  }

  /** The search of the Octokit branch (`state: 'all'`): listing issues by
      label never fails here. */
  function Search(st: Store, name: string): Result<seq<Issue>, string> {
    Success(Matching(st.issues, name))
  }

  /** The issues that are open, in the same order. */
  function OpenIssues(issues: seq<Issue>): (r: seq<Issue>)
    ensures forall x <- r :: x in issues && x.state == OpenState
    ensures forall x <- issues :: x.state == OpenState ==> x in r
    decreases |issues|
  {
    if issues == [] then []
    else
      var init := issues[..|issues| - 1];
      var last := issues[|issues| - 1];
      assert issues == init + [last];
      if last.state == OpenState then OpenIssues(init) + [last] else OpenIssues(init)
  }

  /** The search of the `gh issue list` branch, which asks for no state and
      so gets the open issues only. */
  function SearchOpen(st: Store, name: string): (r: Result<seq<Issue>, string>)
    ensures r.Success?
    ensures forall x <- r.value :: x in st.issues && name in x.labels && x.state == OpenState
  {
    Success(Matching(OpenIssues(st.issues), name))
  }

  /** An update writes title, body and labels; an unset state or assignee is
      left as it was. */
  function Revise(x: Issue, q: IssueRequest): (y: Issue)
    ensures y.number == x.number && y.labels == q.labels
    ensures y.state == (if q.state.Some? then q.state.value else x.state)
  {
    x.(title := q.title, body := q.body, state := q.state.GetOr(x.state), labels := q.labels,
       assignee := if q.assignee.Some? then q.assignee else x.assignee)
  }

  /** The call oracle, with a create that opens the issue in the requested
      state: the behaviour the adapter asks for at github.ts:191. Updates and
      comments on a number that does not exist fail. */
  function Perform(st: Store, call: Call): (r: Result<Store, string>)
    ensures r.Failure? <==> !call.CreateIssue? && !(1 <= call.number <= |st.issues|)
    ensures Numbered(st) && r.Success? ==> Numbered(r.value)
    ensures r.Success? && call.AddComment? ==> r.value.issues == st.issues
    ensures r.Success? && call.CreateIssue? ==> |r.value.issues| == |st.issues| + 1 && r.value.issues[..|st.issues|] == st.issues
  {
    match call
    case CreateIssue(q) =>
      var x := Issue(|st.issues| + 1, q.title, q.body, q.state.GetOr(OpenState), q.labels, q.assignee);
      assert (st.issues + [x])[..|st.issues|] == st.issues;
      Success(st.(issues := st.issues + [x]))
    case UpdateIssue(n, q) =>
      if 1 <= n <= |st.issues| then Success(st.(issues := st.issues[n - 1 := Revise(st.issues[n - 1], q)]))
      else Failure("Not Found")
    case AddComment(n, body) =>
      if 1 <= n <= |st.issues| then Success(st.(comments := st.comments + [Comment(n, body)]))
      else Failure("Not Found")
  }

  /** The call oracle as the adapter drives it: `createIssue` forwards title,
      body, labels and assignee but drops the state it is given, so every new
      issue opens. */
  function PerformAsWritten(st: Store, call: Call): (r: Result<Store, string>)
    ensures !call.CreateIssue? ==> r == Perform(st, call)
    ensures call.CreateIssue? ==>
      r.Success? && |r.value.issues| == |st.issues| + 1 && r.value.issues[|st.issues|].state == OpenState
  {
    match call
    case CreateIssue(q) => Perform(st, CreateIssue(q.(state := None)))
    case _ => Perform(st, call)
  }

  /** No issue carries two different marker labels. */
  predicate OneMarker(st: Store) {
    forall i, a, b ::
      0 <= i < |st.issues| && a in st.issues[i].labels && b in st.issues[i].labels && IsMarker(a) && IsMarker(b)
      ==> a == b
  }

  /** The invariant the store keeps under syncing. */
  predicate Good(st: Store) {
    Numbered(st) && OneMarker(st)
  }

  /** The item's own labels contain nothing that reads as a marker. */
  predicate Plain(item: Item) {
    forall l <- item.OwnLabels().GetOr([]) :: !IsMarker(l)
  }

  ghost predicate Has(st: Store, name: string) {
    exists i :: 0 <= i < |st.issues| && name in st.issues[i].labels
  }

  /** The labels written for a plain item hold its marker and no other. */
  lemma RequestLabels(item: Item)
    requires Plain(item)
    ensures item.SyncLabel() in item.Request().labels
    ensures forall l <- item.Request().labels :: IsMarker(l) ==> l == item.SyncLabel()
  {
    BuiltLabelsMarkOnlyTheItem(item.OwnLabels(), item.Kind(), item.Id());
  }

  /** Labels that hold `m` and no other marker. */
  predicate MarkedOnlyBy(labels: seq<string>, m: string) {
    m in labels && forall l <- labels :: IsMarker(l) ==> l == m
  }

  /** Running calls that all succeed ends in the state of the last one. */
  lemma RunOne<S>(perform: (S, Call) -> Result<S, string>, s: S, c: Call)
    requires perform(s, c).Success?
    ensures RunCalls(perform, s, [c]) == Ran(perform(s, c).value, None)
  {
    assert [c][1..] == [];
  }

  lemma RunTwo<S>(perform: (S, Call) -> Result<S, string>, s: S, c: Call, d: Call)
    requires perform(s, c).Success? && perform(perform(s, c).value, d).Success?
    ensures RunCalls(perform, s, [c, d]) == Ran(perform(perform(s, c).value, d).value, None)
  {
    assert [c, d][1..] == [d];
    RunOne(perform, perform(s, c).value, d);
  }

  /** Creating an issue marked by `m` alone keeps the store good, adds `m`,
      and keeps every issue that was there. */
  lemma CreateKeepsGood(st: Store, q: IssueRequest, m: string)
    requires Good(st) && MarkedOnlyBy(q.labels, m)
    ensures var st1 := Perform(st, CreateIssue(q)).value;
      && Good(st1) && Has(st1, m)
      && |st1.issues| == |st.issues| + 1
      && (forall i :: 0 <= i < |st.issues| ==> st1.issues[i] == st.issues[i])
      && st1.issues[|st.issues|].labels == q.labels
      && st1.issues[|st.issues|].state == q.state.GetOr(OpenState)
      && forall m' :: IsMarker(m') && Has(st, m') ==> Has(st1, m')
  {
    var st1 := Perform(st, CreateIssue(q)).value;
    var n := |st.issues|;
    assert forall i :: 0 <= i < n ==> st1.issues[i] == st.issues[i];
    assert m in st1.issues[n].labels;
  }

  /** Rewriting issue `j`, which carries the marker `m`, with labels marked
      by `m` alone keeps the store good and keeps every marker present. */
  lemma UpdateKeepsGood(st: Store, j: nat, q: IssueRequest, m: string)
    requires Good(st) && j < |st.issues| && m in st.issues[j].labels && IsMarker(m)
    requires MarkedOnlyBy(q.labels, m)
    ensures var st1 := st.(issues := st.issues[j := Revise(st.issues[j], q)]);
      && Good(st1) && Has(st1, m)
      && forall m' :: IsMarker(m') && Has(st, m') ==> Has(st1, m')
  {
    var st1 := st.(issues := st.issues[j := Revise(st.issues[j], q)]);
    assert m in st1.issues[j].labels;
    forall m' | IsMarker(m') && Has(st, m') ensures Has(st1, m') {
      var i :| 0 <= i < |st.issues| && m' in st.issues[i].labels;
      if i != j {
        assert st1.issues[i] == st.issues[i];
      }
    }
  }

  /** A call oracle that acts on the store as `Perform` does, except that a
      create may drop the requested state: both `Perform` and the adapter as
      written (`PerformAsWritten`) are such oracles. */
  ghost predicate ActsAsStore(perform: (Store, Call) -> Result<Store, string>) {
    forall st: Store, call: Call ::
      perform(st, call) == Perform(st, call)
      || (call.CreateIssue? && perform(st, call) == Perform(st, CreateIssue(call.request.(state := None))))
  }

  /** Both call oracles act on the store. */
  lemma BothAct()
    ensures ActsAsStore(Perform) && ActsAsStore(PerformAsWritten)
  {
    forall st: Store, call: Call
      ensures PerformAsWritten(st, call) == Perform(st, call)
        || (call.CreateIssue? && PerformAsWritten(st, call) == Perform(st, CreateIssue(call.request.(state := None))))
    {
    }
  }

  /** Through such an oracle a create succeeds and adds an issue built from
      the request, with or without its state. */
  lemma CreateActs(perform: (Store, Call) -> Result<Store, string>, st: Store, q: IssueRequest)
    requires ActsAsStore(perform)
    ensures perform(st, CreateIssue(q)).Success?
    ensures perform(st, CreateIssue(q)) == Perform(st, CreateIssue(q))
      || perform(st, CreateIssue(q)) == Perform(st, CreateIssue(q.(state := None)))
  {
    assert perform(st, CreateIssue(q)) == Perform(st, CreateIssue(q))
      || perform(st, CreateIssue(q)) == Perform(st, CreateIssue(CreateIssue(q).request.(state := None)));
  }

  /** An item whose issue the search finds is updated in place, whichever
      search and whichever such oracle. */
  lemma UpdateWhenFound(search: (Store, string) -> Result<seq<Issue>, string>, perform: (Store, Call) -> Result<Store, string>,
                        st: Store, item: Item, addComments: Option<bool>, now: string, j: nat)
    requires Numbered(st) && ActsAsStore(perform) && j < |st.issues|
    requires FindIssueByLabel(search, st, item.SyncLabel()) == Some(st.issues[j])
    ensures var step := SyncItem(search, perform, st, item, addComments, now);
      && step.outcome.Synced? && step.outcome.change.action == Updated
      && step.state.issues == st.issues[j := Revise(st.issues[j], item.Request())]
  {
    var q := item.Request();
    var x := st.issues[j];
    var calls := Calls(item, Some(x), addComments, now);
    var c := UpdateIssue(x.number, q);
    assert perform(st, c) == Perform(st, c);
    var st1 := Perform(st, c).value;
    if |calls| == 2 {
      assert perform(st1, calls[1]) == Perform(st1, calls[1]);
      assert calls == [calls[0], calls[1]];
      RunTwo(perform, st, calls[0], calls[1]);
    } else {
      assert calls == [calls[0]];
      RunOne(perform, st, calls[0]);
    }
  }

  /** The state a synced item leaves behind. */
  lemma ItemState(perform: (Store, Call) -> Result<Store, string>, st: Store, item: Item, addComments: Option<bool>, now: string)
    returns (j: nat)
    requires Numbered(st) && ActsAsStore(perform)
    ensures var step := SyncItem(Search, perform, st, item, addComments, now);
      var q := item.Request();
      && step.outcome.Synced?
      && (!Has(st, item.SyncLabel()) ==> step.state == perform(st, CreateIssue(q)).value)
      && (Has(st, item.SyncLabel()) ==>
            && j < |st.issues| && item.SyncLabel() in st.issues[j].labels
            && (forall i :: j < i < |st.issues| ==> item.SyncLabel() !in st.issues[i].labels)
            && step.outcome.change.action == Updated
            && step.state.issues == st.issues[j := Revise(st.issues[j], q)])
      && (!Has(st, item.SyncLabel()) ==> step.outcome.change.action == Created)
  {
    hide Matching;
    var m := item.SyncLabel();
    var existing := FindIssueByLabel(Search, st, m);
    if existing.None? {
      j := 0;
      CreateActs(perform, st, item.Request());
      CreateWhenNotFound(Search, perform, st, item, addComments, now);
    } else {
      j := MatchingHead(st.issues, m);
      UpdateWhenFound(Search, perform, st, item, addComments, now, j);
    }
  }

  /** One item against a good store: it never fails, the store stays good,
      its marker is present afterwards, markers already present stay, and it
      is an update exactly when its marker was already present. */
  lemma ItemStep(perform: (Store, Call) -> Result<Store, string>, st: Store, item: Item, addComments: Option<bool>, now: string)
    requires Good(st) && Plain(item) && ActsAsStore(perform)
    ensures var step := SyncItem(Search, perform, st, item, addComments, now);
      && step.outcome.Synced?
      && (step.outcome.change.action == Updated <==> Has(st, item.SyncLabel()))
      && Good(step.state)
      && Has(step.state, item.SyncLabel())
      && forall m :: IsMarker(m) && Has(st, m) ==> Has(step.state, m)
  {
    var m := item.SyncLabel();
    var q := item.Request();
    RequestLabels(item);
    MarkerRoundTrip(item.Kind(), item.Id());
    var j := ItemState(perform, st, item, addComments, now);
    if Has(st, m) {
      UpdateKeepsGood(st, j, q, m);
    } else {
      CreateActs(perform, st, q);
      if perform(st, CreateIssue(q)) == Perform(st, CreateIssue(q)) {
        CreateKeepsGood(st, q, m);
      } else {
        CreateKeepsGood(st, q.(state := None), m);
      }
    }
  }

  /** A whole batch against a good store: nothing fails, every item's marker
      is present afterwards, and when every marker was present beforehand
      every item is an update. */
  lemma {:induction false} ItemsStep(perform: (Store, Call) -> Result<Store, string>, st: Store, items: seq<Item>,
                                     addComments: Option<bool>, now: string, acc: SyncResult)
    requires Good(st) && ActsAsStore(perform) && forall k :: 0 <= k < |items| ==> Plain(items[k])
    ensures var b := SyncItems(Search, perform, st, items, addComments, now, acc);
      && Good(b.state)
      && b.result.failed == acc.failed
      && (forall k :: 0 <= k < |items| ==> Has(b.state, items[k].SyncLabel()))
      && (forall m :: IsMarker(m) && Has(st, m) ==> Has(b.state, m))
      && ((forall k :: 0 <= k < |items| ==> Has(st, items[k].SyncLabel())) ==>
            b.result.created == acc.created && b.result.updated == acc.updated + |items|)
    decreases |items|
  {
    hide ActsAsStore;
    if items != [] {
      var step := SyncItem(Search, perform, st, items[0], addComments, now);
      ItemStep(perform, st, items[0], addComments, now);
      var next := Tally(acc, step.outcome);
      ItemsStep(perform, step.state, items[1..], addComments, now, next);
      var b := SyncItems(Search, perform, st, items, addComments, now, acc);
      assert b == SyncItems(Search, perform, step.state, items[1..], addComments, now, next);
      MarkerRoundTrip(items[0].Kind(), items[0].Id());
      forall k | 0 <= k < |items| ensures Has(b.state, items[k].SyncLabel()) {
        if k > 0 {
          assert items[k] == items[1..][k - 1];
        }
      }
      if forall k :: 0 <= k < |items| ==> Has(st, items[k].SyncLabel()) {
        assert Has(st, items[0].SyncLabel());
        forall k | 0 <= k < |items| - 1 ensures Has(step.state, items[1..][k].SyncLabel()) {
          assert items[1..][k] == items[k + 1];
          MarkerRoundTrip(items[k + 1].Kind(), items[k + 1].Id());
        }
      }
    }
  }

  /** Syncing the same items twice with the adapter as written (new issues
      open, whatever state was asked for): the first pass fails nowhere, and
      the second finds every item's issue and only updates. */
  lemma SecondSyncOnlyUpdates(st: Store, items: seq<Item>, addComments: Option<bool>, now: string)
    requires Good(st) && forall k :: 0 <= k < |items| ==> Plain(items[k])
    ensures var first := SyncItems(Search, PerformAsWritten, st, items, addComments, now, CreateSyncResult());
      var second := SyncItems(Search, PerformAsWritten, first.state, items, addComments, now, CreateSyncResult());
      && first.result.failed == 0
      && second.result == second.result.(success := true, created := 0, updated := |items|, failed := 0)
  {
    BothAct();
    var first := SyncItems(Search, PerformAsWritten, st, items, addComments, now, CreateSyncResult());
    ItemsStep(PerformAsWritten, st, items, addComments, now, CreateSyncResult());
    ItemsStep(PerformAsWritten, first.state, items, addComments, now, CreateSyncResult());
    var second := SyncItems(Search, PerformAsWritten, first.state, items, addComments, now, CreateSyncResult());
    assert Consistent(second.result);
  }

  /** The same with the create corrected to forward the requested state. */
  lemma SecondSyncOnlyUpdatesCorrected(st: Store, items: seq<Item>, addComments: Option<bool>, now: string)
    requires Good(st) && forall k :: 0 <= k < |items| ==> Plain(items[k])
    ensures var first := SyncItems(Search, Perform, st, items, addComments, now, CreateSyncResult());
      var second := SyncItems(Search, Perform, first.state, items, addComments, now, CreateSyncResult());
      && first.result.failed == 0
      && second.result == second.result.(success := true, created := 0, updated := |items|, failed := 0)
  {
    BothAct();
    var first := SyncItems(Search, Perform, st, items, addComments, now, CreateSyncResult());
    ItemsStep(Perform, st, items, addComments, now, CreateSyncResult());
    ItemsStep(Perform, first.state, items, addComments, now, CreateSyncResult());
    var second := SyncItems(Search, Perform, first.state, items, addComments, now, CreateSyncResult());
    assert Consistent(second.result);
  }

  /** A batch of one item leaves the state its single step leaves. */
  lemma SingleBatch<S>(search: (S, string) -> Result<seq<Issue>, string>, perform: (S, Call) -> Result<S, string>,
                       s: S, t: Task, addComments: Option<bool>, now: string)
    ensures SyncTasks(search, perform, s, [t], addComments, now).state
      == SyncItem(search, perform, s, OfTask(t), addComments, now).state
  {
    var items := Tasks([t]);
    assert items == [OfTask(t)];
    assert items[1..] == [];
    var step := SyncItem(search, perform, s, OfTask(t), addComments, now);
    var next := Tally(CreateSyncResult(), step.outcome);
    assert SyncItems(search, perform, step.state, items[1..], addComments, now, next).state == step.state;
  }

  /** After one task's step on a good store, the issue the search finds
      first for its marker has the state the task asks for. */
  lemma StepReadsBack(st: Store, t: Task, addComments: Option<bool>, now: string)
    requires Good(st) && Plain(OfTask(t))
    ensures var fin := SyncItem(Search, Perform, st, OfTask(t), addComments, now).state;
      var found := Matching(fin.issues, MarkerLabel(TaskKind, t.id));
      found != [] && found[0].state == StateFor(t.status)
  {
    var item := OfTask(t);
    var m := item.SyncLabel();
    var q := item.Request();
    RequestLabels(item);
    var fin := SyncItem(Search, Perform, st, item, addComments, now).state;
    BothAct();
    var j := ItemState(Perform, st, item, addComments, now);
    if Has(st, m) {
      assert fin.issues[j] == Revise(st.issues[j], q);
      forall i | j < i < |fin.issues| ensures m !in fin.issues[i].labels {
        assert fin.issues[i] == st.issues[i];
      }
      MatchingFirst(fin.issues, m, j);
    } else {
      CreateKeepsGood(st, q, m);
      MatchingFirst(fin.issues, m, |st.issues|);
    }
  }

  /** With a create that honours the requested state, a task synced into a
      good store reads back as done exactly when it is done. */
  lemma TaskStatusReadsBack(st: Store, t: Task, addComments: Option<bool>, now: string)
    requires Good(st) && Plain(OfTask(t))
    ensures var b := SyncTasks(Search, Perform, st, [t], addComments, now);
      GetTaskStatus(Search, b.state, t.id) == (if t.status == Done then Done else Todo)
  {
    SingleBatch(Search, Perform, st, t, addComments, now);
    StepReadsBack(st, t, addComments, now);
  }

  /** As written, a done task synced into an empty repository is created as
      an open issue and reads back as todo. */
  lemma DoneTaskReadsBackTodo(now: string)
    ensures var t := NewTask("1", "Ship it", Done, None);
      var b := SyncTasks(Search, PerformAsWritten, Store([], []), [t], None, now);
      GetTaskStatus(Search, b.state, "1") == Todo
  {
    var t := NewTask("1", "Ship it", Done, None);
    var item := OfTask(t);
    var m := item.SyncLabel();
    var q := item.Request();
    var empty := Store([], []);
    assert Matching(empty.issues, m) == [];
    assert FindIssueByLabel(Search, empty, m) == None;
    assert Calls(item, None, None, now) == [CreateIssue(q)];
    RunOne(PerformAsWritten, empty, CreateIssue(q));
    var st1 := PerformAsWritten(empty, CreateIssue(q)).value;
    SingleBatch(Search, PerformAsWritten, empty, t, None, now);
    assert SyncItem(Search, PerformAsWritten, empty, item, None, now).state == st1;
    RequestLabels(item);
    MatchingFirst(st1.issues, m, 0);
  }

  /** The `gh` search finds nothing for a label only closed issues carry. */
  lemma OpenSearchMissesClosed(st: Store, m: string)
    requires forall i :: 0 <= i < |st.issues| && m in st.issues[i].labels ==> st.issues[i].state == ClosedState
    ensures SearchOpen(st, m).value == []
  {
    var r := OpenIssues(st.issues);
    forall i | 0 <= i < |r| ensures m !in r[i].labels {
      assert r[i] in st.issues;
    }
  }

  /** An item the search does not find is created, and nothing else happens. */
  lemma CreateWhenNotFound<S>(search: (S, string) -> Result<seq<Issue>, string>, perform: (S, Call) -> Result<S, string>,
                              s: S, item: Item, addComments: Option<bool>, now: string)
    requires FindIssueByLabel(search, s, item.SyncLabel()).None?
    requires perform(s, CreateIssue(item.Request())).Success?
    ensures var step := SyncItem(search, perform, s, item, addComments, now);
      && step.outcome.Synced? && step.outcome.change.action == Created
      && step.state == perform(s, CreateIssue(item.Request())).value
  {
    RunOne(perform, s, CreateIssue(item.Request()));
  }

  /** Two issues that both carry the label are both found, newest first. */
  lemma MatchingTwo(a: Issue, b: Issue, name: string)
    requires name in a.labels && name in b.labels
    ensures Matching([a, b], name) == [b, a]
  {
    assert [a, b][..1] == [a];
    assert [a][..0] == [];
  }

  /** The `gh` search finds the one issue of a store when it is open and
      carries the label. */
  lemma OpenSearchFindsOnly(st: Store, m: string)
    requires |st.issues| == 1 && st.issues[0].state == OpenState && m in st.issues[0].labels
    ensures SearchOpen(st, m).value == [st.issues[0]]
  {
    assert st.issues[..0] == [];
    assert OpenIssues(st.issues) == [st.issues[0]];
    assert [st.issues[0]][..0] == [];
  }

  /** With the `gh` search and the adapter as written, a done task synced
      three times is created, then updated (which closes its issue), then
      created again, because the open-only search no longer finds it: two
      issues end up carrying the same marker. */
  lemma OpenSearchCreatesAgain(now: string)
    ensures var item := OfTask(NewTask("1", "Ship it", Done, None));
      var first := SyncItem(SearchOpen, PerformAsWritten, Store([], []), item, None, now);
      var second := SyncItem(SearchOpen, PerformAsWritten, first.state, item, None, now);
      var third := SyncItem(SearchOpen, PerformAsWritten, second.state, item, None, now);
      && first.outcome.Synced? && first.outcome.change.action == Created
      && second.outcome.Synced? && second.outcome.change.action == Updated
      && third.outcome.Synced? && third.outcome.change.action == Created
      && |Matching(third.state.issues, item.SyncLabel())| == 2
  {
    hide SyncItem, Matching, OpenIssues;
    BothAct();
    var item := OfTask(NewTask("1", "Ship it", Done, None));
    var m := item.SyncLabel();
    var q := item.Request();
    RequestLabels(item);
    assert q.state == Some(ClosedState);
    var empty := Store([], []);
    OpenSearchMissesClosed(empty, m);
    CreateWhenNotFound(SearchOpen, PerformAsWritten, empty, item, None, now);
    var st1 := PerformAsWritten(empty, CreateIssue(q)).value;
    assert st1 == Perform(empty, CreateIssue(q.(state := None))).value;
    assert |st1.issues| == 1 && st1.issues[0].state == OpenState && st1.issues[0].labels == q.labels;
    assert Numbered(st1);
    OpenSearchFindsOnly(st1, m);
    UpdateWhenFound(SearchOpen, PerformAsWritten, st1, item, None, now, 0);
    var st2 := SyncItem(SearchOpen, PerformAsWritten, st1, item, None, now).state;
    assert |st2.issues| == 1 && st2.issues[0] == Revise(st1.issues[0], q);
    assert st2.issues[0].state == ClosedState && st2.issues[0].labels == q.labels;
    OpenSearchMissesClosed(st2, m);
    CreateWhenNotFound(SearchOpen, PerformAsWritten, st2, item, None, now);
    var st3 := PerformAsWritten(st2, CreateIssue(q)).value;
    assert st3 == Perform(st2, CreateIssue(q.(state := None))).value;
    assert st3.issues == [st2.issues[0], st3.issues[1]];
    assert st3.issues[1].labels == q.labels;
    MatchingTwo(st2.issues[0], st3.issues[1], m);
  }
}

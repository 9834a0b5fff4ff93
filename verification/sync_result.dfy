/** The SyncResult algebra of `src/adapters/target/base.ts`: the empty result,
    recording one failed item, and merging results in order. */
module SyncResults {
  import opened Wrappers
  import opened Models

  /** `createSyncResult`. */
  function CreateSyncResult(): (r: SyncResult)
    ensures Consistent(r) && r.success && r.changes == []
    ensures forall c :: Count(r, c) == 0
  {
    SyncResult(true, 0, 0, 0, [], Some([]))
  }

  /** `addError`: one more failed item, with its message appended. */
  function AddError(r: SyncResult, message: string): (r': SyncResult)
    ensures !r'.success && r'.failed == r.failed + 1
    ensures r'.created == r.created && r'.updated == r.updated && r'.changes == r.changes
    ensures r'.errors.Some? && r'.errors.value == r.errors.GetOr([]) + [message]
  {
    r.(success := false, failed := r.failed + 1, errors := Some(r.errors.GetOr([]) + [message]))
  }

  /** The counter invariant every result built from `createSyncResult` keeps:
      one error message per failed item, and success exactly when nothing failed. */
  predicate Consistent(r: SyncResult) {
    r.errors.Some? && r.failed == |r.errors.value| && (r.success <==> r.failed == 0)
  }

  datatype Counter = CreatedCount | UpdatedCount | FailedCount

  function Count(r: SyncResult, c: Counter): nat {
    match c
    case CreatedCount => r.created
    case UpdatedCount => r.updated
    case FailedCount => r.failed
  }

  /** Reference definitions of the merged fields, by recursion from the front. */
  function Total(rs: seq<SyncResult>, c: Counter): nat {
    if rs == [] then 0 else Count(rs[0], c) + Total(rs[1..], c)
  }

  predicate AllSucceeded(rs: seq<SyncResult>) {
    forall i :: 0 <= i < |rs| ==> rs[i].success
  }

  function AllChanges(rs: seq<SyncResult>): seq<SyncChange> {
    if rs == [] then [] else rs[0].changes + AllChanges(rs[1..])
  }

  /** The error lists of the inputs that have one, in input order. */
  function AllErrors(rs: seq<SyncResult>): seq<string> {
    if rs == [] then [] else rs[0].errors.GetOr([]) + AllErrors(rs[1..])
  }

  /** One iteration of the `forEach` in `mergeSyncResults`. */
  function Absorb(merged: SyncResult, r: SyncResult): (m: SyncResult)
    ensures forall c :: Count(m, c) == Count(merged, c) + Count(r, c)
    ensures m.success <==> merged.success && r.success
    ensures m.changes == merged.changes + r.changes
    ensures Consistent(merged) && Consistent(r) ==> Consistent(m)
  {
    SyncResult(
      merged.success && r.success,
      merged.created + r.created,
      merged.updated + r.updated,
      merged.failed + r.failed,
      merged.changes + r.changes,
      if r.errors.Some? then Some(merged.errors.GetOr([]) + r.errors.value) else merged.errors)
  }

  /** The `forEach` loop, from a given accumulator. */
  function MergeFrom(merged: SyncResult, rs: seq<SyncResult>): (m: SyncResult)
    requires merged.errors.Some?
    ensures m.success <==> merged.success && AllSucceeded(rs)
    ensures forall c :: Count(m, c) == Count(merged, c) + Total(rs, c)
    ensures m.changes == merged.changes + AllChanges(rs)
    ensures m.errors == Some(merged.errors.value + AllErrors(rs))
    decreases |rs|
  {
    if rs == [] then
      assert merged.errors.value + AllErrors(rs) == merged.errors.value;
      assert merged.changes + AllChanges(rs) == merged.changes;
      merged
    else
      var next := Absorb(merged, rs[0]);
      var m := MergeFrom(next, rs[1..]);
      assert next.errors.value == merged.errors.value + rs[0].errors.GetOr([]);
      assert AllErrors(rs) == rs[0].errors.GetOr([]) + AllErrors(rs[1..]);
      assert next.errors.value + AllErrors(rs[1..]) == merged.errors.value + AllErrors(rs);
      assert AllSucceeded(rs) <==> rs[0].success && AllSucceeded(rs[1..]);
      m
  }

  /** `mergeSyncResults`: counters are sums, success is the conjunction (true
      for no inputs), changes and errors are concatenated in input order. */
  function MergeSyncResults(rs: seq<SyncResult>): (m: SyncResult)
    ensures m.success <==> AllSucceeded(rs)
    ensures m.created == Total(rs, CreatedCount)
    ensures m.updated == Total(rs, UpdatedCount)
    ensures m.failed == Total(rs, FailedCount)
    ensures m.changes == AllChanges(rs)
    ensures m.errors == Some(AllErrors(rs))
  {
    var m := MergeFrom(CreateSyncResult(), rs);
    assert [] + AllErrors(rs) == AllErrors(rs) && [] + AllChanges(rs) == AllChanges(rs);
    assert Count(m, CreatedCount) == Total(rs, CreatedCount);
    assert Count(m, UpdatedCount) == Total(rs, UpdatedCount);
    assert Count(m, FailedCount) == Total(rs, FailedCount);
    m
  }

  lemma {:induction false} TotalAppend(a: seq<SyncResult>, b: seq<SyncResult>, c: Counter)
    ensures Total(a + b, c) == Total(a, c) + Total(b, c)
  {
    if a == [] {
      assert a + b == b;
    } else {
      assert (a + b)[1..] == a[1..] + b;
      TotalAppend(a[1..], b, c);
    }
  }

  lemma {:induction false} AllChangesAppend(a: seq<SyncResult>, b: seq<SyncResult>)
    ensures AllChanges(a + b) == AllChanges(a) + AllChanges(b)
  {
    if a == [] {
      assert a + b == b;
    } else {
      assert (a + b)[1..] == a[1..] + b;
      AllChangesAppend(a[1..], b);
    }
  }

  lemma {:induction false} AllErrorsAppend(a: seq<SyncResult>, b: seq<SyncResult>)
    ensures AllErrors(a + b) == AllErrors(a) + AllErrors(b)
  {
    if a == [] {
      assert a + b == b;
    } else {
      assert (a + b)[1..] == a[1..] + b;
      AllErrorsAppend(a[1..], b);
    }
  }

  lemma AllSucceededAppend(a: seq<SyncResult>, b: seq<SyncResult>)
    ensures AllSucceeded(a + b) <==> AllSucceeded(a) && AllSucceeded(b)
  {
    assert forall i :: 0 <= i < |a| ==> (a + b)[i] == a[i];
    assert forall i :: 0 <= i < |b| ==> (a + b)[|a| + i] == b[i];
  }

  /** Merging two results combines their fields pairwise. */
  lemma MergePair(x: SyncResult, y: SyncResult)
    ensures var m := MergeSyncResults([x, y]);
      (m.success <==> x.success && y.success)
      && m.created == x.created + y.created && m.updated == x.updated + y.updated
      && m.failed == x.failed + y.failed
      && m.changes == x.changes + y.changes
      && m.errors == Some(x.errors.GetOr([]) + y.errors.GetOr([]))
  {
    var pair := [x, y];
    assert pair[1..] == [y];
    assert [y][1..] == [];
    assert AllSucceeded(pair) <==> x.success && y.success by {
      assert pair[0] == x && pair[1] == y;
    }
    assert AllErrors([y]) == y.errors.GetOr([]) + AllErrors([]);
    assert AllErrors(pair) == x.errors.GetOr([]) + AllErrors([y]);
    assert AllErrors([y]) == y.errors.GetOr([]);
    assert AllChanges([y]) == y.changes + AllChanges([]);
    assert AllChanges([y]) == y.changes;
    forall c: Counter ensures Total(pair, c) == Count(x, c) + Count(y, c) {
      assert Total([y], c) == Count(y, c) + Total([], c);
    }
    var m := MergeSyncResults(pair);
    assert Count(m, CreatedCount) == x.created + y.created;
    assert Count(m, UpdatedCount) == x.updated + y.updated;
    assert Count(m, FailedCount) == x.failed + y.failed;
  }

  /** Merging is a monoid homomorphism: merging a concatenation equals merging
      the two partial merges, and the empty merge is `createSyncResult`. */
  lemma MergeIsHomomorphism(a: seq<SyncResult>, b: seq<SyncResult>)
    ensures MergeSyncResults([]) == CreateSyncResult()
    ensures MergeSyncResults(a + b) == MergeSyncResults([MergeSyncResults(a), MergeSyncResults(b)])
  {
    TotalAppend(a, b, CreatedCount);
    TotalAppend(a, b, UpdatedCount);
    TotalAppend(a, b, FailedCount);
    AllChangesAppend(a, b);
    AllErrorsAppend(a, b);
    AllSucceededAppend(a, b);
    MergePair(MergeSyncResults(a), MergeSyncResults(b));
  }

  /** Recording a failure is merging with a one-failure result. */
  lemma AddErrorIsAbsorbFailure(r: SyncResult, message: string)
    ensures AddError(r, message) == Absorb(r, AddError(CreateSyncResult(), message))
  {
    assert [] + [message] == [message];
  }

  /** Applying `addError` for each message, in order. */
  function AddErrors(r: SyncResult, messages: seq<string>): (r': SyncResult)
    ensures r'.failed == r.failed + |messages|
    ensures r'.created == r.created && r'.updated == r.updated && r'.changes == r.changes
    ensures messages == [] ==> r' == r
    ensures messages != [] ==> !r'.success && r'.errors == Some(r.errors.GetOr([]) + messages)
    ensures Consistent(r) ==> Consistent(r')
    decreases |messages|
  {
    if messages == [] then r
    else
      assert r.errors.GetOr([]) + [messages[0]] + messages[1..] == r.errors.GetOr([]) + messages;
      assert messages[1..] == [] ==> messages == [messages[0]];
      AddErrors(AddError(r, messages[0]), messages[1..])
  }

  /** A result built from `createSyncResult` by `addError` alone counts one
      failure per message, keeps the messages in order, and is successful
      exactly when nothing failed. */
  lemma {:induction false} AddErrorsFromFresh(messages: seq<string>)
    ensures var r := AddErrors(CreateSyncResult(), messages);
      Consistent(r) && r.failed == |messages| && r.errors == Some(messages)
      && r.created == 0 && r.updated == 0 && r.changes == []
  {
    AddErrorsKeepsConsistent(CreateSyncResult(), messages);
    assert [] + messages == messages;
  }

  lemma {:induction false} AddErrorsKeepsConsistent(r: SyncResult, messages: seq<string>)
    requires Consistent(r)
    ensures var r' := AddErrors(r, messages);
      Consistent(r') && r'.failed == r.failed + |messages| && r'.errors == Some(r.errors.value + messages)
      && r'.created == r.created && r'.updated == r.updated && r'.changes == r.changes
    decreases |messages|
  {
    if messages == [] {
      assert r.errors.value + messages == r.errors.value;
    } else {
      var r1 := AddError(r, messages[0]);
      AddErrorsKeepsConsistent(r1, messages[1..]);
      assert r.errors.value + [messages[0]] + messages[1..] == r.errors.value + messages;
    }
  }

  /** Merging results that each keep the counter invariant yields one that
      keeps it. */
  lemma {:induction false} MergeKeepsConsistent(rs: seq<SyncResult>)
    requires forall i :: 0 <= i < |rs| ==> Consistent(rs[i])
    ensures Consistent(MergeSyncResults(rs))
  {
    ConsistentTotals(rs);
  }

  lemma {:induction false} ConsistentTotals(rs: seq<SyncResult>)
    requires forall i :: 0 <= i < |rs| ==> Consistent(rs[i])
    ensures Total(rs, FailedCount) == |AllErrors(rs)|
    ensures AllSucceeded(rs) <==> Total(rs, FailedCount) == 0
  {
    if rs != [] {
      ConsistentTotals(rs[1..]);
      assert Consistent(rs[0]);
      assert AllSucceeded(rs) <==> rs[0].success && AllSucceeded(rs[1..]);
    }
  }
}

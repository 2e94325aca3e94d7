/** Histories in which a call commits after the row it read has changed, and what they do to the
    invariant; and histories in which nothing is lost and the outcome still surprises. */
module RunRaces {
  import opened Prelude
  import opened RunLifecycle
  import opened ClaimAccounting

  /** The history extended by a call nobody interferes with. */
  function Then(hash: Hash, commits: seq<Commit>, e: Event): seq<Commit> {
    commits + [Commit(e, StateAfter(hash, commits).runs)]
  }

  /** The history extended by a call that read its rows after the first `r` commits. */
  function Late(hash: Hash, commits: seq<Commit>, r: nat, e: Event): seq<Commit>
    requires r <= |commits|
  {
    commits + [Commit(e, StateAfter(hash, commits[..r]).runs)]
  }

  lemma ThenReadsPast(hash: Hash, commits: seq<Commit>, e: Event)
    requires ReadsPast(hash, commits)
    ensures ReadsPast(hash, Then(hash, commits, e))
  {
    hide ReadsPast;
    assert commits + [] == commits;
    OwnReadIsPast(hash, commits, [], e);
  }

  lemma LateReadsPast(hash: Hash, commits: seq<Commit>, r: nat, e: Event)
    requires ReadsPast(hash, commits) && r <= |commits|
    ensures ReadsPast(hash, Late(hash, commits, r, e))
  {
    hide ReadsPast;
    assert commits == commits[..r] + commits[r..];
    OwnReadIsPast(hash, commits[..r], commits[r..], e);
  }

  /** A store with one run. */
  ghost predicate OneRun(db: Db, id: RunId, row: Run) {
    db.runs == map[id := row]
  }

  lemma StartsQueued(hash: Hash, id: RunId) returns (commits: seq<Commit>, row: Run)
    ensures commits == Then(hash, [], Create(id, None, "", "", "", 0)) && ReadsPast(hash, commits) && |commits| == 1
    ensures OneRun(StateAfter(hash, commits), id, row) && row == NewRow(Create(id, None, "", "", "", 0))
    ensures StateAfter(hash, commits).approvals == map[]
  {
    hide ReadsPast;
    var e := Create(id, None, "", "", "", 0);
    commits, row := Then(hash, [], e), NewRow(e);
    NothingReadYet(hash);
    ThenReadsPast(hash, [], e);
    AppendCommit(hash, [], commits[0]);
    assert [] + [commits[0]] == commits;
  }

  lemma NothingReadYet(hash: Hash)
    ensures ReadsPast(hash, []) && StateAfter(hash, []) == EMPTY
  {
  }

  /** One commit on that run, seen as `seen`. */
  lemma RowMoves(hash: Hash, commits: seq<Commit>, c: Commit, id: RunId, row: Run, seen: Run)
    requires OneRun(StateAfter(hash, commits), id, row) && c.seen == map[id := seen]
    requires ReadsFirst(c.event) || c.event.Claim?
    ensures OneRun(StateAfter(hash, commits + [c]), id, RowAfter(hash, id, row, c))
    ensures StateAfter(hash, commits + [c]).approvals == StateAfter(hash, commits).approvals
  {
    hide RowAfter, StateAfter;
    AppendCommit(hash, commits, c);
  }

  // ---------------------------------------------------------------- races

  /** A cancellation read the run while it was running. Before it commits, the run succeeds and an
      operator approves it. The cancellation overwrites the finished, approved run. */
  lemma CancellationOverwritesAnApprovedRun(hash: Hash, id: RunId, workerId: string, payload: Payload, decidedBy: string)
    returns (commits: seq<Commit>)
    requires payload.validationPassed && hash(payload) != ""
    ensures ReadsPast(hash, commits) && |commits| == 5
    ensures var db := StateAfter(hash, commits[..4]);
            id in db.runs && db.runs[id].status == Succeeded && id in db.approvals && db.approvals[id].approved
    ensures var db := StateAfter(hash, commits);
            && db.runs.Keys == {id} && db.runs[id].status == CancelRequested && db.runs[id].result == Some(payload)
            && id in db.approvals && db.approvals[id].approved
    ensures !AllSafeFor(hash, commits, id) && !SoundFor(hash, commits, id)
  {
    hide StateAfter, ReadsPast, RowAfter, AllSafeFor, SoundFor;
    var created, queued := StartsQueued(hash, id);
    var running := ClaimRow(queued, workerId, 1);
    var claimed := Then(hash, created, Claim(id, workerId, 1));
    ThenReadsPast(hash, created, Claim(id, workerId, 1));
    RowMoves(hash, created, claimed[1], id, queued, queued);
    ClaimedRow(hash, id, queued, workerId, 1, claimed[1]);
    var done := CompleteRow(hash, running, payload, Succeeded, None, 3);
    var completed := Then(hash, claimed, Complete(id, payload, Succeeded, None, workerId, 3));
    ThenReadsPast(hash, claimed, Complete(id, payload, Succeeded, None, workerId, 3));
    RowMoves(hash, claimed, completed[2], id, running, running);
    FreshRow(hash, id, running, completed[2]);
    var approved := Then(hash, completed, Approve(id, true, decidedBy, None, 4));
    ThenReadsPast(hash, completed, Approve(id, true, decidedBy, None, 4));
    AppendCommit(hash, completed, approved[3]);
    commits := Late(hash, approved, 2, RequestCancellation(id, 5));
    LateReadsPast(hash, approved, 2, RequestCancellation(id, 5));
    assert approved[..2] == claimed && commits[..4] == approved;
    RowMoves(hash, approved, commits[4], id, done, running);
    Overwritten(hash, id, queued, workerId, payload, commits[4]);
    UnsafeAtTheEnd(hash, approved, commits[4], id);
    RunIsSoundIff(hash, commits, id);
  }

  lemma ClaimedRow(hash: Hash, id: RunId, row: Run, workerId: string, at: int, c: Commit)
    requires c.event == Claim(id, workerId, at)
    ensures RowAfter(hash, id, row, c) == ClaimRow(row, workerId, at)
  {
  }

  /** A call whose row has not changed does what it means to do. */
  lemma FreshRow(hash: Hash, id: RunId, row: Run, c: Commit)
    requires ReadsFirst(c.event) && id in c.seen && c.seen[id] == row
    ensures RowAfter(hash, id, row, c) == Intended(hash, id, row, c.event)
  {
  }

  lemma Overwritten(hash: Hash, id: RunId, queued: Run, workerId: string, payload: Payload, c: Commit)
    requires queued == NewRow(Create(id, None, "", "", "", 0)) && c.event == RequestCancellation(id, 5)
    requires id in c.seen && c.seen[id] == ClaimRow(queued, workerId, 1)
    ensures var done := CompleteRow(hash, ClaimRow(queued, workerId, 1), payload, Succeeded, None, 3);
            && RowAfter(hash, id, done, c).status == CancelRequested && RowAfter(hash, id, done, c).result == Some(payload)
            && !SafeWrite(done, c.seen[id], Intended(hash, id, c.seen[id], c.event))
  {
  }

  lemma UnsafeAtTheEnd(hash: Hash, before: seq<Commit>, c: Commit, id: RunId)
    requires var db := StateAfter(hash, before);
             ReadsFirst(c.event) && id in db.runs && id in c.seen && !SafeWrite(db.runs[id], c.seen[id], Intended(hash, id, c.seen[id], c.event))
    ensures !AllSafeFor(hash, before + [c], id)
  {
    hide SafeWrite, Intended;
    var all := before + [c];
    assert all[..|before|] == before && all[|before|] == c;
    assert !SafeUpdate(hash, StateAfter(hash, all[..|before|]), all[|before|], id);
  }

  /** A recovery sweep read the run while it was running. Before it commits, the run succeeds. The
      sweep puts the finished run back into the queue, and a second result replaces the first. */
  lemma RecoveryReplacesAResult(hash: Hash, id: RunId, first: string, second: string, p: Payload, q: Payload) returns (commits: seq<Commit>)
    requires p != q
    ensures ReadsPast(hash, commits) && |commits| == 6
    ensures var db := StateAfter(hash, commits[..3]); id in db.runs && db.runs[id].status == Succeeded && db.runs[id].result == Some(p)
    ensures var db := StateAfter(hash, commits[..4]); id in db.runs && db.runs[id].status == Queued
    ensures var db := StateAfter(hash, commits); id in db.runs && db.runs[id].status == Succeeded && db.runs[id].result == Some(q)
    ensures !AllSafeFor(hash, commits, id) && !SoundFor(hash, commits, id)
  {
    hide StateAfter, ReadsPast, RowAfter, AllSafeFor, SoundFor;
    var created, queued := StartsQueued(hash, id);
    var running := ClaimRow(queued, first, 1);
    var claimed := Then(hash, created, Claim(id, first, 1));
    ThenReadsPast(hash, created, Claim(id, first, 1));
    RowMoves(hash, created, claimed[1], id, queued, queued);
    ClaimedRow(hash, id, queued, first, 1, claimed[1]);
    var done := CompleteRow(hash, running, p, Succeeded, None, 3);
    var completed := Then(hash, claimed, Complete(id, p, Succeeded, None, first, 3));
    ThenReadsPast(hash, claimed, Complete(id, p, Succeeded, None, first, 3));
    RowMoves(hash, claimed, completed[2], id, running, running);
    FreshRow(hash, id, running, completed[2]);
    var swept := Late(hash, completed, 2, Recover(2, 4));
    LateReadsPast(hash, completed, 2, Recover(2, 4));
    assert completed[..2] == claimed;
    RowMoves(hash, completed, swept[3], id, done, running);
    var back := RowAfter(hash, id, done, swept[3]);
    Requeued(hash, id, queued, first, p, swept[3]);
    UnsafeAtTheEnd(hash, completed, swept[3], id);
    var reclaimed := Then(hash, swept, Claim(id, second, 5));
    ThenReadsPast(hash, swept, Claim(id, second, 5));
    RowMoves(hash, swept, reclaimed[4], id, back, back);
    ClaimedRow(hash, id, back, second, 5, reclaimed[4]);
    commits := Then(hash, reclaimed, Complete(id, q, Succeeded, None, second, 6));
    ThenReadsPast(hash, reclaimed, Complete(id, q, Succeeded, None, second, 6));
    RowMoves(hash, reclaimed, commits[5], id, ClaimRow(back, second, 5), ClaimRow(back, second, 5));
    FreshRow(hash, id, ClaimRow(back, second, 5), commits[5]);
    assert commits[..3] == completed && commits[..4] == swept;
    if AllSafeFor(hash, commits, id) {
      SafeForPrefix(hash, commits, 4, id);
    }
    RunIsSoundIff(hash, commits, id);
  }

  lemma Requeued(hash: Hash, id: RunId, queued: Run, workerId: string, payload: Payload, c: Commit)
    requires queued == NewRow(Create(id, None, "", "", "", 0)) && c.event == Recover(2, 4)
    requires id in c.seen && c.seen[id] == ClaimRow(queued, workerId, 1)
    ensures var done := CompleteRow(hash, ClaimRow(queued, workerId, 1), payload, Succeeded, None, 3);
            && done.status == Succeeded && done.result == Some(payload)
            && RowAfter(hash, id, done, c).status == Queued
            && !SafeWrite(done, c.seen[id], Intended(hash, id, c.seen[id], c.event))
  {
  }

  // ---------------------------------------------------------------- nothing lost, and still

  /** Completion does not look at the worker: whoever calls it gets the same outcome. */
  lemma CompletionIgnoresTheWorker(hash: Hash, r: Run, payload: Payload, outcome: Status, code: Option<string>, at: int, worker: Option<string>)
    ensures CompleteRow(hash, r.(worker := worker), payload, outcome, code, at)
         == CompleteRow(hash, r, payload, outcome, code, at).(worker := worker)
  {
  }

  /** So a stale worker may be the one whose result is committed: claimed, recovered, claimed by a
      second worker, and then completed by the first. */
  lemma AStaleWorkerCommits(hash: Hash, id: RunId, first: string, second: string, stale: Payload) returns (commits: seq<Commit>)
    ensures ReadsPast(hash, commits) && |commits| == 5
    ensures commits[1].event == Claim(id, first, 1) && commits[2].event == Recover(2, 3) && commits[3].event == Claim(id, second, 4)
    ensures commits[4].event == Complete(id, stale, Succeeded, None, first, 5)
    ensures forall k :: 0 <= k < 5 ==> commits[k].seen == StateAfter(hash, commits[..k]).runs
    ensures var db := StateAfter(hash, commits);
            id in db.runs && db.runs[id].status == Succeeded && db.runs[id].worker == Some(second) && db.runs[id].result == Some(stale)
  {
    hide StateAfter, ReadsPast, RowAfter;
    var created, queued := StartsQueued(hash, id);
    var running := ClaimRow(queued, first, 1);
    var claimed := Then(hash, created, Claim(id, first, 1));
    ThenReadsPast(hash, created, Claim(id, first, 1));
    RowMoves(hash, created, claimed[1], id, queued, queued);
    ClaimedRow(hash, id, queued, first, 1, claimed[1]);
    var swept := Then(hash, claimed, Recover(2, 3));
    ThenReadsPast(hash, claimed, Recover(2, 3));
    RowMoves(hash, claimed, swept[2], id, running, running);
    FreshRow(hash, id, running, swept[2]);
    var back := RecoverRow(running, 2, 3);
    var reclaimed := Then(hash, swept, Claim(id, second, 4));
    ThenReadsPast(hash, swept, Claim(id, second, 4));
    RowMoves(hash, swept, reclaimed[3], id, back, back);
    ClaimedRow(hash, id, back, second, 4, reclaimed[3]);
    commits := Then(hash, reclaimed, Complete(id, stale, Succeeded, None, first, 5));
    ThenReadsPast(hash, reclaimed, Complete(id, stale, Succeeded, None, first, 5));
    RowMoves(hash, reclaimed, commits[4], id, ClaimRow(back, second, 4), ClaimRow(back, second, 4));
    FreshRow(hash, id, ClaimRow(back, second, 4), commits[4]);
    assert commits[..0] == [] && commits[..1] == created && commits[..2] == claimed && commits[..3] == swept && commits[..4] == reclaimed;
  }

  /** Exact: after a completion the row names the worker that called it if and only if that worker
      claimed the run and no recovery of it was committed since. */
  lemma CommitterIsNamedIff(hash: Hash, before: seq<Commit>, c: Commit, id: RunId)
    requires ReadsPast(hash, before + [c]) && c.event.Complete? && c.event.id == id && id in StateAfter(hash, before).runs
    ensures id in StateAfter(hash, before + [c]).runs
    ensures StateAfter(hash, before + [c]).runs[id].worker == Some(c.event.worker)
       <==> exists i :: HoldsSince(hash, before, i, id, c.event.worker)
  {
    hide StateAfter, ReadsPast, RowAfter, Apply, HoldsSince;
    assert (before + [c])[..|before|] == before;
    ReadsPastPrefix(hash, before + [c], |before|);
    RowNamesIff(hash, before, id, c.event.worker);
    AppendCommit(hash, before, c);
    RowOfApply(hash, StateAfter(hash, before), c, id);
    CompletionKeepsTheWorker(hash, id, StateAfter(hash, before).runs[id], c);
  }

  lemma CompletionKeepsTheWorker(hash: Hash, id: RunId, now: Run, c: Commit)
    requires c.event.Complete?
    ensures RowAfter(hash, id, now, c).worker == now.worker
  {
  }

  /** A failure report leaves a run unfinished exactly when the run is back in the queue and the
      report is not a plain failure: the table has no such edge, so the call raises. */
  lemma ReportIsDroppedIff(hash: Hash, id: RunId, r: Run, outcome: Status, code: Option<string>, at: int)
    requires WorkerFailure(outcome)
    ensures !Terminal(Intended(hash, id, r, Fail(id, outcome, code, at)).status) <==> r.status == Queued && outcome != Failed
  {
  }

  /** That happens: claimed, recovered as stale, then reported infeasible. */
  lemma LateInfeasibilityIsDropped(hash: Hash, id: RunId, workerId: string) returns (commits: seq<Commit>)
    ensures ReadsPast(hash, commits) && |commits| == 3 && commits[1].event == Claim(id, workerId, 1) && commits[2].event == Recover(2, 3)
    ensures var db := StateAfter(hash, commits);
            id in db.runs && db.runs[id].status == Queued && Intended(hash, id, db.runs[id], Fail(id, Infeasible, Some("late"), 4)) == db.runs[id]
  {
    hide StateAfter, ReadsPast, RowAfter;
    var created, queued := StartsQueued(hash, id);
    var running := ClaimRow(queued, workerId, 1);
    var claimed := Then(hash, created, Claim(id, workerId, 1));
    ThenReadsPast(hash, created, Claim(id, workerId, 1));
    RowMoves(hash, created, claimed[1], id, queued, queued);
    ClaimedRow(hash, id, queued, workerId, 1, claimed[1]);
    commits := Then(hash, claimed, Recover(2, 3));
    ThenReadsPast(hash, claimed, Recover(2, 3));
    RowMoves(hash, claimed, commits[2], id, running, running);
    FreshRow(hash, id, running, commits[2]);
  }
}

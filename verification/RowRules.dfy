/** The rules of the run table in its columns and statuses, without the predicates the transition system
    is written with. */
module RowRules {
  import opened Prelude
  import opened RunLifecycle

  /** The table of status changes, pair by pair: what is listed and nothing else. */
  lemma StatusTable(a: Status, b: Status)
    ensures Allowed(a, b) <==>
              || (a == Queued && (b == Running || b == Cancelled || b == Failed))
              || (a == Running && (b == Succeeded || b == Failed || b == Infeasible || b == TimedOut || b == CancelRequested || b == Degraded))
              || (a == CancelRequested && (b == Cancelled || b == Succeeded || b == Failed))
    ensures Terminal(a) <==> a != Queued && a != Running && a != CancelRequested
    ensures Terminal(a) <==> forall s :: !Allowed(a, s)
    ensures WorkerFailure(a) <==> Terminal(a) && a != Succeeded && a != Cancelled
  {
    assert Allowed(Queued, Failed) && Allowed(Running, Failed) && Allowed(CancelRequested, Failed);
  }

  /** An update writes the columns it changed and leaves the others as somebody else may have left them. */
  lemma OnlyChangedColumns(now: Run, seen: Run, next: Run)
    ensures var w := Written(now, seen, next);
            && w.status == (if next.status == seen.status then now.status else next.status)
            && w.worker == (if next.worker == seen.worker then now.worker else next.worker)
            && w.startedAt == (if next.startedAt == seen.startedAt then now.startedAt else next.startedAt)
            && w.completedAt == (if next.completedAt == seen.completedAt then now.completedAt else next.completedAt)
            && w.heartbeatAt == (if next.heartbeatAt == seen.heartbeatAt then now.heartbeatAt else next.heartbeatAt)
            && w.updatedAt == (if next.updatedAt == seen.updatedAt then now.updatedAt else next.updatedAt)
            && w.recoveryCount == (if next.recoveryCount == seen.recoveryCount then now.recoveryCount else next.recoveryCount)
            && w.lastRecoveredAt == (if next.lastRecoveredAt == seen.lastRecoveredAt then now.lastRecoveredAt else next.lastRecoveredAt)
            && w.result == (if next.result == seen.result then now.result else next.result)
            && w.resultSha == (if next.resultSha == seen.resultSha then now.resultSha else next.resultSha)
            && w.failureCode == (if next.failureCode == seen.failureCode then now.failureCode else next.failureCode)
  {
  }

  /** A claim keeps the run from every sweep that looks back no further than the claim: whatever else the
      sweep takes, the run stays with its worker. */
  lemma ClaimOutlivesTheSweep(hash: Hash, history: seq<Commit>, id: RunId, workerId: string, at: int, seen: map<RunId, Run>, cutoff: int, sweptAt: int)
    requires id in StateAfter(hash, history).runs && StateAfter(hash, history).runs[id].status == Queued && cutoff <= at
    ensures var claimed := history + [Commit(Claim(id, workerId, at), seen)];
            var swept := claimed + [Commit(Recover(cutoff, sweptAt), StateAfter(hash, claimed).runs)];
            var row := StateAfter(hash, history).runs[id];
            && id in StateAfter(hash, claimed).runs && id in StateAfter(hash, swept).runs
            && StateAfter(hash, swept).runs[id] == StateAfter(hash, claimed).runs[id]
            && StateAfter(hash, swept).runs[id]
               == row.(status := Running, worker := Some(workerId), heartbeatAt := Some(at), updatedAt := at,
                       startedAt := if row.startedAt.Some? then row.startedAt else Some(at))
  {
    hide StateAfter;
    var claim := Commit(Claim(id, workerId, at), seen);
    var claimed := history + [claim];
    AppendCommit(hash, history, claim);
    AppendCommit(hash, claimed, Commit(Recover(cutoff, sweptAt), StateAfter(hash, claimed).runs));
  }

  /** A sweep that reads and commits at once requeues exactly the running runs silent since before the
      cutoff, and finishes exactly the silent ones whose cancellation was requested. */
  lemma SweepTakesTheSilent(hash: Hash, db: Db, cutoff: int, at: int, id: RunId)
    requires id in db.runs
    ensures var r := db.runs[id];
            var beat := if r.heartbeatAt.Some? then r.heartbeatAt.value else r.updatedAt;
            var after := Apply(hash, db, Commit(Recover(cutoff, at), db.runs)).runs;
            && id in after
            && (after[id] != r <==> (r.status == Running || r.status == CancelRequested) && beat < cutoff)
            && (r.status == Running && beat < cutoff ==>
                  after[id] == r.(status := Queued, worker := None, heartbeatAt := None, recoveryCount := r.recoveryCount + 1,
                                  lastRecoveredAt := Some(at), updatedAt := at))
            && (r.status == CancelRequested && beat < cutoff ==>
                  after[id] == r.(status := Cancelled, completedAt := Some(at), failureCode := Some("operator_cancelled"), updatedAt := at))
  {
  }
}

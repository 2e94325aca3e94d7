/** The run and approval repositories over one shared store, and the worker that drives them.
    A call reads its rows when it begins and commits later; `between` is what other parties commit
    in that time. */
module RunRepository {
  import opened Prelude
  import opened RunLifecycle

  datatype RepositoryError =
    | RunNotFound
    | RunConflict
    | ApprovalConflict
    | IntegrityFailure
    | NotAFailureStatus

  /** The order in which queued runs are claimed: oldest first, ties by identifier. */
  predicate Before(runs: map<RunId, Run>, a: RunId, b: RunId)
    requires a in runs && b in runs
  {
    runs[a].createdAt < runs[b].createdAt || (runs[a].createdAt == runs[b].createdAt && a <= b)
  }

  ghost predicate OldestQueued(runs: map<RunId, Run>, id: RunId) {
    && id in runs && runs[id].status == Queued
    && forall other :: other in runs && runs[other].status == Queued ==> Before(runs, id, other)
  }

  /** What a call that updates this one row has done to the table when it commits. */
  function WithRow(hash: Hash, runs: map<RunId, Run>, id: RunId, c: Commit): map<RunId, Run> {
    if id in runs then runs[id := RowAfter(hash, id, runs[id], c)] else runs
  }

  /** An event about one run leaves the other rows alone. */
  lemma OnlyThatRow(hash: Hash, db: Db, c: Commit, id: RunId)
    requires c.event.Complete? || c.event.Fail? || c.event.RequestCancellation? || c.event.Claim?
    requires c.event.id == id
    ensures Apply(hash, db, c) == db.(runs := WithRow(hash, db.runs, id, c))
  {
    forall other | other in db.runs && other != id ensures RowAfter(hash, other, db.runs[other], c) == db.runs[other] {
      if other in c.seen {
        assert Intended(hash, other, c.seen[other], c.event) == c.seen[other];
        NothingWritten(db.runs[other], c.seen[other]);
      }
    }
    assert Apply(hash, db, c).runs == WithRow(hash, db.runs, id, c);
  }

  lemma NothingWritten(now: Run, seen: Run)
    ensures Written(now, seen, seen) == now
  {
  }

  /** A row nobody touched takes on what was meant for it. */
  lemma WrittenFresh(seen: Run, next: Run)
    ensures Written(seen, seen, next) == next
  {
  }

  class Store {
    const hash: Hash
    var runs: map<RunId, Run>
    var approvals: map<RunId, Approval>
    /** Every commit so far, in order. */
    ghost var log: seq<Commit>

    ghost function Contents(): Db
      reads this
    {
      Db(runs, approvals)
    }

    /** The store is what its history of commits makes it. */
    ghost predicate Valid()
      reads this
    {
      Contents() == StateAfter(hash, log)
    }

    constructor (hash: Hash)
      ensures Valid() && Contents() == EMPTY && log == [] && this.hash == hash
    {
      this.hash := hash;
      runs, approvals, log := map[], map[], [];
    }

    ghost method Record(c: Commit)
      requires Contents() == Apply(hash, StateAfter(hash, log), c)
      modifies this`log
      ensures Valid() && log == old(log) + [c]
    {
      hide StateAfter, Apply;
      AppendCommit(hash, log, c);
      log := log + [c];
    }

    // ---------------------------------------------------------------- other parties

    /** A commit of some other party, computed from whatever rows it read. */
    method Perform(c: Commit)
      requires Valid()
      modifies this
      ensures Valid() && log == old(log) + [c]
    {
      hide Apply;
      var db := Apply(hash, Db(runs, approvals), c);
      runs, approvals := db.runs, db.approvals;
      Record(c);
    }

    method PerformAll(commits: seq<Commit>)
      requires Valid()
      modifies this
      ensures Valid() && log == old(log) + commits
      ensures old(runs).Keys <= runs.Keys
      ensures forall id :: id in old(runs) ==> RowStays(old(runs)[id], runs[id])
      ensures commits == [] ==> Contents() == old(Contents())
    {
      hide StateAfter;
      for k := 0 to |commits|
        invariant Valid() && log == old(log) + commits[..k]
      {
        Perform(commits[k]);
        assert commits[..k + 1] == commits[..k] + [commits[k]];
      }
      assert commits[..|commits|] == commits;
      assert log[..|old(log)|] == old(log);
      RunsStay(hash, log, |old(log)|);
    }

    // ---------------------------------------------------------------- the run repository

    method FindByKey(key: Option<string>) returns (found: Option<RunId>)
      ensures found.Some? ==> key.Some? && found.value in runs && runs[found.value].key == key
      ensures found.None? ==> !KeyTaken(Contents(), key)
    {
      if key.None? {
        return None;
      }
      var rest := runs.Keys;
      while rest != {}
        invariant rest <= runs.Keys
        invariant forall id :: id in runs && id !in rest ==> runs[id].key != key
        decreases |rest|
      {
        var id :| id in rest;
        if runs[id].key == key {
          return Some(id);
        }
        rest := rest - {id};
      }
      return None;
    }

    /** The answer for a key that is taken: the run it made, or a conflict when the request differs. */
    method ResolveIdempotent(id: RunId, fingerprint: string) returns (r: Result<(RunId, bool), RepositoryError>)
      requires id in runs
      ensures r == if runs[id].fingerprint != fingerprint then Err(RunConflict) else Ok((id, false))
    {
      if runs[id].fingerprint != fingerprint {
        return Err(RunConflict);
      }
      return Ok((id, false));
    }

    /** Idempotent submission: one run per key, also when another submission takes the key between
        the lookup and the insert. */
    method Create(e: Event, between: seq<Commit>) returns (r: Result<(RunId, bool), RepositoryError>)
      requires Valid() && e.Create?
      modifies this
      ensures Valid()
      ensures log == if KeyTaken(old(Contents()), e.key) then old(log) else old(log) + between + [Commit(e, old(runs))]
      ensures r.Ok? ==> && r.value.0 in runs && runs[r.value.0].fingerprint == e.fingerprint
                        && (if r.value.1 then r.value.0 == e.id && runs[e.id] == NewRow(e)
                            else e.key.Some? && runs[r.value.0].key == e.key)
      ensures r == Err(RunConflict) ==> exists id :: id in runs && e.key.Some? && runs[id].key == e.key && runs[id].fingerprint != e.fingerprint
      ensures KeyTaken(old(Contents()), e.key) ==> (r.Ok? ==> !r.value.1) && (r.Err? ==> r == Err(RunConflict))
      ensures !KeyTaken(old(Contents()), e.key) && between == [] && e.id !in old(runs) ==> r == Ok((e.id, true))
      // in the columns of the rows
      ensures e.key.Some? && (exists id :: id in old(runs) && old(runs)[id].key == e.key) ==>
                && runs == old(runs) && approvals == old(approvals)
                && (r.Ok? ==> !r.value.1 && r.value.0 in runs && runs[r.value.0].key == e.key && runs[r.value.0].fingerprint == e.fingerprint)
                && (r.Err? ==> r == Err(RunConflict) && exists id :: id in runs && runs[id].key == e.key && runs[id].fingerprint != e.fingerprint)
      ensures between == [] && e.id !in old(runs) && (e.key.None? || forall id :: id in old(runs) ==> old(runs)[id].key != e.key) ==>
                && r == Ok((e.id, true))
                && runs == old(runs)[e.id := Run(e.key, e.fingerprint, e.inputReference, e.inputSha, e.at, e.at, Queued,
                                                 None, None, None, None, 0, None, None, None, None)]
      ensures r.Err? ==> || r == Err(RunConflict)
                         || (r == Err(IntegrityFailure) && e.id in runs && (e.key.None? || forall id :: id in runs ==> runs[id].key != e.key))
    {
      hide StateAfter;
      var existing := FindByKey(e.key);
      if existing.Some? {
        r := ResolveIdempotent(existing.value, e.fingerprint);
        return;
      }
      ghost var seen := runs;
      PerformAll(between);
      var taken := FindByKey(e.key);
      if e.id in runs || taken.Some? {
        Record(Commit(e, seen));
        if taken.None? {
          return Err(IntegrityFailure);
        }
        r := ResolveIdempotent(taken.value, e.fingerprint);
        return;
      }
      runs := runs[e.id := Run(e.key, e.fingerprint, e.inputReference, e.inputSha, e.at, e.at, Queued,
                               None, None, None, None, 0, None, None, None, None)];
      Record(Commit(e, seen));
      return Ok((e.id, true));
    }

    /** The select of a claim: the oldest queued run, if any. */
    method SelectOldestQueued() returns (r: Option<RunId>)
      ensures r.Some? ==> OldestQueued(runs, r.value)
      ensures r.Some? ==> && r.value in runs && runs[r.value].status == Queued
                          && forall id :: id in runs && runs[id].status == Queued ==>
                               || runs[r.value].createdAt < runs[id].createdAt
                               || (runs[r.value].createdAt == runs[id].createdAt && r.value <= id)
      ensures r.None? ==> forall id :: id in runs ==> runs[id].status != Queued
    {
      r := None;
      var rest := runs.Keys;
      while rest != {}
        invariant rest <= runs.Keys
        invariant r.Some? ==> r.value in runs && runs[r.value].status == Queued
        invariant forall id :: id in runs && id !in rest && runs[id].status == Queued ==> r.Some? && Before(runs, r.value, id)
        decreases |rest|
      {
        var id :| id in rest;
        if runs[id].status == Queued && (r.None? || Before(runs, id, r.value)) {
          r := Some(id);
        }
        rest := rest - {id};
      }
    }

    /** The conditional update of a claim: succeeds only if the run is still queued. */
    method ClaimIfQueued(id: RunId, workerId: string, at: int) returns (claimed: bool)
      requires Valid()
      modifies this
      ensures Valid() && log == old(log) + [Commit(Claim(id, workerId, at), old(runs))]
      ensures claimed <==> id in old(runs) && old(runs)[id].status == Queued
      ensures claimed ==> id in runs && runs[id].status == Running && runs[id].worker == Some(workerId)
      ensures old(runs).Keys == runs.Keys
      ensures runs == if !claimed then old(runs)
                      else old(runs)[id := old(runs)[id].(status := Running, worker := Some(workerId), heartbeatAt := Some(at), updatedAt := at,
                                                          startedAt := if old(runs)[id].startedAt.Some? then old(runs)[id].startedAt else Some(at))]
    {
      hide StateAfter, Apply;
      ghost var c := Commit(Claim(id, workerId, at), runs);
      OnlyThatRow(hash, Contents(), c, id);
      claimed := id in runs && runs[id].status == Queued;
      if claimed {
        var row := runs[id];
        runs := runs[id := row.(status := Running, worker := Some(workerId), startedAt := Some(row.startedAt.GetOr(at)),
                                heartbeatAt := Some(at), updatedAt := at)];
      }
      assert runs == WithRow(hash, old(runs), id, c);
      Record(c);
    }

    /** Flushes a changed row by primary key: the columns changed since it was read. */
    method Flush(id: RunId, seen: Run, next: Run)
      requires id in runs
      modifies this`runs
      ensures runs == old(runs)[id := Written(old(runs)[id], seen, next)]
    {
      runs := runs[id := Written(runs[id], seen, next)];
    }

    /** Commits one changed row after others have committed. */
    method CommitRow(id: RunId, seen: Run, next: Run, ghost e: Event, between: seq<Commit>)
      requires Valid() && id in runs && runs[id] == seen && next == Intended(hash, id, seen, e)
      requires (e.Complete? || e.Fail? || e.RequestCancellation?) && e.id == id
      modifies this
      ensures Valid() && log == old(log) + between + [Commit(e, old(runs))]
      ensures id in runs && (next.status != seen.status ==> runs[id].status == next.status)
      ensures next.result != seen.result ==> runs[id].result == next.result
      ensures next.resultSha != seen.resultSha ==> runs[id].resultSha == next.resultSha
      ensures between == [] ==> runs == old(runs)[id := next] && approvals == old(approvals)
      ensures old(runs).Keys <= runs.Keys
    {
      hide StateAfter, Apply, Intended;
      ghost var c := Commit(e, runs);
      PerformAll(between);
      OnlyThatRow(hash, Contents(), c, id);
      WrittenFresh(seen, next);
      Flush(id, seen, next);
      Record(c);
    }

    /** Completion, degraded or not. A cancellation that had been requested when the row was read
        wins over the result. */
    method CompleteWithResult(id: RunId, payload: Payload, outcome: Status, code: Option<string>, at: int, ghost workerId: string, between: seq<Commit>)
      returns (r: Result<Status, RepositoryError>)
      requires Valid() && outcome in {Succeeded, Degraded}
      modifies this
      ensures Valid()
      ensures r == if id !in old(runs) then Err(RunNotFound)
                   else match old(runs)[id].status
                        case CancelRequested => Ok(Cancelled)
                        case Running => Ok(outcome)
                        case _ => Err(RunConflict)
      ensures log == if r.Ok? then old(log) + between + [Commit(Complete(id, payload, outcome, code, workerId, at), old(runs))] else old(log)
      ensures r.Ok? ==> id in runs && runs[id].status == r.value && old(runs).Keys <= runs.Keys
      ensures r == Ok(outcome) && old(runs)[id].result == None && old(runs)[id].resultSha == None ==>
                runs[id].result == Some(payload) && runs[id].resultSha == Some(hash(payload))
      ensures r.Ok? && between == [] ==> runs[id] == CompleteRow(hash, old(runs)[id], payload, outcome, code, at)
      ensures r.Ok? && between == [] ==>
                runs == old(runs)[id := if old(runs)[id].status == CancelRequested
                  then old(runs)[id].(status := Cancelled, updatedAt := at, completedAt := Some(at), heartbeatAt := Some(at),
                                      failureCode := Some("operator_cancelled"))
                  else old(runs)[id].(status := outcome, result := Some(payload), resultSha := Some(hash(payload)), updatedAt := at,
                                      completedAt := Some(at), heartbeatAt := Some(at), failureCode := code)]
      ensures r.Err? ==> Contents() == old(Contents())
    {
      hide StateAfter;
      if id !in runs {
        return Err(RunNotFound);
      }
      var row := runs[id];
      var current := row.status;
      if current == CancelRequested {
        var next := row.(status := Cancelled, updatedAt := at, completedAt := Some(at), heartbeatAt := Some(at),
                         failureCode := Some("operator_cancelled"));
        CommitRow(id, row, next, Complete(id, payload, outcome, code, workerId, at), between);
        return Ok(Cancelled);
      }
      if current != Running {
        return Err(RunConflict);
      }
      var next := row.(result := Some(payload), resultSha := Some(hash(payload)), status := outcome,
                       updatedAt := at, completedAt := Some(at), heartbeatAt := Some(at), failureCode := code);
      CommitRow(id, row, next, Complete(id, payload, outcome, code, workerId, at), between);
      return Ok(outcome);
    }

    /** The table-checked transition used by failures and cancellations. */
    method Transition(id: RunId, target: Status, code: Option<string>, at: int, ghost e: Event, between: seq<Commit>)
      returns (r: Result<(), RepositoryError>)
      requires Valid() && id in runs && target != Running
      requires (e.Fail? || e.RequestCancellation?) && e.id == id
      requires Intended(hash, id, runs[id], e) == TransitionRow(runs[id], target, code, at)
      modifies this
      ensures Valid() && id in runs
      ensures var seen := old(runs)[id].status;
              && (r.Ok? <==> seen == target || Allowed(seen, target))
              && (if r.Ok? && seen != target
                  then && log == old(log) + between + [Commit(e, old(runs))] && runs[id].status == target
                       && (between == [] ==> runs == old(runs)[id := TransitionRow(old(runs)[id], target, code, at)])
                  else log == old(log) && Contents() == old(Contents()))
      ensures r.Err? ==> r == Err(RunConflict)
      ensures old(runs).Keys <= runs.Keys
    {
      hide StateAfter, Intended;
      var row := runs[id];
      if row.status == target {
        return Ok(());
      }
      if !Allowed(row.status, target) {
        return Err(RunConflict);
      }
      var next := row.(status := target, updatedAt := at);
      if Terminal(target) {
        next := next.(completedAt := Some(at), heartbeatAt := Some(at));
      }
      next := next.(failureCode := code);
      CommitRow(id, row, next, e, between);
      return Ok(());
    }

    method Fail(id: RunId, outcome: Status, code: Option<string>, at: int, between: seq<Commit>) returns (r: Result<Status, RepositoryError>)
      requires Valid()
      modifies this
      ensures Valid()
      ensures r == if !WorkerFailure(outcome) then Err(NotAFailureStatus)
                   else if id !in old(runs) then Err(RunNotFound)
                   else if old(runs)[id].status == CancelRequested then Ok(Cancelled)
                   else if old(runs)[id].status == outcome || Allowed(old(runs)[id].status, outcome) then Ok(outcome)
                   else Err(RunConflict)
      ensures log == if r.Ok? && old(runs)[id].status != r.value
                     then old(log) + between + [Commit(Event.Fail(id, outcome, code, at), old(runs))] else old(log)
      ensures r.Ok? ==> id in runs && runs[id].status == r.value && Terminal(r.value)
      ensures log == old(log) ==> Contents() == old(Contents())
      ensures old(runs).Keys <= runs.Keys
      // in the columns of the row
      ensures r == if outcome !in {Failed, Infeasible, TimedOut, Degraded} then Err(NotAFailureStatus)
                   else if id !in old(runs) then Err(RunNotFound)
                   else match old(runs)[id].status
                        case Running => Ok(outcome)
                        case CancelRequested => Ok(Cancelled)
                        case Queued => if outcome == Failed then Ok(Failed) else Err(RunConflict)
                        case finished => if finished == outcome then Ok(outcome) else Err(RunConflict)
      ensures r.Ok? && between == [] && old(runs)[id].status != r.value ==>
                runs == old(runs)[id := old(runs)[id].(status := r.value, updatedAt := at, completedAt := Some(at), heartbeatAt := Some(at),
                  failureCode := if old(runs)[id].status == CancelRequested then Some("operator_cancelled") else code)]
    {
      hide StateAfter;
      if !WorkerFailure(outcome) {
        return Err(NotAFailureStatus);
      }
      if id !in runs {
        return Err(RunNotFound);
      }
      ghost var e := Event.Fail(id, outcome, code, at);
      if runs[id].status == CancelRequested {
        var moved := Transition(id, Cancelled, Some("operator_cancelled"), at, e, between);
        return Ok(Cancelled);
      }
      var moved := Transition(id, outcome, code, at, e, between);
      if moved.Err? {
        return Err(RunConflict);
      }
      return Ok(outcome);
    }

    /** What the sweep makes of one stale row. */
    method RecoverOne(row: Run, cutoff: int, at: int) returns (next: Run)
      requires Stale(row, cutoff)
      ensures next == RecoverRow(row, cutoff, at)
    {
      next := row;
      if next.status == CancelRequested {
        next := next.(status := Cancelled, completedAt := Some(at), failureCode := Some("operator_cancelled"));
      } else {
        next := next.(status := Queued, worker := None, heartbeatAt := None, recoveryCount := next.recoveryCount + 1,
                      lastRecoveredAt := Some(at));
      }
      next := next.(updatedAt := at);
    }

    /** What the sweep makes of every stale row. */
    method SweepUpdates(seen: map<RunId, Run>, stale: set<RunId>, cutoff: int, at: int) returns (updates: map<RunId, Run>)
      requires stale <= seen.Keys && forall id :: id in stale ==> Stale(seen[id], cutoff)
      ensures updates.Keys == stale && forall id :: id in stale ==> updates[id] == RecoverRow(seen[id], cutoff, at)
      ensures forall id :: id in stale ==>
                if seen[id].status == CancelRequested then
                  updates[id] == seen[id].(status := Cancelled, completedAt := Some(at), failureCode := Some("operator_cancelled"), updatedAt := at)
                else
                  updates[id] == seen[id].(status := Queued, worker := None, heartbeatAt := None, recoveryCount := seen[id].recoveryCount + 1,
                                           lastRecoveredAt := Some(at), updatedAt := at)
    {
      hide Stale;
      updates := map[];
      var rest := stale;
      while rest != {}
        invariant rest <= stale && updates.Keys == stale - rest
        invariant forall id :: id in updates ==> updates[id] == RecoverRow(seen[id], cutoff, at)
        decreases |rest|
      {
        var id :| id in rest;
        var next := RecoverOne(seen[id], cutoff, at);
        updates := updates[id := next];
        rest := rest - {id};
      }
    }

    /** Returns abandoned claims to the queue and finishes stale cancellations, all in one commit,
        as the rows were when they were selected. */
    method RecoverStale(cutoff: int, at: int, between: seq<Commit>)
      requires Valid()
      modifies this
      ensures Valid() && old(runs).Keys <= runs.Keys
      ensures log == if exists id :: id in old(runs) && Stale(old(runs)[id], cutoff)
                     then old(log) + between + [Commit(Recover(cutoff, at), old(runs))] else old(log)
      ensures between == [] ==> runs == Swept(old(runs), cutoff, at)
      // in the columns of the rows
      ensures between == [] ==> runs.Keys == old(runs).Keys && approvals == old(approvals)
      ensures between == [] ==> forall id :: id in old(runs) ==>
                var r := old(runs)[id];
                var beat := if r.heartbeatAt.Some? then r.heartbeatAt.value else r.updatedAt;
                if (r.status != Running && r.status != CancelRequested) || beat >= cutoff then runs[id] == r
                else if r.status == Running then
                  runs[id] == r.(status := Queued, worker := None, heartbeatAt := None, recoveryCount := r.recoveryCount + 1,
                                 lastRecoveredAt := Some(at), updatedAt := at)
                else
                  runs[id] == r.(status := Cancelled, completedAt := Some(at), failureCode := Some("operator_cancelled"), updatedAt := at)
      ensures (forall id :: id in old(runs) ==>
                 var r := old(runs)[id];
                 || (r.status != Running && r.status != CancelRequested)
                 || (if r.heartbeatAt.Some? then r.heartbeatAt.value else r.updatedAt) >= cutoff) ==>
                runs == old(runs) && approvals == old(approvals)
    {
      hide StateAfter, Stale, RecoverRow;
      ghost var seen := runs;
      var stale := set id | id in runs && Stale(runs[id], cutoff);
      if stale == {} {
        StaleRows(seen, stale, cutoff, at);
        assert runs == Swept(seen, cutoff, at);
      } else {
        ghost var some :| some in stale;
        NobodySilent(runs, cutoff);
        CommitSweep(stale, cutoff, at, between);
      }
      if between == [] {
        SweptByColumns(seen, runs, cutoff, at);
      }
    }

    /** The selected rows, updated as they were read and committed at once. */
    method CommitSweep(stale: set<RunId>, cutoff: int, at: int, between: seq<Commit>)
      requires Valid() && forall id :: id in stale <==> id in runs && Stale(runs[id], cutoff)
      modifies this
      ensures Valid() && old(runs).Keys <= runs.Keys
      ensures log == old(log) + between + [Commit(Recover(cutoff, at), old(runs))]
      ensures between == [] ==>
                runs == Swept(old(runs), cutoff, at) && approvals == old(approvals)
    {
      hide StateAfter, Stale, Written, Apply, RecoverRow;
      var seen := runs;
      StaleRows(seen, stale, cutoff, at);
      var updates := SweepUpdates(seen, stale, cutoff, at);
      ghost var c := Commit(Recover(cutoff, at), runs);
      PerformAll(between);
      ghost var now := Contents();
      FlushAll(seen, updates, stale);
      SweepIsApply(hash, now, c, stale, runs);
      if between == [] {
        SweepOfUnchanged(seen, stale, cutoff, at, runs);
      }
      Record(c);
    }

    /** Flushes every changed row of the sweep. */
    method FlushAll(seen: map<RunId, Run>, updates: map<RunId, Run>, ids: set<RunId>)
      requires ids == updates.Keys && ids <= seen.Keys && ids <= runs.Keys
      modifies this`runs
      ensures runs.Keys == old(runs).Keys
      ensures forall id :: id in runs ==> runs[id] == if id in ids then Written(old(runs)[id], seen[id], updates[id]) else old(runs)[id]
    {
      hide Written;
      var rest := ids;
      while rest != {}
        invariant rest <= ids && runs.Keys == old(runs).Keys
        invariant forall id :: id in runs ==>
                    runs[id] == if id in ids && id !in rest then Written(old(runs)[id], seen[id], updates[id]) else old(runs)[id]
        decreases |rest|
      {
        var id :| id in rest;
        Flush(id, seen[id], updates[id]);
        rest := rest - {id};
      }
    }

    method RequestCancellation(id: RunId, at: int, between: seq<Commit>) returns (r: Result<Status, RepositoryError>)
      requires Valid()
      modifies this
      ensures Valid() && old(runs).Keys <= runs.Keys
      ensures r == if id !in old(runs) then Err(RunNotFound)
                   else match old(runs)[id].status
                        case Queued => Ok(Cancelled)
                        case Running => Ok(CancelRequested)
                        case Cancelled => Ok(Cancelled)
                        case CancelRequested => Ok(CancelRequested)
                        case _ => Err(RunConflict)
      ensures r.Ok? ==> id in runs && runs[id].status == r.value
      ensures if r.Ok? && old(runs)[id].status != r.value
              then log == old(log) + between + [Commit(Event.RequestCancellation(id, at), old(runs))]
              else log == old(log) && Contents() == old(Contents())
      ensures r.Ok? && between == [] && old(runs)[id].status == Queued ==>
                runs == old(runs)[id := old(runs)[id].(status := Cancelled, updatedAt := at, completedAt := Some(at), heartbeatAt := Some(at),
                                                       failureCode := None)]
      ensures r.Ok? && between == [] && old(runs)[id].status == Running ==>
                runs == old(runs)[id := old(runs)[id].(status := CancelRequested, updatedAt := at, failureCode := None)]
    {
      hide StateAfter;
      if id !in runs {
        return Err(RunNotFound);
      }
      var current := runs[id].status;
      if current == Cancelled || current == CancelRequested {
        return Ok(current);
      }
      var target := if current == Queued then Cancelled else CancelRequested;
      var moved := Transition(id, target, None, at, Event.RequestCancellation(id, at), between);
      if moved.Err? {
        return Err(RunConflict);
      }
      return Ok(target);
    }

    // ---------------------------------------------------------------- the approval repository

    /** The answer for a run that has a decision: the decision, if the request repeats it. */
    method ResolveExisting(row: Approval, approved: bool, decidedBy: string, note: Option<string>) returns (r: Result<Approval, RepositoryError>)
      ensures r == if row.approved == approved && row.note == note && row.decidedBy == decidedBy then Ok(row) else Err(ApprovalConflict)
    {
      if row.approved != approved || row.note != note || row.decidedBy != decidedBy {
        return Err(ApprovalConflict);
      }
      return Ok(row);
    }

    /** One immutable decision per run, bound to the hash of the result it was read with. */
    method Decide(id: RunId, approved: bool, decidedBy: string, note: Option<string>, at: int, between: seq<Commit>)
      returns (r: Result<Approval, RepositoryError>)
      requires Valid()
      modifies this
      ensures Valid() && old(runs).Keys <= runs.Keys
      ensures log == if id in old(runs) && id !in old(approvals) && Decidable(old(runs)[id])
                     then old(log) + between + [Commit(Approve(id, approved, decidedBy, note, at), old(runs))] else old(log)
      ensures r.Ok? ==> && id in approvals && approvals[id] == r.value
                        && r.value.approved == approved && r.value.decidedBy == decidedBy && r.value.note == note
      ensures id in old(runs) && id !in old(approvals) && Decidable(old(runs)[id]) && between == [] ==>
                r == Ok(Approval(approved, decidedBy, note, old(runs)[id].resultSha.value, at))
      ensures log == old(log) ==> Contents() == old(Contents())
      // in the columns of the rows
      ensures id in old(runs) && id in old(approvals) ==>
                && r == (if old(approvals)[id].approved == approved && old(approvals)[id].note == note && old(approvals)[id].decidedBy == decidedBy
                         then Ok(old(approvals)[id]) else Err(ApprovalConflict))
                && runs == old(runs) && approvals == old(approvals)
      ensures id in old(runs) && id !in old(approvals)
              && (|| old(runs)[id].status != Succeeded || old(runs)[id].result.None? || !old(runs)[id].result.value.validationPassed
                  || old(runs)[id].resultSha.None? || old(runs)[id].resultSha.value == "") ==>
                r == Err(ApprovalConflict) && runs == old(runs) && approvals == old(approvals)
      ensures between == [] && id in old(runs) && id !in old(approvals)
              && old(runs)[id].status == Succeeded && old(runs)[id].result.Some? && old(runs)[id].result.value.validationPassed
              && old(runs)[id].resultSha.Some? && old(runs)[id].resultSha.value != "" ==>
                && runs == old(runs)
                && approvals == old(approvals)[id := Approval(approved, decidedBy, note, old(runs)[id].resultSha.value, at)]
      ensures r.Err? ==> (r.error == RunNotFound <==> id !in old(runs)) && (r.error == RunNotFound || r.error == ApprovalConflict)
      ensures r.Err? && r.error == ApprovalConflict ==> id in approvals || !Decidable(old(runs)[id])
    {
      hide StateAfter;
      if id !in runs {
        return Err(RunNotFound);
      }
      if id in approvals {
        r := ResolveExisting(approvals[id], approved, decidedBy, note);
        return;
      }
      var run := runs[id];
      if run.status != Succeeded {
        return Err(ApprovalConflict);
      }
      if run.result.None? || !run.result.value.validationPassed || run.resultSha.None? || run.resultSha.value == "" {
        return Err(ApprovalConflict);
      }
      ghost var c := Commit(Approve(id, approved, decidedBy, note, at), runs);
      PerformAll(between);
      if id in approvals {
        Record(c);
        r := ResolveExisting(approvals[id], approved, decidedBy, note);
        return;
      }
      var row := Approval(approved, decidedBy, note, run.resultSha.value, at);
      approvals := approvals[id := row];
      Record(c);
      return Ok(row);
    }

    // ---------------------------------------------------------------- the worker

    /** Claims the oldest queued run, retrying up to ten times when somebody else commits between
        the select and the update (`races[k]` is what they commit in round k). It comes back without a run
        only if nothing is queued, or after ten updates that found their run taken. */
    method ClaimNext(workerId: string, at: int, races: seq<seq<Commit>>) returns (r: Option<RunId>, ghost rounds: nat)
      requires Valid() && |races| == 10
      modifies this
      ensures Valid() && old(log) <= log && old(runs).Keys <= runs.Keys
      ensures r.Some? ==> && |log| > |old(log)| && log[|log| - 1].event == Claim(r.value, workerId, at)
                          && var before := StateAfter(hash, log[..|log| - 1]);
                             r.value in before.runs && before.runs[r.value].status == Queued
      ensures r.Some? ==> r.value in runs && runs[r.value].status == Running && runs[r.value].worker == Some(workerId)
      ensures rounds <= 10 && |log| == |old(log)| + rounds + TotalLength(races, rounds)
      ensures r.None? && rounds < 10 ==> forall id :: id in runs ==> runs[id].status != Queued
      ensures (forall k :: 0 <= k < 10 ==> races[k] == []) ==>
                if exists id :: OldestQueued(old(runs), id) then r.Some? && OldestQueued(old(runs), r.value) && |log| == |old(log)| + 1
                else r.None? && log == old(log)
      ensures (forall k :: 0 <= k < 10 ==> races[k] == []) && r.Some? ==>
                forall id :: id in old(runs) && old(runs)[id].status == Queued ==>
                  || old(runs)[r.value].createdAt < old(runs)[id].createdAt
                  || (old(runs)[r.value].createdAt == old(runs)[id].createdAt && r.value <= id)
    {
      hide StateAfter;
      rounds := 0;
      for attempt := 0 to 10
        invariant Valid() && old(log) <= log && old(runs).Keys <= runs.Keys
        invariant rounds == attempt && |log| == |old(log)| + rounds + TotalLength(races, rounds)
        invariant (forall k :: 0 <= k < 10 ==> races[k] == []) ==> attempt == 0 && log == old(log) && Contents() == old(Contents())
      {
        var selected := SelectOldestQueued();
        if selected.None? {
          return None, rounds;
        }
        PerformAll(races[attempt]);
        ghost var before := log;
        var claimed := ClaimIfQueued(selected.value, workerId, at);
        rounds := rounds + 1;
        if claimed {
          assert log[..|log| - 1] == before;
          return selected, rounds;
        }
      }
      return None, rounds;
    }

    /** What the worker does once the solver is done: commit the result or the classified failure;
        a result that cannot be committed falls into the generic failure handler. `during` is what
        others commit between the read and the commit, `meanwhile` what they commit before the
        handler, and `duringHandler` between its read and its commit.
        With nobody between a read and its commit, the run stays unfinished exactly when it was back
        in the queue and the solver reported infeasibility or a time-out: that report is dropped. */
    method Finish(id: RunId, solved: Solved, ghost workerId: string, at: int, during: seq<Commit>, meanwhile: seq<Commit>, duringHandler: seq<Commit>)
      returns (raised: bool)
      requires Valid() && id in runs
      modifies this
      ensures Valid() && id in runs && old(log) <= log && old(runs).Keys <= runs.Keys
      ensures Dropped(old(runs)[id], solved) ==> raised && log == old(log) && Contents() == old(Contents())
      ensures old(runs)[id].status in {Running, CancelRequested} ==>
                && !raised && Terminal(runs[id].status)
                && log == old(log) + during + [Commit(ReportOf(id, solved, workerId, at), old(runs))]
      ensures during == [] && duringHandler == [] ==> (!Terminal(runs[id].status) <==> Dropped(old(runs)[id], solved))
      ensures !raised ==> Terminal(runs[id].status)
      // in the columns of the row
      ensures during == [] && old(runs)[id].status == Running ==>
                match solved
                case Candidate(p) =>
                  runs == old(runs)[id := old(runs)[id].(status := if p.validationPassed then Succeeded else Degraded,
                    result := Some(p), resultSha := Some(hash(p)), updatedAt := at, completedAt := Some(at), heartbeatAt := Some(at),
                    failureCode := if p.validationPassed then None else Some("deterministic_validation_failed"))]
                case Failure(kind, code) =>
                  runs == old(runs)[id := old(runs)[id].(
                    status := match kind case Infeasibility => Infeasible case TimeLimit => TimedOut case Other => Failed,
                    updatedAt := at, completedAt := Some(at), heartbeatAt := Some(at), failureCode := Some(code))]
      ensures during == [] && old(runs)[id].status == CancelRequested ==>
                runs == old(runs)[id := old(runs)[id].(status := Cancelled, updatedAt := at, completedAt := Some(at), heartbeatAt := Some(at),
                                                       failureCode := Some("operator_cancelled"))]
      ensures old(runs)[id].status == Queued && solved.Failure? && (solved.outcome.Infeasibility? || solved.outcome.TimeLimit?) ==>
                raised && runs == old(runs) && approvals == old(approvals)
      ensures during == [] && meanwhile == [] && duringHandler == [] && old(runs)[id].status == Queued
              && (solved.Candidate? || solved.outcome.Other?) ==>
                !raised && runs == old(runs)[id := old(runs)[id].(status := Failed, updatedAt := at, completedAt := Some(at), heartbeatAt := Some(at),
                  failureCode := if solved.Candidate? then Some("unexpected_worker_error") else Some(solved.code))]
    {
      hide StateAfter;
      var first: Result<Status, RepositoryError>;
      match solved {
        case Candidate(payload) =>
          if payload.validationPassed {
            first := CompleteWithResult(id, payload, Succeeded, None, at, workerId, during);
          } else {
            first := CompleteWithResult(id, payload, Degraded, Some("deterministic_validation_failed"), at, workerId, during);
          }
          if first.Ok? {
            return false;
          }
          PerformAll(meanwhile);
          first := Fail(id, Failed, Some("unexpected_worker_error"), at, duringHandler);
        case Failure(outcome, code) =>
          first := Fail(id, FailureOf(solved), Some(code), at, during);
      }
      return first.Err?;
    }

    /** One round of a worker: sweep, claim, solve while others commit, finish. `solvedAt` is the
        length of the history when the solver is done: with nobody between a read and its commit,
        the claimed run ends unfinished exactly when it is back in the queue then and the solver
        reported infeasibility or a time-out. */
    method ExecuteOne(workerId: string, cutoff: int, at: int, duringSweep: seq<Commit>, races: seq<seq<Commit>>, duringSolve: seq<Commit>,
                      solved: Solved, during: seq<Commit>, meanwhile: seq<Commit>, duringHandler: seq<Commit>)
      returns (claimed: Option<RunId>, raised: bool, ghost solvedAt: nat)
      requires Valid() && |races| == 10
      modifies this
      ensures Valid() && old(log) <= log && solvedAt <= |log|
      ensures claimed.Some? ==> && claimed.value in runs && claimed.value in StateAfter(hash, log[..solvedAt]).runs
                                && (!raised ==> Terminal(runs[claimed.value].status))
      ensures claimed.Some? ==>
                && (Dropped(StateAfter(hash, log[..solvedAt]).runs[claimed.value], solved) ==> raised && solvedAt == |log|)
                && (during == [] && duringHandler == [] ==>
                      (!Terminal(runs[claimed.value].status) <==> Dropped(StateAfter(hash, log[..solvedAt]).runs[claimed.value], solved)))
      // with nobody else at work
      ensures duringSweep == [] && (forall k :: 0 <= k < 10 ==> races[k] == []) ==>
                var swept := Swept(old(runs), cutoff, at);
                && (claimed.Some? ==> OldestQueued(swept, claimed.value))
                && (claimed.None? ==> !raised && runs == swept && forall id :: !OldestQueued(swept, id))
      ensures duringSweep == [] && (forall k :: 0 <= k < 10 ==> races[k] == []) && duringSolve == [] && during == [] && claimed.Some? ==>
                && !raised
                && runs[claimed.value].status == (match solved
                     case Candidate(p) => if p.validationPassed then Succeeded else Degraded
                     case Failure(Infeasibility, _) => Infeasible
                     case Failure(TimeLimit, _) => TimedOut
                     case Failure(Other, _) => Failed)
                && (solved.Candidate? ==> runs[claimed.value].result == Some(solved.payload)
                                          && runs[claimed.value].resultSha == Some(hash(solved.payload)))
    {
      hide StateAfter, Dropped, Terminal, OldestQueued, Before, Stale, RecoverRow, RowStays, ReportOf, FailureOf;
      RecoverStale(cutoff, at, duringSweep);
      ghost var rounds;
      claimed, rounds := ClaimNext(workerId, at, races);
      if claimed.None? {
        return None, false, |log|;
      }
      PerformAll(duringSolve);
      solvedAt := |log|;
      ghost var reached := log;
      raised := Finish(claimed.value, solved, workerId, at, during, meanwhile, duringHandler);
      assert log[..solvedAt] == reached;
    }
  }

  /** How many commits the first `n` lists hold. */
  function TotalLength(lists: seq<seq<Commit>>, n: nat): nat
    requires n <= |lists|
  {
    if n == 0 then 0 else TotalLength(lists, n - 1) + |lists[n - 1]|
  }

  /** The table once a sweep has recovered every stale row of it. */
  function Swept(runs: map<RunId, Run>, cutoff: int, at: int): map<RunId, Run> {
    map id | id in runs :: RecoverRow(runs[id], cutoff, at)
  }

  /** What a sweep makes of the rows it reads, in their columns. */
  lemma SweptByColumns(before: map<RunId, Run>, after: map<RunId, Run>, cutoff: int, at: int)
    requires after == Swept(before, cutoff, at)
    ensures forall id :: id in before ==>
              var r := before[id];
              var beat := if r.heartbeatAt.Some? then r.heartbeatAt.value else r.updatedAt;
              if (r.status != Running && r.status != CancelRequested) || beat >= cutoff then after[id] == r
              else if r.status == Running then
                after[id] == r.(status := Queued, worker := None, heartbeatAt := None, recoveryCount := r.recoveryCount + 1,
                                lastRecoveredAt := Some(at), updatedAt := at)
              else
                after[id] == r.(status := Cancelled, completedAt := Some(at), failureCode := Some("operator_cancelled"), updatedAt := at)
  {
  }

  lemma NobodySilent(runs: map<RunId, Run>, cutoff: int)
    ensures (forall id :: id in runs ==>
               var r := runs[id];
               || (r.status != Running && r.status != CancelRequested)
               || (if r.heartbeatAt.Some? then r.heartbeatAt.value else r.updatedAt) >= cutoff) ==>
              forall id :: id in runs ==> !Stale(runs[id], cutoff)
  {
  }

  /** Rows that are not stale are left alone by a recovery. */
  lemma StaleRows(runs: map<RunId, Run>, stale: set<RunId>, cutoff: int, at: int)
    requires forall id :: id in stale <==> id in runs && Stale(runs[id], cutoff)
    ensures forall id :: id in runs && id !in stale ==> RecoverRow(runs[id], cutoff, at) == runs[id]
  {
  }

  lemma SweepIsApply(hash: Hash, db: Db, c: Commit, stale: set<RunId>, runs: map<RunId, Run>)
    requires c.event.Recover? && c.seen.Keys <= db.runs.Keys
    requires forall id :: id in stale <==> id in c.seen && Stale(c.seen[id], c.event.cutoff)
    requires runs.Keys == db.runs.Keys
    requires forall id :: id in runs ==>
               runs[id] == if id in stale then Written(db.runs[id], c.seen[id], RecoverRow(c.seen[id], c.event.cutoff, c.event.at)) else db.runs[id]
    ensures Apply(hash, db, c) == db.(runs := runs)
  {
    hide Written, Stale;
    StaleRows(c.seen, stale, c.event.cutoff, c.event.at);
    forall id | id in db.runs ensures RowAfter(hash, id, db.runs[id], c) == runs[id] {
      if id in c.seen && id !in stale {
        NothingWritten(db.runs[id], c.seen[id]);
      }
    }
    assert Apply(hash, db, c).runs == runs;
  }

  lemma SweepOfUnchanged(seen: map<RunId, Run>, stale: set<RunId>, cutoff: int, at: int, runs: map<RunId, Run>)
    requires forall id :: id in stale <==> id in seen && Stale(seen[id], cutoff)
    requires runs.Keys == seen.Keys
    requires forall id :: id in runs ==> runs[id] == if id in stale then Written(seen[id], seen[id], RecoverRow(seen[id], cutoff, at)) else seen[id]
    ensures runs == Swept(seen, cutoff, at)
  {
    hide Written, Stale;
    StaleRows(seen, stale, cutoff, at);
    forall id | id in seen {
      WrittenFresh(seen[id], RecoverRow(seen[id], cutoff, at));
    }
  }

  /** How the optimizer call ends: a candidate, or an exception the worker classifies. */
  datatype Solved = Candidate(payload: Payload) | Failure(outcome: FailureKind, code: string)

  datatype FailureKind = Infeasibility | TimeLimit | Other

  function FailureOf(s: Solved): Status {
    match s
    case Failure(Infeasibility, _) => Infeasible
    case Failure(TimeLimit, _) => TimedOut
    case _ => Failed
  }

  /** The report the table has no edge for: the run is back in the queue, and the solver found it
      infeasible or ran out of time. */
  predicate Dropped(r: Run, solved: Solved) {
    r.status == Queued && solved.Failure? && !solved.outcome.Other?
  }

  /** What the worker asks for: a candidate succeeds, or is degraded when its validation did not
      pass; a failure is reported as classified. */
  function ReportOf(id: RunId, solved: Solved, workerId: string, at: int): Event {
    match solved
    case Candidate(payload) =>
      if payload.validationPassed then Complete(id, payload, Succeeded, None, workerId, at)
      else Complete(id, payload, Degraded, Some("deterministic_validation_failed"), workerId, at)
    case Failure(_, code) => Fail(id, FailureOf(solved), Some(code), at)
  }
}

/** How often a run is claimed and given a result, against what its row says. */
module ClaimAccounting {
  import opened Prelude
  import opened RunLifecycle

  predicate ClaimSucceeds(db: Db, c: Commit, id: RunId) {
    c.event.Claim? && c.event.id == id && id in db.runs && db.runs[id].status == Queued
  }

  /** The commit puts the run, as it read it, back into the queue. */
  predicate Recovers(db: Db, c: Commit, id: RunId) {
    c.event.Recover? && id in db.runs && id in c.seen && c.seen[id].status == Running && Stale(c.seen[id], c.event.cutoff)
  }

  /** The commit stores a result that was not there. */
  predicate StoresResult(hash: Hash, db: Db, c: Commit, id: RunId) {
    id in db.runs && RowAfter(hash, id, db.runs[id], c).result != db.runs[id].result
  }

  /** Successful claims of a run in a history. */
  function Claims(hash: Hash, commits: seq<Commit>, id: RunId): nat {
    if commits == [] then 0
    else Claims(hash, commits[..|commits| - 1], id)
         + if ClaimSucceeds(StateAfter(hash, commits[..|commits| - 1]), commits[|commits| - 1], id) then 1 else 0
  }

  /** Results stored for a run in a history. */
  function Results(hash: Hash, commits: seq<Commit>, id: RunId): nat {
    if commits == [] then 0
    else Results(hash, commits[..|commits| - 1], id)
         + if StoresResult(hash, StateAfter(hash, commits[..|commits| - 1]), commits[|commits| - 1], id) then 1 else 0
  }

  /** What the row says about how often it was claimed and how many results it was given. */
  predicate Accounted(r: Run, claims: nat, results: nat) {
    && (r.status == Queued ==> claims == r.recoveryCount)
    && (r.status == Running || r.status == CancelRequested ==> claims == r.recoveryCount + 1)
    && r.recoveryCount <= claims <= r.recoveryCount + 1
    && (r.startedAt.Some? <==> claims >= 1)
    && results == (if r.result.Some? then 1 else 0)
    && (r.result.Some? ==> claims == r.recoveryCount + 1)
  }

  /** A safe update that also keeps the accounts: no result for a run that is back in the queue, and
      a recovery counts exactly the claim it ends. */
  predicate CountedWrite(now: Run, seen: Run, next: Run) {
    next == seen || Terminal(now.status)
    || (&& (now.status == Queued ==> next.result == seen.result)
        && (next.status == Queued ==> now.recoveryCount == if now.status == Queued then seen.recoveryCount + 1 else seen.recoveryCount))
  }

  ghost predicate CountedWrites(hash: Hash, db: Db, c: Commit, id: RunId) {
    ReadsFirst(c.event) && id in db.runs && id in c.seen ==> CountedWrite(db.runs[id], c.seen[id], Intended(hash, id, c.seen[id], c.event))
  }

  /** Every update of this run keeps the accounts. */
  ghost predicate AllCounted(hash: Hash, commits: seq<Commit>, id: RunId) {
    forall k {:trigger commits[k]} :: 0 <= k < |commits| ==> CountedWrites(hash, StateAfter(hash, commits[..k]), commits[k], id)
  }

  ghost predicate AccountedFor(hash: Hash, commits: seq<Commit>, id: RunId) {
    var db := StateAfter(hash, commits);
    if id in db.runs then Accounted(db.runs[id], Claims(hash, commits, id), Results(hash, commits, id))
    else Claims(hash, commits, id) == 0 && Results(hash, commits, id) == 0
  }

  /** The accounts of this run are right at every point. */
  ghost predicate AlwaysAccounted(hash: Hash, commits: seq<Commit>, id: RunId) {
    forall n :: 0 <= n <= |commits| ==> AccountedFor(hash, commits[..n], id)
  }

  /** Exact, for one safe update. */
  lemma UpdateIsCountedIff(hash: Hash, id: RunId, now: Run, seen: Run, e: Event, claims: nat, results: nat)
    requires RowOk(hash, now) && RowOk(hash, seen) && ReadsFirst(e) && Accounted(now, claims, results)
    requires SafeWrite(now, seen, Intended(hash, id, seen, e))
    ensures var w := Written(now, seen, Intended(hash, id, seen, e));
            Accounted(w, claims, results + if w.result != now.result then 1 else 0) <==> CountedWrite(now, seen, Intended(hash, id, seen, e))
  {
  }

  lemma ClaimIsCounted(now: Run, workerId: string, at: int, claims: nat, results: nat)
    requires Accounted(now, claims, results)
    ensures Accounted(ClaimRow(now, workerId, at), claims + (if now.status == Queued then 1 else 0), results)
    ensures ClaimRow(now, workerId, at).result == now.result
  {
  }

  lemma NewRowAccounted(e: Event)
    requires e.Create?
    ensures Accounted(NewRow(e), 0, 0)
  {
  }

  /** Exact, for one safe commit. */
  lemma StepIsCountedIff(hash: Hash, before: seq<Commit>, c: Commit, id: RunId)
    requires RunOk(hash, StateAfter(hash, before), id) && SeenRowOk(hash, c, id) && SafeUpdate(hash, StateAfter(hash, before), c, id)
    requires AccountedFor(hash, before, id)
    ensures AccountedFor(hash, before + [c], id) <==> CountedWrites(hash, StateAfter(hash, before), c, id)
  {
    hide Accounted, RowAfter, CountedWrites, SafeUpdate, RowOk, StateAfter, Apply, Claims, Results;
    var db := StateAfter(hash, before);
    AppendCommit(hash, before, c);
    CountsAppend(hash, before, c, id);
    ApprovalOfApply(hash, db, c, id);
    if id in db.runs {
      RowIsCountedIff(hash, db, c, id, Claims(hash, before, id), Results(hash, before, id));
      RowOfApply(hash, db, c, id);
    } else {
      NoRowNoCount(hash, db, c, id);
      if c.event.Create? {
        NewRowAccounted(c.event);
      }
    }
  }

  lemma NoRowNoCount(hash: Hash, db: Db, c: Commit, id: RunId)
    requires id !in db.runs
    ensures CountedWrites(hash, db, c, id)
  {
  }

  lemma RowIsCountedIff(hash: Hash, db: Db, c: Commit, id: RunId, claims: nat, results: nat)
    requires id in db.runs && RowOk(hash, db.runs[id]) && SeenRowOk(hash, c, id) && SafeUpdate(hash, db, c, id)
    requires Accounted(db.runs[id], claims, results)
    ensures Accounted(RowAfter(hash, id, db.runs[id], c), claims + (if ClaimSucceeds(db, c, id) then 1 else 0),
                      results + (if StoresResult(hash, db, c, id) then 1 else 0))
       <==> CountedWrites(hash, db, c, id)
  {
    hide Accounted, Written, Intended, SafeWrite, CountedWrite, RowOk;
    var now := db.runs[id];
    if c.event.Claim? && c.event.id == id {
      ClaimIsCounted(now, c.event.workerId, c.event.at, claims, results);
    } else if ReadsFirst(c.event) && id in c.seen {
      UpdateIsCountedIff(hash, id, now, c.seen[id], c.event, claims, results);
    }
  }

  lemma CountsAppend(hash: Hash, before: seq<Commit>, c: Commit, id: RunId)
    ensures Claims(hash, before + [c], id) == Claims(hash, before, id) + if ClaimSucceeds(StateAfter(hash, before), c, id) then 1 else 0
    ensures Results(hash, before + [c], id) == Results(hash, before, id) + if StoresResult(hash, StateAfter(hash, before), c, id) then 1 else 0
  {
    assert (before + [c])[..|before|] == before;
  }

  lemma CountedByParts(hash: Hash, commits: seq<Commit>, id: RunId)
    requires commits != []
    ensures var before := commits[..|commits| - 1];
            && (AllCounted(hash, commits, id) <==> AllCounted(hash, before, id) && CountedWrites(hash, StateAfter(hash, before), commits[|commits| - 1], id))
            && (AlwaysAccounted(hash, commits, id) <==> AlwaysAccounted(hash, before, id) && AccountedFor(hash, commits, id))
  {
    hide CountedWrites, AccountedFor, StateAfter;
    var before := commits[..|commits| - 1];
    assert forall k :: 0 <= k <= |before| ==> before[..k] == commits[..k];
    assert forall k :: 0 <= k < |before| ==> before[k] == commits[k];
    assert commits[..|commits|] == commits;
    if AlwaysAccounted(hash, before, id) && AccountedFor(hash, commits, id) {
      forall n | 0 <= n <= |commits| ensures AccountedFor(hash, commits[..n], id) {
        if n <= |before| {
          assert AccountedFor(hash, before[..n], id);
        }
      }
    }
  }

  /** Exact, for histories: claims of a run are its recovery count while it is queued and one more
      while it is running, and at most one result is ever stored, at every point of a history whose
      updates of that run are safe, if and only if every one of them keeps the accounts. */
  lemma {:induction false} AccountedIffCounted(hash: Hash, commits: seq<Commit>, id: RunId)
    requires ReadsPast(hash, commits) && AllSafeFor(hash, commits, id)
    ensures AlwaysAccounted(hash, commits, id) <==> AllCounted(hash, commits, id)
  {
    hide RunOk, SafeUpdate, SeenRowOk, SafeInsertFor, CountedWrites, AllSafeFor, SoundFor, AllCounted, AlwaysAccounted, AccountedFor, StateAfter, SeenAt;
    if commits == [] {
      NothingToAccount(hash, id);
    } else {
      var before, c := commits[..|commits| - 1], commits[|commits| - 1];
      ReadsPastPrefix(hash, commits, |commits| - 1);
      SafeForByParts(hash, commits, id);
      AccountedIffCounted(hash, before, id);
      CountedByParts(hash, commits, id);
      RunIsSoundIff(hash, before, id);
      LastRunOk(hash, before, id);
      assert ReadBefore(hash, commits[..|commits| - 1], commits[|commits| - 1]);
      var r :| SeenAt(hash, before, c.seen, r);
      PastIsOk(hash, before, c, r, id);
      if AlwaysAccounted(hash, before, id) {
        LastAccounts(hash, before, id);
        StepIsCountedIff(hash, before, c, id);
        assert before + [c] == commits;
      }
    }
  }

  lemma NothingToAccount(hash: Hash, id: RunId)
    ensures AlwaysAccounted(hash, [], id) && AllCounted(hash, [], id)
  {
  }

  lemma LastAccounts(hash: Hash, commits: seq<Commit>, id: RunId)
    requires AlwaysAccounted(hash, commits, id)
    ensures AccountedFor(hash, commits, id)
  {
    assert commits[..|commits|] == commits;
  }

  /** Updates of unchanged rows keep the accounts. */
  lemma UnchangedIsCounted(hash: Hash, db: Db, c: Commit, id: RunId)
    requires Unchanged(hash, db, c)
    ensures CountedWrites(hash, db, c, id)
  {
  }

  // ---------------------------------------------------------------- in every history, safe or not

  /** A run's recovery count changes only by a commit that recovers the run. */
  lemma CountMovesByRecovery(hash: Hash, db: Db, c: Commit, id: RunId)
    requires id in db.runs && Apply(hash, db, c).runs[id].recoveryCount != db.runs[id].recoveryCount
    ensures Recovers(db, c, id)
  {
    hide Apply;
    RowOfApply(hash, db, c, id);
  }

  /** A run comes back to the queue only by a commit that recovers it. */
  lemma OnlyRecoveryRequeues(hash: Hash, id: RunId, now: Run, c: Commit)
    requires now.status != Queued && RowAfter(hash, id, now, c).status == Queued
    ensures c.event.Recover? && id in c.seen && c.seen[id].status == Running && Stale(c.seen[id], c.event.cutoff)
  {
  }

  /** Some recovery of the run lies in [start, stop) when it is out of the queue at the start and in it
      at the end. */
  lemma {:induction false} RecoveryInBetween(hash: Hash, commits: seq<Commit>, start: nat, stop: nat, id: RunId) returns (k: nat)
    requires start <= stop <= |commits|
    requires var db := StateAfter(hash, commits[..start]); id in db.runs && db.runs[id].status != Queued
    requires var db := StateAfter(hash, commits[..stop]); id in db.runs && db.runs[id].status == Queued
    ensures start <= k < stop && Recovers(StateAfter(hash, commits[..k]), commits[k], id)
    decreases stop
  {
    hide StateAfter, Apply, RowAfter;
    if start < stop {
      var db := StateAfter(hash, commits[..stop - 1]);
      assert commits[..stop] == commits[..stop - 1] + [commits[stop - 1]];
      AppendCommit(hash, commits[..stop - 1], commits[stop - 1]);
      assert commits[..stop - 1][..start] == commits[..start];
      RunsStay(hash, commits[..stop - 1], start);
      if db.runs[id].status == Queued {
        k := RecoveryInBetween(hash, commits, start, stop - 1, id);
      } else {
        RowOfApply(hash, db, commits[stop - 1], id);
        OnlyRecoveryRequeues(hash, id, db.runs[id], commits[stop - 1]);
        k := stop - 1;
      }
    }
  }

  /** Two successful claims of one run are separated by a recovery of that run, in every history. */
  lemma ClaimsAreSeparatedByRecovery(hash: Hash, commits: seq<Commit>, i: nat, j: nat, id: RunId) returns (k: nat)
    requires i < j < |commits|
    requires ClaimSucceeds(StateAfter(hash, commits[..i]), commits[i], id)
    requires ClaimSucceeds(StateAfter(hash, commits[..j]), commits[j], id)
    ensures i < k < j && Recovers(StateAfter(hash, commits[..k]), commits[k], id)
  {
    hide RowAfter, Apply, Recovers, StateAfter;
    assert commits[..i + 1] == commits[..i] + [commits[i]];
    AfterTheClaim(hash, commits[..i], commits[i], id);
    k := RecoveryInBetween(hash, commits, i + 1, j, id);
  }

  lemma AfterTheClaim(hash: Hash, commits: seq<Commit>, c: Commit, id: RunId)
    requires ClaimSucceeds(StateAfter(hash, commits), c, id)
    ensures var db := StateAfter(hash, commits + [c]);
            id in db.runs && db.runs[id].status == Running && db.runs[id].worker == Some(c.event.workerId)
  {
    AppendCommit(hash, commits, c);
  }

  // ---------------------------------------------------------------- the worker a row names

  /** The worker's claim at `i` succeeded, and no recovery of the run was committed since. */
  ghost predicate HoldsSince(hash: Hash, commits: seq<Commit>, i: nat, id: RunId, workerId: string) {
    && i < |commits| && ClaimSucceeds(StateAfter(hash, commits[..i]), commits[i], id) && commits[i].event.workerId == workerId
    && forall k :: i < k < |commits| ==> !Recovers(StateAfter(hash, commits[..k]), commits[k], id)
  }

  lemma WorkerAfter(hash: Hash, db: Db, c: Commit, id: RunId)
    requires id in db.runs && (id in c.seen && c.seen[id].status == Running ==> c.seen[id].worker.Some?)
    ensures var r := RowAfter(hash, id, db.runs[id], c);
            && r.worker == (if ClaimSucceeds(db, c, id) then Some(c.event.workerId) else if Recovers(db, c, id) then None else db.runs[id].worker)
            && (r.status == Running ==> ClaimSucceeds(db, c, id) || (db.runs[id].status == Running && !Recovers(db, c, id)))
  {
  }

  lemma {:induction false} RunningIsNamed(hash: Hash, commits: seq<Commit>, id: RunId)
    requires ReadsPast(hash, commits) && id in StateAfter(hash, commits).runs
    ensures StateAfter(hash, commits).runs[id].status == Running ==> StateAfter(hash, commits).runs[id].worker.Some?
    decreases |commits|
  {
    hide RowAfter, Apply, ReadsPast, Recovers, ClaimSucceeds;
    var before, c := commits[..|commits| - 1], commits[|commits| - 1];
    var db := StateAfter(hash, before);
    ReadsPastPrefix(hash, commits, |commits| - 1);
    ApprovalOfApply(hash, db, c, id);
    if id in db.runs {
      RunningIsNamed(hash, before, id);
      SeenIsNamed(hash, commits, id);
      RowOfApply(hash, db, c, id);
      WorkerAfter(hash, db, c, id);
    }
  }

  lemma SeenIsNamed(hash: Hash, commits: seq<Commit>, id: RunId)
    requires ReadsPast(hash, commits) && commits != []
    ensures var c := commits[|commits| - 1];
            id in c.seen && c.seen[id].status == Running ==> c.seen[id].worker.Some?
    decreases |commits|, 0
  {
    hide ReadsPast, StateAfter;
    var before := commits[..|commits| - 1];
    var r := LastRead(hash, commits);
    if id in commits[|commits| - 1].seen {
      ReadsPastPrefix(hash, commits, |commits| - 1);
      ReadsPastPrefix(hash, before, r);
      RunningIsNamed(hash, before[..r], id);
    }
  }

  /** Exact, in every history: the row names a worker if and only if that worker claimed the run and
      no recovery of it was committed since. */
  lemma {:induction false} RowNamesIff(hash: Hash, commits: seq<Commit>, id: RunId, workerId: string)
    requires ReadsPast(hash, commits) && id in StateAfter(hash, commits).runs
    ensures StateAfter(hash, commits).runs[id].worker == Some(workerId) <==> exists i :: HoldsSince(hash, commits, i, id, workerId)
  {
    hide RowAfter, Apply, ReadsPast, Recovers, ClaimSucceeds, HoldsSince;
    var before, c := commits[..|commits| - 1], commits[|commits| - 1];
    var db := StateAfter(hash, before);
    ReadsPastPrefix(hash, commits, |commits| - 1);
    ApprovalOfApply(hash, db, c, id);
    HoldsStep(hash, commits, id, workerId);
    if id in db.runs {
      RowNamesIff(hash, before, id, workerId);
      SeenIsNamed(hash, commits, id);
      RowOfApply(hash, db, c, id);
      WorkerAfter(hash, db, c, id);
    } else {
      NothingHeld(hash, commits, id, workerId);
    }
  }

  /** Whoever holds a run after a commit has just claimed it, or held it before and was not recovered. */
  lemma HoldsStep(hash: Hash, commits: seq<Commit>, id: RunId, workerId: string)
    requires commits != []
    ensures var before, c := commits[..|commits| - 1], commits[|commits| - 1];
            (exists i :: HoldsSince(hash, commits, i, id, workerId)) <==>
              if ClaimSucceeds(StateAfter(hash, before), c, id) then c.event.workerId == workerId
              else (exists i :: HoldsSince(hash, before, i, id, workerId)) && !Recovers(StateAfter(hash, before), c, id)
  {
    hide StateAfter, Recovers;
    var before, last := commits[..|commits| - 1], |commits| - 1;
    assert forall k :: 0 <= k < last ==> before[..k] == commits[..k] && before[k] == commits[k];
    if i: nat :| HoldsSince(hash, commits, i, id, workerId) {
      if i < last {
        assert HoldsSince(hash, before, i, id, workerId);
        if ClaimSucceeds(StateAfter(hash, commits[..last]), commits[last], id) {
          var k := ClaimsAreSeparatedByRecovery(hash, commits, i, last, id);
          assert false;
        }
      }
    }
    if !Recovers(StateAfter(hash, before), commits[last], id) {
      if i: nat :| HoldsSince(hash, before, i, id, workerId) {
        assert HoldsSince(hash, commits, i, id, workerId);
      }
    }
    if ClaimSucceeds(StateAfter(hash, before), commits[last], id) && commits[last].event.workerId == workerId {
      assert HoldsSince(hash, commits, last, id, workerId);
    }
  }

  /** A run that was not there before the last commit has no holder. */
  lemma NothingHeld(hash: Hash, commits: seq<Commit>, id: RunId, workerId: string)
    requires commits != [] && id !in StateAfter(hash, commits[..|commits| - 1]).runs
    ensures !exists i :: HoldsSince(hash, commits, i, id, workerId)
  {
    hide StateAfter, Recovers;
    var before := commits[..|commits| - 1];
    forall i: nat ensures !HoldsSince(hash, commits, i, id, workerId) {
      if HoldsSince(hash, commits, i, id, workerId) {
        assert before[..i] == commits[..i];
        RunsStay(hash, before, i);
      }
    }
  }
}

/** Operational notices: a replanning candidate is bound to the approved baseline it starts from.
    The candidate run is committed before its notice, so other parties can act in between. */
module NoticeRepository {
  import opened Prelude
  import opened RunLifecycle
  import opened RunRepository

  datatype Notice = Notice(baseline: RunId, scenario: string, createdBy: string, createdAt: int)

  datatype NoticeError = BaselineNotFound | NoticeConflict | Submission(reason: RepositoryError)

  /** A run that may serve as a baseline: succeeded, with a result whose hash an operator approved. */
  predicate ApprovedBaseline(db: Db, id: RunId) {
    && id in db.runs && db.runs[id].status == Succeeded && db.runs[id].result.Some? && db.runs[id].resultSha.Some?
    && id in db.approvals && db.approvals[id].approved && db.runs[id].resultSha == Some(db.approvals[id].resultSha)
  }

  ghost predicate NoticeOk(db: Db, candidate: RunId, n: Notice) {
    && ApprovedBaseline(db, n.baseline)
    && candidate in db.runs
    && db.runs[candidate].inputReference == db.runs[n.baseline].inputReference
    && db.runs[candidate].inputSha == db.runs[n.baseline].inputSha
  }

  lemma BaselineStaysApproved(a: Db, b: Db, id: RunId)
    requires RunEvolves(a, b, id) && ApprovedBaseline(a, id)
    ensures ApprovedBaseline(b, id) && b.runs[id] == a.runs[id]
  {
  }

  /** The baseline's run was in order, and everything committed since landed safely on it. */
  ghost predicate SafeSince(hash: Hash, history: seq<Commit>, now: seq<Commit>, id: RunId) {
    history <= now && RunOk(hash, StateAfter(hash, history), id) && SafeAfterFor(hash, history, now[|history|..], id)
  }

  /** What a candidate was submitted with never changes, so its notice stands while the baseline does. */
  lemma NoticeStaysOk(hash: Hash, history: seq<Commit>, now: seq<Commit>, candidate: RunId, n: Notice)
    requires NoticeOk(StateAfter(hash, history), candidate, n) && SafeSince(hash, history, now, n.baseline)
    ensures NoticeOk(StateAfter(hash, now), candidate, n)
  {
    hide StateAfter, RunOk, SafeAfterFor, RunEvolves, ApprovedBaseline;
    assert history + now[|history|..] == now && now[..|history|] == history;
    SafeCommitsKeepRun(hash, history, now[|history|..], n.baseline);
    BaselineStaysApproved(StateAfter(hash, history), StateAfter(hash, now), n.baseline);
    RunsStay(hash, now, |history|);
    BaselineIsThere(StateAfter(hash, history), n.baseline);
    BaselineIsThere(StateAfter(hash, now), n.baseline);
  }

  lemma BaselineIsThere(db: Db, id: RunId)
    requires ApprovedBaseline(db, id)
    ensures id in db.runs
  {
  }

  class Notices {
    const store: Store
    /** The table, unique per candidate run. */
    var rows: map<RunId, Notice>

    ghost predicate Valid()
      reads this, store
    {
      store.Valid()
    }

    constructor (store: Store)
      requires store.Valid()
      ensures Valid() && rows == map[] && this.store == store
    {
      this.store := store;
      rows := map[];
    }

    /** Other parties' commits never invalidate a notice, if they are safe for its baseline. */
    method Others(commits: seq<Commit>)
      requires Valid()
      modifies store
      ensures Valid() && store.log == old(store.log) + commits
      ensures forall c :: c in rows && NoticeOk(old(store.Contents()), c, rows[c]) && SafeSince(store.hash, old(store.log), store.log, rows[c].baseline) ==>
                NoticeOk(store.Contents(), c, rows[c])
    {
      hide SafeSince, StateAfter, NoticeOk;
      store.PerformAll(commits);
      NoticesStayOk(store.hash, old(store.log), store.log, rows);
    }

    /** Only an approved run becomes a baseline, a returned notice is the one on record for its
        candidate, and repeating a submission returns the notice it made. `between` is what others
        commit while the candidate is submitted, `meanwhile` before its notice is. */
    method CreateSimulated(baseline: RunId, scenario: string, createdBy: string, submission: Event, at: int,
                           between: seq<Commit>, meanwhile: seq<Commit>)
      returns (r: Result<(RunId, Notice), NoticeError>)
      requires Valid() && submission.Create?
      requires baseline in store.runs ==> submission.inputReference == store.runs[baseline].inputReference
                                          && submission.inputSha == store.runs[baseline].inputSha
      modifies this, store
      ensures Valid() && old(store.log) <= store.log
      ensures r.Ok? ==> && r.value.0 in rows && rows[r.value.0] == r.value.1
                        && r.value.1.baseline == baseline && r.value.1.scenario == scenario
                        && ApprovedBaseline(old(store.Contents()), baseline)
                        && r.value.0 in store.runs && store.runs[r.value.0].fingerprint == submission.fingerprint
                        && (submission.key.Some? ==> store.runs[r.value.0].key == submission.key)
      ensures r.Ok? && r.value.0 !in old(rows) ==> r.value.1 == Notice(baseline, scenario, createdBy, at) && r.value.0 == submission.id
      ensures !ApprovedBaseline(old(store.Contents()), baseline) ==> r.Err? && rows == old(rows) && store.log == old(store.log)
      // in the columns of the rows
      ensures r.Ok? && r.value.0 !in old(rows) ==>
                && store.runs[r.value.0].inputReference == old(store.runs)[baseline].inputReference
                && store.runs[r.value.0].inputSha == old(store.runs)[baseline].inputSha
      ensures baseline !in old(store.runs) ==> r == Err(BaselineNotFound)
      ensures baseline in old(store.runs)
              && (|| old(store.runs)[baseline].status != Succeeded || old(store.runs)[baseline].result.None? || old(store.runs)[baseline].resultSha.None?
                  || baseline !in old(store.approvals) || !old(store.approvals)[baseline].approved
                  || old(store.approvals)[baseline].resultSha != old(store.runs)[baseline].resultSha.value) ==>
                r == Err(NoticeConflict) && rows == old(rows) && store.runs == old(store.runs) && store.approvals == old(store.approvals)
      ensures between == [] && meanwhile == [] && ApprovedBaseline(old(store.Contents()), baseline)
              && submission.id !in old(store.runs) && submission.id !in old(rows)
              && (submission.key.None? || forall id :: id in old(store.runs) ==> old(store.runs)[id].key != submission.key) ==>
                && r == Ok((submission.id, Notice(baseline, scenario, createdBy, at)))
                && rows == old(rows)[submission.id := Notice(baseline, scenario, createdBy, at)]
      ensures r.Err? ==> rows == old(rows)
      ensures forall c :: c in old(rows) ==> c in rows && rows[c] == old(rows)[c]
      ensures forall c :: ApprovedBaseline(old(store.Contents()), baseline) && Answers(old(store.Contents()), old(rows), c, submission, baseline, scenario) ==>
                r == Ok((c, old(rows)[c])) && rows == old(rows) && store.log == old(store.log)
      ensures forall c :: c in rows && (c in old(rows) ==> NoticeOk(old(store.Contents()), c, rows[c]))
                          && SafeSince(store.hash, old(store.log), store.log, rows[c].baseline) ==>
                NoticeOk(store.Contents(), c, rows[c])
    {
      hide StateAfter, SafeSince, NoticeOk, Apply;
      KeysStayUnique(store.hash, store.log);
      if baseline !in store.runs {
        return Err(BaselineNotFound);
      }
      var run := store.runs[baseline];
      if run.status != Succeeded || run.result.None? || run.resultSha.None? || baseline !in store.approvals
         || !store.approvals[baseline].approved || store.approvals[baseline].resultSha != run.resultSha.value {
        return Err(NoticeConflict);
      }
      var submitted := store.Create(submission, between);
      NoticesStayOk(store.hash, old(store.log), store.log, rows);
      if submitted.Err? {
        return Err(Submission(submitted.error));
      }
      var (candidate, created) := submitted.value;
      if candidate in rows {
        var existing := rows[candidate];
        if existing.baseline != baseline || existing.scenario != scenario {
          return Err(NoticeConflict);
        }
        return Ok((candidate, existing));
      }
      if !created {
        return Err(NoticeConflict);
      }
      store.PerformAll(meanwhile);
      var row := Notice(baseline, scenario, createdBy, at);
      NoticesStayOk(store.hash, old(store.log), store.log, rows);
      NewNoticeOk(store.hash, old(store.log), store.log, candidate, row);
      rows := rows[candidate := row];
      return Ok((candidate, row));
    }
  }

  /** The notice on record for a submission made before. */
  ghost predicate Answers(db: Db, rows: map<RunId, Notice>, c: RunId, submission: Event, baseline: RunId, scenario: string)
    requires submission.Create?
  {
    && c in db.runs && c in rows && submission.key.Some? && db.runs[c].key == submission.key
    && db.runs[c].fingerprint == submission.fingerprint && rows[c].baseline == baseline && rows[c].scenario == scenario
  }

  lemma NoticesStayOk(hash: Hash, history: seq<Commit>, now: seq<Commit>, rows: map<RunId, Notice>)
    ensures forall c :: c in rows && NoticeOk(StateAfter(hash, history), c, rows[c]) && SafeSince(hash, history, now, rows[c].baseline) ==>
              NoticeOk(StateAfter(hash, now), c, rows[c])
  {
    hide SafeSince, StateAfter, NoticeOk;
    forall c | c in rows && NoticeOk(StateAfter(hash, history), c, rows[c]) && SafeSince(hash, history, now, rows[c].baseline)
      ensures NoticeOk(StateAfter(hash, now), c, rows[c])
    {
      NoticeStaysOk(hash, history, now, c, rows[c]);
    }
  }

  /** A new candidate with the baseline's input binds to it. */
  lemma NewNoticeOk(hash: Hash, history: seq<Commit>, now: seq<Commit>, candidate: RunId, n: Notice)
    requires history <= now && ApprovedBaseline(StateAfter(hash, history), n.baseline)
    requires var db, base := StateAfter(hash, now), StateAfter(hash, history).runs[n.baseline];
             candidate in db.runs && db.runs[candidate].inputReference == base.inputReference && db.runs[candidate].inputSha == base.inputSha
    ensures SafeSince(hash, history, now, n.baseline) ==> NoticeOk(StateAfter(hash, now), candidate, n)
  {
    hide StateAfter, RunOk, SafeAfterFor, RunEvolves, ApprovedBaseline;
    if SafeSince(hash, history, now, n.baseline) {
      assert history + now[|history|..] == now;
      SafeCommitsKeepRun(hash, history, now[|history|..], n.baseline);
      BaselineStaysApproved(StateAfter(hash, history), StateAfter(hash, now), n.baseline);
      BaselineIsThere(StateAfter(hash, now), n.baseline);
    }
  }
}

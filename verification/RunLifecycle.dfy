/** The durable runs and approvals as a transition system: one step per commit, over all
    interleavings of API calls, workers and recovery sweeps. A call reads its rows at one point of
    the history and commits at a later one; nothing re-tests the rows in between, except that a
    claim tests the status in its update and the tables have unique keys. */
module RunLifecycle {
  import opened Prelude

  datatype Status =
    | Queued | Running | CancelRequested
    | Succeeded | Failed | Infeasible | TimedOut | Cancelled | Degraded

  predicate Terminal(s: Status) {
    s in {Succeeded, Failed, Infeasible, TimedOut, Cancelled, Degraded}
  }

  /** The repository's table of allowed transitions. */
  predicate Allowed(from: Status, to: Status) {
    match from
    case Queued => to in {Running, Cancelled, Failed}
    case Running => to in {Succeeded, Failed, Infeasible, TimedOut, CancelRequested, Degraded}
    case CancelRequested => to in {Cancelled, Succeeded, Failed}
    case _ => false
  }

  predicate WorkerFailure(s: Status) {
    s in {Failed, Infeasible, TimedOut, Degraded}
  }

  type RunId = nat
  type Digest = string

  /** A result document: the parts the control path reads, and the rest. */
  datatype Payload = Payload(validationPassed: bool, buy: Option<seq<real>>, sell: Option<seq<real>>, rest: string)

  datatype Run = Run(
    key: Option<string>,
    fingerprint: string,
    inputReference: string,
    inputSha: string,
    createdAt: int,
    updatedAt: int,
    status: Status,
    startedAt: Option<int>,
    completedAt: Option<int>,
    heartbeatAt: Option<int>,
    worker: Option<string>,
    recoveryCount: nat,
    lastRecoveredAt: Option<int>,
    result: Option<Payload>,
    resultSha: Option<Digest>,
    failureCode: Option<string>)

  datatype Approval = Approval(approved: bool, decidedBy: string, note: Option<string>, resultSha: Digest, createdAt: int)

  datatype Db = Db(runs: map<RunId, Run>, approvals: map<RunId, Approval>)

  const EMPTY := Db(map[], map[])

  /** What a call is for. `Claim` is the conditional update, after an earlier select proposed the run.
      `Complete` says which worker calls it, which the repository never learns. */
  datatype Event =
    | Create(id: RunId, key: Option<string>, fingerprint: string, inputReference: string, inputSha: string, at: int)
    | Claim(id: RunId, workerId: string, at: int)
    | Complete(id: RunId, payload: Payload, outcome: Status, code: Option<string>, worker: string, at: int)
    | Fail(id: RunId, outcome: Status, code: Option<string>, at: int)
    | Recover(cutoff: int, at: int)
    | RequestCancellation(id: RunId, at: int)
    | Approve(id: RunId, approved: bool, decidedBy: string, note: Option<string>, at: int)

  type Hash = Payload -> Digest

  // ---------------------------------------------------------------- what each event does to a row

  function NewRow(e: Event): Run
    requires e.Create?
  {
    Run(e.key, e.fingerprint, e.inputReference, e.inputSha, e.at, e.at, Queued, None, None, None, None, 0, None, None, None, None)
  }

  function ClaimRow(r: Run, workerId: string, at: int): Run {
    if r.status == Queued
    then r.(status := Running, worker := Some(workerId), startedAt := Some(r.startedAt.GetOr(at)), heartbeatAt := Some(at), updatedAt := at)
    else r
  }

  function CancelledRow(r: Run, at: int): Run {
    r.(status := Cancelled, updatedAt := at, completedAt := Some(at), heartbeatAt := Some(at), failureCode := Some("operator_cancelled"))
  }

  function CompleteRow(hash: Hash, r: Run, payload: Payload, outcome: Status, code: Option<string>, at: int): Run {
    if r.status == CancelRequested then CancelledRow(r, at)
    else if r.status == Running
    then r.(result := Some(payload), resultSha := Some(hash(payload)), status := outcome, updatedAt := at,
            completedAt := Some(at), heartbeatAt := Some(at), failureCode := code)
    else r
  }

  function TransitionRow(r: Run, target: Status, code: Option<string>, at: int): Run {
    if r.status == target || !Allowed(r.status, target) then r
    else r.(status := target, updatedAt := at,
            completedAt := if Terminal(target) then Some(at) else r.completedAt,
            heartbeatAt := if Terminal(target) then Some(at) else r.heartbeatAt,
            failureCode := code)
  }

  function FailRow(r: Run, outcome: Status, code: Option<string>, at: int): Run {
    if !WorkerFailure(outcome) then r
    else if r.status == CancelRequested then TransitionRow(r, Cancelled, Some("operator_cancelled"), at)
    else TransitionRow(r, outcome, code, at)
  }

  predicate Stale(r: Run, cutoff: int) {
    r.status in {Running, CancelRequested} && r.heartbeatAt.GetOr(r.updatedAt) < cutoff
  }

  function RecoverRow(r: Run, cutoff: int, at: int): Run {
    if !Stale(r, cutoff) then r
    else if r.status == CancelRequested
    then r.(status := Cancelled, completedAt := Some(at), failureCode := Some("operator_cancelled"), updatedAt := at)
    else r.(status := Queued, worker := None, heartbeatAt := None, recoveryCount := r.recoveryCount + 1,
            lastRecoveredAt := Some(at), updatedAt := at)
  }

  function CancelRow(r: Run, at: int): Run {
    if r.status == Cancelled || r.status == CancelRequested then r
    else TransitionRow(r, if r.status == Queued then Cancelled else CancelRequested, None, at)
  }

  /** What a call that reads the row as `r` means to make of it. */
  function Intended(hash: Hash, id: RunId, r: Run, e: Event): Run {
    match e
    case Recover(cutoff, at) => RecoverRow(r, cutoff, at)
    case Complete(i, p, s, c, _, at) => if i == id && s in {Succeeded, Degraded} then CompleteRow(hash, r, p, s, c, at) else r
    case Fail(i, s, c, at) => if i == id then FailRow(r, s, c, at) else r
    case RequestCancellation(i, at) => if i == id then CancelRow(r, at) else r
    case _ => r
  }

  /** A run with this idempotency key. */
  predicate KeyTaken(db: Db, key: Option<string>) {
    key.Some? && exists id :: id in db.runs && db.runs[id].key == key
  }

  /** Only a succeeded run with passing validation and a stored hash may be decided on. */
  predicate Decidable(r: Run) {
    && r.status == Succeeded
    && r.result.Some? && r.result.value.validationPassed
    && r.resultSha.Some? && r.resultSha.value != ""
  }

  // ---------------------------------------------------------------- commits, with the rows they read

  /** A commit of a call that read `seen` earlier. Every call but the claim computes its changes
      from the rows it read; a claim tests the status inside its update. */
  datatype Commit = Commit(event: Event, seen: map<RunId, Run>)

  /** A column is written only when the call changed it. */
  function Column<T(==)>(now: T, seen: T, next: T): T {
    if next == seen then now else next
  }

  /** An update by primary key: the changed columns replace whatever the row holds now. */
  function Written(now: Run, seen: Run, next: Run): Run {
    Run(Column(now.key, seen.key, next.key),
        Column(now.fingerprint, seen.fingerprint, next.fingerprint),
        Column(now.inputReference, seen.inputReference, next.inputReference),
        Column(now.inputSha, seen.inputSha, next.inputSha),
        Column(now.createdAt, seen.createdAt, next.createdAt),
        Column(now.updatedAt, seen.updatedAt, next.updatedAt),
        Column(now.status, seen.status, next.status),
        Column(now.startedAt, seen.startedAt, next.startedAt),
        Column(now.completedAt, seen.completedAt, next.completedAt),
        Column(now.heartbeatAt, seen.heartbeatAt, next.heartbeatAt),
        Column(now.worker, seen.worker, next.worker),
        Column(now.recoveryCount, seen.recoveryCount, next.recoveryCount),
        Column(now.lastRecoveredAt, seen.lastRecoveredAt, next.lastRecoveredAt),
        Column(now.result, seen.result, next.result),
        Column(now.resultSha, seen.resultSha, next.resultSha),
        Column(now.failureCode, seen.failureCode, next.failureCode))
  }

  /** Calls that read a row, test it, and update it later. */
  predicate ReadsFirst(e: Event) {
    e.Complete? || e.Fail? || e.Recover? || e.RequestCancellation?
  }

  /** A commit's effect on one row. */
  function RowAfter(hash: Hash, id: RunId, now: Run, c: Commit): Run {
    if c.event.Claim? && c.event.id == id then ClaimRow(now, c.event.workerId, c.event.at)
    else if ReadsFirst(c.event) && id in c.seen then Written(now, c.seen[id], Intended(hash, id, c.seen[id], c.event))
    else now
  }

  /** An approval is inserted for a run that was decidable when read; the table is unique per run. */
  predicate Inserts(db: Db, c: Commit) {
    && c.event.Approve? && c.event.id in c.seen && c.event.id in db.runs
    && c.event.id !in db.approvals && Decidable(c.seen[c.event.id])
  }

  function Apply(hash: Hash, db: Db, c: Commit): Db {
    match c.event
    case Create(id, key, _, _, _, _) =>
      if id in db.runs || KeyTaken(db, key) then db else db.(runs := db.runs[id := NewRow(c.event)])
    case Approve(id, approved, decidedBy, note, at) =>
      if !Inserts(db, c) then db
      else db.(approvals := db.approvals[id := Approval(approved, decidedBy, note, c.seen[id].resultSha.value, at)])
    case _ =>
      db.(runs := map id | id in db.runs :: RowAfter(hash, id, db.runs[id], c))
  }

  function StateAfter(hash: Hash, commits: seq<Commit>): Db {
    if commits == [] then EMPTY
    else Apply(hash, StateAfter(hash, commits[..|commits| - 1]), commits[|commits| - 1])
  }

  lemma AppendCommit(hash: Hash, commits: seq<Commit>, c: Commit)
    ensures StateAfter(hash, commits + [c]) == Apply(hash, StateAfter(hash, commits), c)
  {
    assert (commits + [c])[..|commits|] == commits;
  }

  /** These rows are the ones the history had after its first `r` commits. */
  ghost predicate SeenAt(hash: Hash, commits: seq<Commit>, seen: map<RunId, Run>, r: nat) {
    r <= |commits| && seen == StateAfter(hash, commits[..r]).runs
  }

  /** The commit read its rows at some point of the history before it. */
  ghost predicate ReadBefore(hash: Hash, before: seq<Commit>, c: Commit) {
    exists r :: SeenAt(hash, before, c.seen, r)
  }

  /** Histories that can happen: every commit read its rows at some earlier point. */
  ghost predicate ReadsPast(hash: Hash, commits: seq<Commit>) {
    forall k {:trigger commits[k]} :: 0 <= k < |commits| ==> ReadBefore(hash, commits[..k], commits[k])
  }

  lemma ReadsPastPrefix(hash: Hash, commits: seq<Commit>, n: nat)
    requires ReadsPast(hash, commits) && n <= |commits|
    ensures ReadsPast(hash, commits[..n])
  {
    hide ReadBefore;
    forall k | 0 <= k < n ensures ReadBefore(hash, commits[..n][..k], commits[..n][k]) {
      assert commits[..n][..k] == commits[..k] && commits[..n][k] == commits[k];
    }
  }

  lemma ReadsPastAppend(hash: Hash, commits: seq<Commit>, c: Commit)
    requires ReadsPast(hash, commits) && ReadBefore(hash, commits, c)
    ensures ReadsPast(hash, commits + [c])
  {
    hide ReadBefore;
    var all := commits + [c];
    forall k | 0 <= k < |all| ensures ReadBefore(hash, all[..k], all[k]) {
      if k < |commits| {
        assert all[..k] == commits[..k] && all[k] == commits[k];
      } else {
        assert all[..k] == commits;
      }
    }
  }

  /** A call's own commit: it read its rows when it began, and others committed before it did. */
  lemma OwnReadIsPast(hash: Hash, commits: seq<Commit>, between: seq<Commit>, e: Event)
    requires ReadsPast(hash, commits + between)
    ensures ReadsPast(hash, commits + between + [Commit(e, StateAfter(hash, commits).runs)])
  {
    hide ReadsPast;
    var c := Commit(e, StateAfter(hash, commits).runs);
    assert (commits + between)[..|commits|] == commits;
    assert SeenAt(hash, commits + between, c.seen, |commits|);
    ReadsPastAppend(hash, commits + between, c);
  }

  // ---------------------------------------------------------------- what should hold of every run

  ghost predicate RowOk(hash: Hash, r: Run) {
    && (Terminal(r.status) <==> r.completedAt.Some?)
    && (r.result.Some? ==> r.status == Succeeded || r.status == Degraded)
    && (r.status == Succeeded ==> r.result.Some?)
    && (r.result.Some? <==> r.resultSha.Some?)
    && (r.result.Some? ==> r.resultSha.value == hash(r.result.value))
    && (r.status == Running || r.status == CancelRequested ==> r.startedAt.Some? && r.worker.Some? && r.heartbeatAt.Some?)
    && (r.status == Queued ==> r.worker == None && r.heartbeatAt == None)
  }

  ghost predicate ApprovalOk(hash: Hash, db: Db, id: RunId)
    requires id in db.approvals
  {
    && id in db.runs && Decidable(db.runs[id])
    && db.approvals[id].resultSha == hash(db.runs[id].result.value)
    && db.runs[id].resultSha == Some(db.approvals[id].resultSha)
  }

  /** The run and its approval are in order. */
  ghost predicate RunOk(hash: Hash, db: Db, id: RunId) {
    && (id in db.runs ==> RowOk(hash, db.runs[id]))
    && (id in db.approvals ==> ApprovalOk(hash, db, id))
  }

  ghost predicate KeysUnique(db: Db) {
    forall i, j :: i in db.runs && j in db.runs && db.runs[i].key.Some? && db.runs[i].key == db.runs[j].key ==> i == j
  }

  ghost predicate DbOk(hash: Hash, db: Db) {
    (forall id :: RunOk(hash, db, id)) && KeysUnique(db)
  }

  /** What never changes once it is there. */
  predicate RowEvolves(a: Run, b: Run) {
    && (Terminal(a.status) ==> b == a)
    && (a.result.Some? ==> b.result == a.result && b.resultSha == a.resultSha && b.status == a.status)
    && (a.startedAt.Some? ==> b.startedAt == a.startedAt)
    && (a.completedAt.Some? ==> b.completedAt == a.completedAt)
    && a.recoveryCount <= b.recoveryCount
    && b.key == a.key && b.fingerprint == a.fingerprint && b.inputReference == a.inputReference
    && b.inputSha == a.inputSha && b.createdAt == a.createdAt
  }

  predicate RunEvolves(a: Db, b: Db, id: RunId) {
    && (id in a.runs ==> id in b.runs && RowEvolves(a.runs[id], b.runs[id]))
    && (id in a.approvals ==> id in b.approvals && b.approvals[id] == a.approvals[id])
  }

  ghost predicate Evolves(a: Db, b: Db) {
    forall id :: RunEvolves(a, b, id)
  }

  // ---------------------------------------------------------------- which updates are safe

  /** Every column the update changes already holds what it writes. */
  predicate AlreadyHolds(now: Run, seen: Run, next: Run) {
    && (next.status != seen.status ==> now.status == next.status)
    && (next.updatedAt != seen.updatedAt ==> now.updatedAt == next.updatedAt)
    && (next.completedAt != seen.completedAt ==> now.completedAt == next.completedAt)
    && (next.heartbeatAt != seen.heartbeatAt ==> now.heartbeatAt == next.heartbeatAt)
    && (next.worker != seen.worker ==> now.worker == next.worker)
    && (next.recoveryCount != seen.recoveryCount ==> now.recoveryCount == next.recoveryCount)
    && (next.lastRecoveredAt != seen.lastRecoveredAt ==> now.lastRecoveredAt == next.lastRecoveredAt)
    && (next.result != seen.result ==> now.result == next.result)
    && (next.resultSha != seen.resultSha ==> now.resultSha == next.resultSha)
    && (next.failureCode != seen.failureCode ==> now.failureCode == next.failureCode)
  }

  /** An update computed from `seen` may land on `now`: it intends nothing; or the row is finished and
      already holds what it writes; or the row is unfinished, it does not ask for the cancellation of a
      run that is back in the queue, and a recovery does not lower the recovery count. */
  predicate SafeWrite(now: Run, seen: Run, next: Run) {
    next == seen
    || if Terminal(now.status) then AlreadyHolds(now, seen, next)
       else && (now.status == Queued ==> next.status != CancelRequested)
            && (next.status == Queued ==> now.recoveryCount <= seen.recoveryCount + 1)
  }

  /** So on a finished row only an update to the very status it has can be safe. */
  lemma FinishedKeepsItsStatus(hash: Hash, id: RunId, now: Run, seen: Run, e: Event)
    requires Terminal(now.status) && SafeWrite(now, seen, Intended(hash, id, seen, e))
    ensures Intended(hash, id, seen, e) == seen || Intended(hash, id, seen, e).status == now.status
  {
  }

  /** The commit's update of this run, if it has one, is safe on the row as it is now. */
  ghost predicate SafeUpdate(hash: Hash, db: Db, c: Commit, id: RunId) {
    ReadsFirst(c.event) && id in db.runs && id in c.seen ==> SafeWrite(db.runs[id], c.seen[id], Intended(hash, id, c.seen[id], c.event))
  }

  ghost predicate SafeWrites(hash: Hash, db: Db, c: Commit) {
    forall id :: SafeUpdate(hash, db, c, id)
  }

  /** An approval finds the result it was decided on. */
  predicate SafeInsert(db: Db, c: Commit) {
    Inserts(db, c) ==> Decidable(db.runs[c.event.id]) && db.runs[c.event.id].resultSha == c.seen[c.event.id].resultSha
  }

  predicate SafeInsertFor(db: Db, c: Commit, id: RunId) {
    c.event.Approve? && c.event.id == id ==> SafeInsert(db, c)
  }

  /** The row the commit read was in order. */
  ghost predicate SeenRowOk(hash: Hash, c: Commit, id: RunId) {
    id in c.seen ==> RowOk(hash, c.seen[id])
  }

  ghost predicate SeenOk(hash: Hash, c: Commit) {
    forall id :: SeenRowOk(hash, c, id)
  }

  /** Exact, for one row: the update keeps the invariant and what must not change if and only if it
      is safe. */
  lemma UpdateIsSoundIff(hash: Hash, id: RunId, now: Run, seen: Run, e: Event)
    requires RowOk(hash, now) && RowOk(hash, seen) && ReadsFirst(e)
    ensures var next := Intended(hash, id, seen, e);
            RowOk(hash, Written(now, seen, next)) && RowEvolves(now, Written(now, seen, next)) <==> SafeWrite(now, seen, next)
  {
  }

  lemma ClaimIsSound(hash: Hash, now: Run, workerId: string, at: int)
    requires RowOk(hash, now)
    ensures RowOk(hash, ClaimRow(now, workerId, at)) && RowEvolves(now, ClaimRow(now, workerId, at))
  {
  }

  lemma RowEvolvesReflexive(r: Run)
    ensures RowEvolves(r, r)
  {
  }

  lemma NewRowOk(hash: Hash, e: Event)
    requires e.Create?
    ensures RowOk(hash, NewRow(e))
  {
  }

  lemma DecidableHashed(hash: Hash, r: Run)
    requires RowOk(hash, r) && Decidable(r)
    ensures Terminal(r.status) && r.result.Some? && r.resultSha == Some(hash(r.result.value))
  {
  }

  /** What a commit does to the row of a run that is there. */
  lemma RowOfApply(hash: Hash, db: Db, c: Commit, id: RunId)
    requires id in db.runs
    ensures id in Apply(hash, db, c).runs && Apply(hash, db, c).runs[id] == RowAfter(hash, id, db.runs[id], c)
  {
    hide Written, Intended, KeyTaken, Decidable;
  }

  /** What it does to its approval. */
  lemma ApprovalOfApply(hash: Hash, db: Db, c: Commit, id: RunId)
    ensures var next := Apply(hash, db, c);
            && (id in db.approvals ==> id in next.approvals && next.approvals[id] == db.approvals[id])
            && (id in next.approvals && id !in db.approvals ==> c.event.Approve? && c.event.id == id && Inserts(db, c)
                                                                && next.approvals[id].resultSha == c.seen[id].resultSha.value)
            && (c.event.Approve? && c.event.id == id && Inserts(db, c) ==> id in next.approvals)
            && (id in next.runs && id !in db.runs ==> c.event.Create? && next.runs[id] == NewRow(c.event))
  {
    hide RowAfter, KeyTaken;
  }

  lemma RowIsSoundIff(hash: Hash, db: Db, c: Commit, id: RunId)
    requires id in db.runs && RowOk(hash, db.runs[id]) && SeenRowOk(hash, c, id)
    ensures var r := RowAfter(hash, id, db.runs[id], c);
            RowOk(hash, r) && RowEvolves(db.runs[id], r) <==> SafeUpdate(hash, db, c, id)
  {
    hide RowEvolves, Written, Intended, SafeWrite, ClaimRow, RowOk;
    var now := db.runs[id];
    RowEvolvesReflexive(now);
    if c.event.Claim? && c.event.id == id {
      ClaimIsSound(hash, now, c.event.workerId, c.event.at);
    } else if ReadsFirst(c.event) && id in c.seen {
      UpdateIsSoundIff(hash, id, now, c.seen[id], c.event);
    }
  }

  lemma FinishedStays(a: Run, b: Run)
    requires RowEvolves(a, b) && Decidable(a)
    ensures b == a
  {
  }

  lemma RowOnlyByUpdate(hash: Hash, id: RunId, now: Run, c: Commit)
    requires c.event.Approve? || c.event.Create?
    ensures RowAfter(hash, id, now, c) == now
  {
  }

  /** Exact, for one run and one commit: it leaves the run in order and changes nothing of it that
      must not change if and only if its update is safe and its approval finds its result. */
  lemma CommitIsSoundForIff(hash: Hash, db: Db, c: Commit, id: RunId)
    requires RunOk(hash, db, id) && SeenRowOk(hash, c, id)
    ensures RunOk(hash, Apply(hash, db, c), id) && RunEvolves(db, Apply(hash, db, c), id)
       <==> SafeUpdate(hash, db, c, id) && SafeInsertFor(db, c, id)
  {
    hide RowEvolves, RowAfter, RowOk, Apply, SafeUpdate, Decidable;
    ApprovalOfApply(hash, db, c, id);
    if id in db.runs {
      var now := db.runs[id];
      RowOfApply(hash, db, c, id);
      RowIsSoundIff(hash, db, c, id);
      if id in db.approvals && RowEvolves(now, RowAfter(hash, id, now, c)) {
        FinishedStays(now, RowAfter(hash, id, now, c));
      }
      if c.event.Approve? {
        RowOnlyByUpdate(hash, id, now, c);
        RowEvolvesReflexive(now);
        if Inserts(db, c) && c.event.id == id {
          DecidableHashed(hash, c.seen[id]);
          if Decidable(now) {
            DecidableHashed(hash, now);
          }
        }
      }
    } else {
      NoRowNoUpdate(hash, db, c, id);
      if c.event.Create? {
        NewRowOk(hash, c.event);
      }
    }
  }

  lemma NoRowNoUpdate(hash: Hash, db: Db, c: Commit, id: RunId)
    requires id !in db.runs
    ensures SafeUpdate(hash, db, c, id) && (c.event.Approve? && c.event.id == id ==> !Inserts(db, c))
  {
  }

  /** What no update touches: what a run was submitted with, a start time once it is set, and that
      there is a result once there is one. */
  predicate RowStays(a: Run, b: Run) {
    && b.key == a.key && b.fingerprint == a.fingerprint && b.inputReference == a.inputReference
    && b.inputSha == a.inputSha && b.createdAt == a.createdAt
    && (a.startedAt.Some? ==> b.startedAt == a.startedAt)
    && (a.result.Some? ==> b.result.Some?)
  }

  lemma SubmissionStays(hash: Hash, id: RunId, now: Run, c: Commit)
    ensures RowStays(now, RowAfter(hash, id, now, c))
  {
  }

  /** Keys stay unique whatever a commit has read. */
  lemma KeysStep(hash: Hash, db: Db, c: Commit)
    requires KeysUnique(db)
    ensures KeysUnique(Apply(hash, db, c))
  {
    hide RowAfter, Inserts;
    forall id | id in db.runs {
      SubmissionStays(hash, id, db.runs[id], c);
    }
  }

  /** Exact, for one commit on a store in order. */
  lemma CommitIsSoundIff(hash: Hash, db: Db, c: Commit)
    requires DbOk(hash, db) && SeenOk(hash, c)
    ensures DbOk(hash, Apply(hash, db, c)) && Evolves(db, Apply(hash, db, c)) <==> SafeWrites(hash, db, c) && SafeInsert(db, c)
  {
    hide Apply, KeysUnique, RunOk, RunEvolves, SafeUpdate, SeenRowOk, Inserts, Decidable;
    KeysStep(hash, db, c);
    forall id ensures RunOk(hash, Apply(hash, db, c), id) && RunEvolves(db, Apply(hash, db, c), id)
                 <==> SafeUpdate(hash, db, c, id) && SafeInsertFor(db, c, id) {
      assert RunOk(hash, db, id) && SeenRowOk(hash, c, id);
      CommitIsSoundForIff(hash, db, c, id);
    }
    if c.event.Approve? {
      assert SafeInsertFor(db, c, c.event.id) <==> SafeInsert(db, c);
    } else {
      OnlyApprovalsInsert(db, c);
    }
  }

  lemma OnlyApprovalsInsert(db: Db, c: Commit)
    requires !c.event.Approve?
    ensures SafeInsert(db, c)
  {
  }

  lemma RunEvolvesTransitive(a: Db, b: Db, c: Db, id: RunId)
    requires RunEvolves(a, b, id) && RunEvolves(b, c, id)
    ensures RunEvolves(a, c, id)
  {
  }

  lemma RunEvolvesReflexive(a: Db, id: RunId)
    ensures RunEvolves(a, a, id)
  {
  }

  // ---------------------------------------------------------------- one run along a history

  /** The run is in order at every point, and no commit changes of it what must not change. */
  ghost predicate SoundFor(hash: Hash, commits: seq<Commit>, id: RunId) {
    && (forall n :: 0 <= n <= |commits| ==> RunOk(hash, StateAfter(hash, commits[..n]), id))
    && (forall n :: 0 <= n < |commits| ==> RunEvolves(StateAfter(hash, commits[..n]), StateAfter(hash, commits[..n + 1]), id))
  }

  /** Every update of this run lands safely. */
  ghost predicate AllSafeFor(hash: Hash, commits: seq<Commit>, id: RunId) {
    forall k {:trigger commits[k]} :: 0 <= k < |commits| ==> SafeUpdate(hash, StateAfter(hash, commits[..k]), commits[k], id)
  }

  lemma SoundForByParts(hash: Hash, commits: seq<Commit>, id: RunId)
    requires commits != []
    ensures var before := commits[..|commits| - 1];
            SoundFor(hash, commits, id) <==> SoundFor(hash, before, id) && RunOk(hash, StateAfter(hash, commits), id)
                                             && RunEvolves(StateAfter(hash, before), StateAfter(hash, commits), id)
  {
    hide RunOk, RunEvolves, StateAfter;
    var before := commits[..|commits| - 1];
    assert forall n :: 0 <= n <= |before| ==> before[..n] == commits[..n];
    assert commits[..|commits|] == commits;
    if SoundFor(hash, commits, id) {
      assert commits[..|before| + 1] == commits;
      assert RunEvolves(StateAfter(hash, commits[..|before|]), StateAfter(hash, commits[..|before| + 1]), id);
      forall n | 0 <= n < |before| ensures RunEvolves(StateAfter(hash, before[..n]), StateAfter(hash, before[..n + 1]), id) {
        assert RunEvolves(StateAfter(hash, commits[..n]), StateAfter(hash, commits[..n + 1]), id);
      }
    }
    if SoundFor(hash, before, id) && RunOk(hash, StateAfter(hash, commits), id) && RunEvolves(StateAfter(hash, before), StateAfter(hash, commits), id) {
      forall n | 0 <= n < |commits| ensures RunEvolves(StateAfter(hash, commits[..n]), StateAfter(hash, commits[..n + 1]), id) {
        if n < |before| {
          assert RunEvolves(StateAfter(hash, before[..n]), StateAfter(hash, before[..n + 1]), id);
        } else {
          assert commits[..n + 1] == commits;
        }
      }
      forall n | 0 <= n <= |commits| ensures RunOk(hash, StateAfter(hash, commits[..n]), id) {
        if n <= |before| {
          assert RunOk(hash, StateAfter(hash, before[..n]), id);
        }
      }
    }
  }

  lemma SafeForByParts(hash: Hash, commits: seq<Commit>, id: RunId)
    requires commits != []
    ensures var before := commits[..|commits| - 1];
            AllSafeFor(hash, commits, id) <==> AllSafeFor(hash, before, id) && SafeUpdate(hash, StateAfter(hash, before), commits[|commits| - 1], id)
  {
    hide SafeUpdate, StateAfter;
    var before := commits[..|commits| - 1];
    assert forall k :: 0 <= k < |before| ==> before[..k] == commits[..k] && before[k] == commits[k];
  }

  lemma SafeForPrefix(hash: Hash, commits: seq<Commit>, n: nat, id: RunId)
    requires AllSafeFor(hash, commits, id) && n <= |commits|
    ensures AllSafeFor(hash, commits[..n], id)
  {
    hide SafeUpdate, StateAfter;
    assert forall k :: 0 <= k < n ==> commits[..n][..k] == commits[..k] && commits[..n][k] == commits[k];
  }

  lemma {:induction false} SoundForEvolves(hash: Hash, commits: seq<Commit>, n: nat, id: RunId)
    requires SoundFor(hash, commits, id) && n <= |commits|
    ensures RunEvolves(StateAfter(hash, commits[..n]), StateAfter(hash, commits), id)
  {
    hide RunOk, StateAfter, RunEvolves;
    if n == |commits| {
      assert commits[..n] == commits;
      RunEvolvesReflexive(StateAfter(hash, commits), id);
    } else {
      var before := commits[..|commits| - 1];
      SoundForByParts(hash, commits, id);
      SoundForEvolves(hash, before, n, id);
      assert before[..n] == commits[..n];
      RunEvolvesTransitive(StateAfter(hash, commits[..n]), StateAfter(hash, before), StateAfter(hash, commits), id);
    }
  }

  /** The row a commit read from the past of a sound run was in order, and its approval finds its
      result. */
  lemma PastIsOk(hash: Hash, before: seq<Commit>, c: Commit, r: nat, id: RunId)
    requires SoundFor(hash, before, id) && SeenAt(hash, before, c.seen, r)
    ensures SeenRowOk(hash, c, id) && SafeInsertFor(StateAfter(hash, before), c, id)
  {
    hide RowOk, StateAfter, ApprovalOk;
    assert RunOk(hash, StateAfter(hash, before[..r]), id);
    SoundForEvolves(hash, before, r, id);
  }

  lemma EmptyIsSoundFor(hash: Hash, id: RunId)
    ensures SoundFor(hash, [], id) && AllSafeFor(hash, [], id)
  {
  }

  lemma LastRunOk(hash: Hash, commits: seq<Commit>, id: RunId)
    requires SoundFor(hash, commits, id)
    ensures RunOk(hash, StateAfter(hash, commits), id)
  {
    hide RunOk;
    assert commits[..|commits|] == commits;
  }

  /** Exact, for one run: it is in order at every point of a history and nothing of it that must not
      change ever does, if and only if every update of this run lands safely, whatever happens to the
      others. */
  lemma {:induction false} RunIsSoundIff(hash: Hash, commits: seq<Commit>, id: RunId)
    requires ReadsPast(hash, commits)
    ensures SoundFor(hash, commits, id) <==> AllSafeFor(hash, commits, id)
  {
    hide RunOk, RunEvolves, SafeUpdate, SafeInsertFor, SeenRowOk, Apply, AllSafeFor, SoundFor, SeenAt;
    if commits == [] {
      EmptyIsSoundFor(hash, id);
    } else {
      var before, c := commits[..|commits| - 1], commits[|commits| - 1];
      ReadsPastPrefix(hash, commits, |commits| - 1);
      RunIsSoundIff(hash, before, id);
      SoundForByParts(hash, commits, id);
      SafeForByParts(hash, commits, id);
      if SoundFor(hash, before, id) {
        assert ReadBefore(hash, commits[..|commits| - 1], commits[|commits| - 1]);
        var r :| SeenAt(hash, before, c.seen, r);
        PastIsOk(hash, before, c, r, id);
        LastRunOk(hash, before, id);
        CommitIsSoundForIff(hash, StateAfter(hash, before), c, id);
      }
    }
  }

  /** A run whose updates all land safely is in order at every point, and evolves between any two. */
  lemma RunStaysInOrder(hash: Hash, commits: seq<Commit>, n: nat, m: nat, id: RunId)
    requires ReadsPast(hash, commits) && AllSafeFor(hash, commits, id) && n <= m <= |commits|
    ensures RunOk(hash, StateAfter(hash, commits[..m]), id)
    ensures RunEvolves(StateAfter(hash, commits[..n]), StateAfter(hash, commits[..m]), id)
  {
    hide RunOk, RunEvolves, SoundFor, AllSafeFor, ReadsPast;
    ReadsPastPrefix(hash, commits, m);
    SafeForPrefix(hash, commits, m, id);
    RunIsSoundIff(hash, commits[..m], id);
    LastRunOk(hash, commits[..m], id);
    SoundForEvolves(hash, commits[..m], n, id);
    assert commits[..m][..n] == commits[..n];
  }

  /** The claim a reader of the repository wants: if every update of the approved run lands safely, an
      approval at any point means that from then on the run is succeeded, validated, and hashes to
      what was approved. */
  lemma ApprovalIsForever(hash: Hash, commits: seq<Commit>, n: nat, id: RunId)
    requires ReadsPast(hash, commits) && AllSafeFor(hash, commits, id)
    requires n <= |commits| && id in StateAfter(hash, commits[..n]).approvals
    ensures var db := StateAfter(hash, commits);
            && id in db.approvals && db.approvals[id] == StateAfter(hash, commits[..n]).approvals[id]
            && id in StateAfter(hash, commits[..n]).runs && id in db.runs && db.runs[id] == StateAfter(hash, commits[..n]).runs[id]
            && db.runs[id].status == Succeeded && db.runs[id].result.Some? && db.runs[id].result.value.validationPassed
            && hash(db.runs[id].result.value) == db.approvals[id].resultSha
  {
    hide StateAfter, AllSafeFor, ReadsPast, RowOk;
    RunStaysInOrder(hash, commits, n, n, id);
    RunStaysInOrder(hash, commits, n, |commits|, id);
    assert commits[..|commits|] == commits;
  }

  // ---------------------------------------------------------------- all runs together

  /** The store is in order at every point, and no commit changes what must not change. */
  ghost predicate Sound(hash: Hash, commits: seq<Commit>) {
    && (forall n :: 0 <= n <= |commits| ==> DbOk(hash, StateAfter(hash, commits[..n])))
    && (forall n :: 0 <= n < |commits| ==> Evolves(StateAfter(hash, commits[..n]), StateAfter(hash, commits[..n + 1])))
  }

  /** Every update lands safely. */
  ghost predicate AllSafe(hash: Hash, commits: seq<Commit>) {
    forall k {:trigger commits[k]} :: 0 <= k < |commits| ==> SafeWrites(hash, StateAfter(hash, commits[..k]), commits[k])
  }

  lemma AllSafeRunByRun(hash: Hash, commits: seq<Commit>)
    ensures AllSafe(hash, commits) <==> forall id :: AllSafeFor(hash, commits, id)
  {
    hide SafeUpdate, StateAfter;
    if forall id :: AllSafeFor(hash, commits, id) {
      forall k | 0 <= k < |commits| ensures SafeWrites(hash, StateAfter(hash, commits[..k]), commits[k]) {
        forall id ensures SafeUpdate(hash, StateAfter(hash, commits[..k]), commits[k], id) {
          assert AllSafeFor(hash, commits, id);
        }
      }
    }
  }

  lemma SoundRunByRun(hash: Hash, commits: seq<Commit>)
    ensures Sound(hash, commits) <==> forall id :: SoundFor(hash, commits, id)
  {
    hide RunOk, RunEvolves, StateAfter, KeysUnique;
    if forall id :: SoundFor(hash, commits, id) {
      forall n | 0 <= n <= |commits| ensures DbOk(hash, StateAfter(hash, commits[..n])) {
        KeysStayUnique(hash, commits[..n]);
        forall id ensures RunOk(hash, StateAfter(hash, commits[..n]), id) {
          assert SoundFor(hash, commits, id);
        }
      }
      forall n | 0 <= n < |commits| ensures Evolves(StateAfter(hash, commits[..n]), StateAfter(hash, commits[..n + 1])) {
        var a, b := StateAfter(hash, commits[..n]), StateAfter(hash, commits[..n + 1]);
        forall id ensures RunEvolves(a, b, id) {
          assert SoundFor(hash, commits, id);
        }
      }
    }
    if Sound(hash, commits) {
      forall id ensures SoundFor(hash, commits, id) {
        forall n | 0 <= n < |commits| ensures RunEvolves(StateAfter(hash, commits[..n]), StateAfter(hash, commits[..n + 1]), id) {
          assert Evolves(StateAfter(hash, commits[..n]), StateAfter(hash, commits[..n + 1]));
        }
      }
    }
  }

  /** Exact, for histories: the store is in order at every point and nothing that must not change
      ever does, if and only if every update lands safely. */
  lemma SoundIffSafe(hash: Hash, commits: seq<Commit>)
    requires ReadsPast(hash, commits)
    ensures Sound(hash, commits) <==> AllSafe(hash, commits)
  {
    hide Sound, AllSafe, SoundFor, AllSafeFor, ReadsPast;
    SoundRunByRun(hash, commits);
    AllSafeRunByRun(hash, commits);
    forall id ensures SoundFor(hash, commits, id) <==> AllSafeFor(hash, commits, id) {
      RunIsSoundIff(hash, commits, id);
    }
  }

  lemma LastStateOk(hash: Hash, commits: seq<Commit>)
    requires Sound(hash, commits)
    ensures DbOk(hash, StateAfter(hash, commits))
  {
    hide DbOk;
    assert commits[..|commits|] == commits;
  }

  /** No row a commit updates has changed since the commit read it. */
  ghost predicate Unchanged(hash: Hash, db: Db, c: Commit) {
    forall id :: ReadsFirst(c.event) && id in db.runs && id in c.seen && Intended(hash, id, c.seen[id], c.event) != c.seen[id] ==>
      db.runs[id] == c.seen[id]
  }

  lemma UnchangedIsSafe(hash: Hash, db: Db, c: Commit)
    requires Unchanged(hash, db, c)
    ensures SafeWrites(hash, db, c)
  {
  }

  /** In particular: a history in which no updated row has changed since it was read is sound. */
  lemma UnchangedHistoriesAreSound(hash: Hash, commits: seq<Commit>)
    requires ReadsPast(hash, commits)
    requires forall k {:trigger commits[k]} :: 0 <= k < |commits| ==> Unchanged(hash, StateAfter(hash, commits[..k]), commits[k])
    ensures AllSafe(hash, commits) && Sound(hash, commits)
  {
    hide Unchanged, SafeWrites, Sound, ReadsPast;
    forall k | 0 <= k < |commits| ensures SafeWrites(hash, StateAfter(hash, commits[..k]), commits[k]) {
      UnchangedIsSafe(hash, StateAfter(hash, commits[..k]), commits[k]);
    }
    SoundIffSafe(hash, commits);
  }

  /** After every safe history: terminal if and only if completed, hashes match, approvals are bound. */
  lemma EveryStateOk(hash: Hash, commits: seq<Commit>)
    requires ReadsPast(hash, commits) && AllSafe(hash, commits)
    ensures DbOk(hash, StateAfter(hash, commits))
  {
    hide DbOk, Sound, AllSafe, ReadsPast;
    SoundIffSafe(hash, commits);
    LastStateOk(hash, commits);
  }

  /** Along every safe history: terminal rows never change again, results and hashes are write-once,
      and approvals stay bound to the run they approved. */
  lemma HistoryEvolves(hash: Hash, commits: seq<Commit>, n: nat)
    requires ReadsPast(hash, commits) && AllSafe(hash, commits) && n <= |commits|
    ensures Evolves(StateAfter(hash, commits[..n]), StateAfter(hash, commits))
  {
    hide RunEvolves, AllSafe, AllSafeFor, ReadsPast, RunOk;
    AllSafeRunByRun(hash, commits);
    assert commits[..|commits|] == commits;
    forall id ensures RunEvolves(StateAfter(hash, commits[..n]), StateAfter(hash, commits), id) {
      RunStaysInOrder(hash, commits, n, |commits|, id);
    }
  }

  // ---------------------------------------------------------------- what every history keeps, safe or not

  /** No run disappears, what it was submitted with stays, a start time never moves once it is set,
      and a run that has a result keeps having one. */
  lemma {:induction false} RunsStay(hash: Hash, commits: seq<Commit>, n: nat)
    requires n <= |commits|
    ensures StateAfter(hash, commits[..n]).runs.Keys <= StateAfter(hash, commits).runs.Keys
    ensures forall id :: id in StateAfter(hash, commits[..n]).runs ==> RowStays(StateAfter(hash, commits[..n]).runs[id], StateAfter(hash, commits).runs[id])
  {
    if n == |commits| {
      assert commits[..n] == commits;
    } else {
      hide RowAfter, Apply;
      var before := commits[..|commits| - 1];
      RunsStay(hash, before, n);
      assert before[..n] == commits[..n];
      var db := StateAfter(hash, before);
      forall id | id in db.runs ensures id in StateAfter(hash, commits).runs && RowStays(db.runs[id], StateAfter(hash, commits).runs[id]) {
        RowOfApply(hash, db, commits[|commits| - 1], id);
        SubmissionStays(hash, id, db.runs[id], commits[|commits| - 1]);
      }
    }
  }

  /** An approval row, once inserted, stays as it is. */
  lemma {:induction false} ApprovalsStay(hash: Hash, commits: seq<Commit>, n: nat, id: RunId)
    requires n <= |commits| && id in StateAfter(hash, commits[..n]).approvals
    ensures id in StateAfter(hash, commits).approvals
    ensures StateAfter(hash, commits).approvals[id] == StateAfter(hash, commits[..n]).approvals[id]
  {
    if n == |commits| {
      assert commits[..n] == commits;
    } else {
      hide Apply;
      var before := commits[..|commits| - 1];
      assert before[..n] == commits[..n];
      ApprovalsStay(hash, before, n, id);
      ApprovalOfApply(hash, StateAfter(hash, before), commits[|commits| - 1], id);
    }
  }

  lemma {:induction false} KeysStayUnique(hash: Hash, commits: seq<Commit>)
    ensures KeysUnique(StateAfter(hash, commits))
  {
    if commits != [] {
      hide KeysUnique, Apply;
      var before := commits[..|commits| - 1];
      KeysStayUnique(hash, before);
      KeysStep(hash, StateAfter(hash, before), commits[|commits| - 1]);
    } else {
      assert StateAfter(hash, commits) == EMPTY;
    }
  }

  ghost predicate Injective(hash: Hash) {
    forall p, q :: hash(p) == hash(q) ==> p == q
  }

  /** The hash stored is the hash of the result stored. */
  ghost predicate Hashed(hash: Hash, r: Run) {
    (r.result.Some? <==> r.resultSha.Some?) && (r.result.Some? ==> r.resultSha.value == hash(r.result.value))
  }

  lemma UpdateKeepsHashed(hash: Hash, id: RunId, now: Run, c: Commit)
    requires Injective(hash) && Hashed(hash, now) && (id in c.seen ==> Hashed(hash, c.seen[id]))
    ensures Hashed(hash, RowAfter(hash, id, now, c))
  {
  }

  /** With a digest that tells results apart, the hash stored is the hash of the result stored, in
      every state: an update writes both columns or neither. */
  lemma {:induction false} HashesMatch(hash: Hash, commits: seq<Commit>, id: RunId)
    requires Injective(hash) && ReadsPast(hash, commits) && id in StateAfter(hash, commits).runs
    ensures Hashed(hash, StateAfter(hash, commits).runs[id])
    decreases |commits|
  {
    hide Injective, Hashed, RowAfter, Apply, ReadsPast;
    var before, c := commits[..|commits| - 1], commits[|commits| - 1];
    ReadsPastPrefix(hash, commits, |commits| - 1);
    ApprovalOfApply(hash, StateAfter(hash, before), c, id);
    if id in StateAfter(hash, before).runs {
      RowOfApply(hash, StateAfter(hash, before), c, id);
      HashesMatch(hash, before, id);
      var r := LastRead(hash, commits);
      if id in c.seen {
        ReadsPastPrefix(hash, before, r);
        HashesMatch(hash, before[..r], id);
      }
      UpdateKeepsHashed(hash, id, StateAfter(hash, before).runs[id], c);
    } else {
      NothingHashed(hash, c.event);
    }
  }

  lemma NothingHashed(hash: Hash, e: Event)
    requires e.Create?
    ensures Hashed(hash, NewRow(e))
  {
  }

  /** When the last commit read its rows. */
  lemma LastRead(hash: Hash, commits: seq<Commit>) returns (r: nat)
    requires ReadsPast(hash, commits) && commits != []
    ensures r < |commits| && commits[|commits| - 1].seen == StateAfter(hash, commits[..|commits| - 1][..r]).runs
  {
    hide StateAfter;
    var before := commits[..|commits| - 1];
    assert ReadBefore(hash, commits[..|commits| - 1], commits[|commits| - 1]);
    r :| SeenAt(hash, before, commits[|commits| - 1].seen, r);
  }

  // ---------------------------------------------------------------- what others commit during a call

  /** A commit this run survives, exactly (see `CommitIsSoundForIff`). */
  ghost predicate SafeStepFor(hash: Hash, db: Db, c: Commit, id: RunId) {
    SeenRowOk(hash, c, id) && SafeUpdate(hash, db, c, id) && SafeInsertFor(db, c, id)
  }

  /** These commits, following the history, are all safe for this run where they land. */
  ghost predicate SafeAfterFor(hash: Hash, history: seq<Commit>, commits: seq<Commit>, id: RunId) {
    forall k {:trigger commits[k]} :: 0 <= k < |commits| ==> SafeStepFor(hash, StateAfter(hash, history + commits[..k]), commits[k], id)
  }

  lemma {:induction false} SafeCommitsKeepRun(hash: Hash, history: seq<Commit>, commits: seq<Commit>, id: RunId)
    requires RunOk(hash, StateAfter(hash, history), id) && SafeAfterFor(hash, history, commits, id)
    ensures RunOk(hash, StateAfter(hash, history + commits), id)
    ensures RunEvolves(StateAfter(hash, history), StateAfter(hash, history + commits), id)
  {
    hide RunOk, RunEvolves, StateAfter, Apply, SeenRowOk, SafeUpdate, SafeInsertFor;
    if commits == [] {
      assert history + commits == history;
      RunEvolvesReflexive(StateAfter(hash, history), id);
    } else {
      var n := |commits| - 1;
      var before, c := history + commits[..n], commits[n];
      SafePrefixFor(hash, history, commits, n, id);
      SafeCommitsKeepRun(hash, history, commits[..n], id);
      assert SafeStepFor(hash, StateAfter(hash, before), c, id);
      CommitIsSoundForIff(hash, StateAfter(hash, before), c, id);
      AppendCommit(hash, before, c);
      assert before + [c] == history + commits;
      RunEvolvesTransitive(StateAfter(hash, history), StateAfter(hash, before), StateAfter(hash, history + commits), id);
    }
  }

  lemma SafePrefixFor(hash: Hash, history: seq<Commit>, commits: seq<Commit>, n: nat, id: RunId)
    requires SafeAfterFor(hash, history, commits, id) && n <= |commits|
    ensures SafeAfterFor(hash, history, commits[..n], id)
  {
    hide SafeStepFor, StateAfter;
    assert forall k :: 0 <= k < n ==> commits[..n][..k] == commits[..k] && commits[..n][k] == commits[k];
  }

  /** The tail of a history that is safe for a run is safe for it where it lands. */
  lemma SafeHistoriesHaveSafeTails(hash: Hash, history: seq<Commit>, commits: seq<Commit>, id: RunId)
    requires ReadsPast(hash, history + commits) && AllSafeFor(hash, history + commits, id)
    ensures RunOk(hash, StateAfter(hash, history), id) && SafeAfterFor(hash, history, commits, id)
  {
    hide RunOk, SeenRowOk, SafeUpdate, SafeInsertFor, StateAfter, SeenAt, SoundFor, RunEvolves;
    var all := history + commits;
    assert all[..|history|] == history;
    RunStaysInOrder(hash, all, |history|, |history|, id);
    forall k | 0 <= k < |commits| ensures SafeStepFor(hash, StateAfter(hash, history + commits[..k]), commits[k], id) {
      var n := |history| + k;
      assert all[..n] == history + commits[..k] && all[n] == commits[k];
      ReadsPastPrefix(hash, all, n);
      SafeForPrefix(hash, all, n, id);
      RunIsSoundIff(hash, all[..n], id);
      assert ReadBefore(hash, all[..n], all[n]);
      var r :| SeenAt(hash, all[..n], all[n].seen, r);
      PastIsOk(hash, all[..n], all[n], r, id);
      assert SafeUpdate(hash, StateAfter(hash, all[..n]), all[n], id);
    }
  }

  // ---------------------------------------------------------------- status moves

  /** Every status change a call intends follows the table, except the recovery of a running run;
      and of the table's edges out of a cancellation request only the one to cancelled is ever taken. */
  lemma StatusMoves(hash: Hash, id: RunId, r: Run, e: Event)
    requires RowOk(hash, r)
    ensures var s := Intended(hash, id, r, e).status;
            s != r.status ==>
              && (Allowed(r.status, s) || (r.status == Running && s == Queued && e.Recover?))
              && (r.status == CancelRequested ==> s == Cancelled)
  {
  }
}

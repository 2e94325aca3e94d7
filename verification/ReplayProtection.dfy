/** Command freshness and the bounded replay memory of the gateway, as a theory of admission histories.
    Times are seconds on a clock that never runs backwards. */
module ReplayProtection {
  import opened Prelude

  type CommandId = nat

  datatype Envelope = Envelope(id: CommandId, issuedAt: real, expiresAt: real)

  datatype FreshnessPolicy = FreshnessPolicy(maxAge: real, maxSkew: real, cacheSize: nat)

  datatype WindowFault = InvalidWindow | FutureCommand | StaleCommand

  datatype Admission = Admission(envelope: Envelope, at: real)

  function WindowRefusal(p: FreshnessPolicy, e: Envelope, now: real): Option<WindowFault> {
    if e.expiresAt <= e.issuedAt then Some(InvalidWindow)
    else if e.issuedAt > now + p.maxSkew then Some(FutureCommand)
    else if now > e.expiresAt || now - e.issuedAt > p.maxAge then Some(StaleCommand)
    else None
  }

  function Ids(history: seq<Admission>): (ids: seq<CommandId>)
    ensures |ids| == |history|
    ensures forall k :: 0 <= k < |ids| ==> ids[k] == history[k].envelope.id
  {
    if history == [] then [] else Ids(history[..|history| - 1]) + [history[|history| - 1].envelope.id]
  }

  /** The last `n` elements. */
  function Last<T>(s: seq<T>, n: nat): seq<T> {
    if |s| <= n then s else s[|s| - n..]
  }

  lemma LastDropsFirst<T>(s: seq<T>, n: nat)
    requires |s| > n
    ensures Last(s[1..], n) == Last(s, n)
  {
  }

  lemma LastOfShort<T>(s: seq<T>, n: nat)
    requires |s| <= n
    ensures Last(s, n) == s
  {
  }

  /** Appending to the remembered ids and trimming is remembering the appended history. */
  lemma AppendToMemory(history: seq<Admission>, a: Admission, n: nat)
    ensures Last(Last(Ids(history), n) + [a.envelope.id], n) == Last(Ids(history + [a]), n)
  {
    assert (history + [a])[..|history|] == history;
    LastOfLast(Ids(history), a.envelope.id, n);
  }

  lemma LastOfLast<T>(s: seq<T>, x: T, n: nat)
    ensures Last(Last(s, n) + [x], n) == Last(s + [x], n)
  {
    if |s| > n {
      assert Last(s, n) + [x] == (s + [x])[|s| - n..];
    }
  }

  /** A command is admitted when it is inside its window and not among the last `cacheSize` admitted ids. */
  predicate Admissible(p: FreshnessPolicy, history: seq<Admission>, e: Envelope, now: real) {
    WindowRefusal(p, e, now).None? && e.id !in Last(Ids(history), p.cacheSize)
  }

  /** Histories the gateway can have, whatever mix of dispatch and safe-state calls produced them. */
  ghost predicate Reachable(p: FreshnessPolicy, history: seq<Admission>) {
    && (forall k {:trigger history[k]} :: 0 <= k < |history| ==> Admissible(p, history[..k], history[k].envelope, history[k].at))
    && (forall j, k {:trigger history[j], history[k]} :: 0 <= j <= k < |history| ==> history[j].at <= history[k].at)
  }

  lemma ReachableExtends(p: FreshnessPolicy, history: seq<Admission>, e: Envelope, now: real)
    requires Reachable(p, history) && Admissible(p, history, e, now)
    requires history != [] ==> history[|history| - 1].at <= now
    ensures Reachable(p, history + [Admission(e, now)])
  {
    var next := history + [Admission(e, now)];
    forall k | 0 <= k < |next| ensures Admissible(p, next[..k], next[k].envelope, next[k].at) {
      assert next[..k] == history[..k];
      if k == |history| { assert history[..k] == history; }
    }
  }

  /** Any `cacheSize + 1` consecutive admissions have different ids; so the memory holds no id twice. */
  lemma NearbyIdsDiffer(p: FreshnessPolicy, history: seq<Admission>, i: nat, j: nat)
    requires Reachable(p, history) && i < j < |history| && j - i <= p.cacheSize
    ensures history[i].envelope.id != history[j].envelope.id
  {
    assert Admissible(p, history[..j], history[j].envelope, history[j].at);
    var memory := Last(Ids(history[..j]), p.cacheSize);
    assert history[i].envelope.id == memory[if j <= p.cacheSize then i else i - (j - p.cacheSize)];
  }

  /** A command identifier comes back only after at least `cacheSize` others; and an identical
      command comes back only within `maxAge + maxSkew` seconds, so all of those were admitted
      in that time. */
  lemma ReadmissionNeedsEviction(p: FreshnessPolicy, history: seq<Admission>, i: nat, j: nat)
    requires Reachable(p, history) && i < j < |history|
    requires history[i].envelope.id == history[j].envelope.id
    ensures j - i > p.cacheSize
    ensures history[i].envelope == history[j].envelope ==>
              forall k :: i <= k <= j ==> history[i].at <= history[k].at <= history[i].at + p.maxAge + p.maxSkew
  {
    if j - i <= p.cacheSize {
      NearbyIdsDiffer(p, history, i, j);
    }
    if history[i].envelope == history[j].envelope {
      assert Admissible(p, history[..i], history[i].envelope, history[i].at);
      assert Admissible(p, history[..j], history[j].envelope, history[j].at);
    }
  }

  /** How many commands were admitted after position `i`, up to a deadline. */
  function AdmittedUntil(history: seq<Admission>, i: nat, deadline: real): nat
    requires i < |history|
    decreases |history| - i
  {
    if i + 1 == |history| then 0
    else (if history[i + 1].at <= deadline then 1 else 0) + AdmittedUntil(history, i + 1, deadline)
  }

  lemma {:induction false} AllWithinAreCounted(history: seq<Admission>, i: nat, j: nat, deadline: real)
    requires i <= j < |history|
    requires forall k :: i < k <= j ==> history[k].at <= deadline
    ensures AdmittedUntil(history, i, deadline) >= j - i
    decreases j - i
  {
    if i < j {
      AllWithinAreCounted(history, i + 1, j, deadline);
    }
  }

  /** Bounded memory is enough: if fewer than `cacheSize + 1` commands are admitted in the
      `maxAge + maxSkew` seconds after a command (fewer than `cacheSize` besides a repetition),
      that identical command is never admitted a second time. */
  lemma NeverAdmittedTwice(p: FreshnessPolicy, history: seq<Admission>, i: nat, j: nat)
    requires Reachable(p, history) && i < j < |history|
    requires AdmittedUntil(history, i, history[i].at + p.maxAge + p.maxSkew) <= p.cacheSize
    ensures history[j].envelope != history[i].envelope
  {
    hide Reachable;
    if history[j].envelope == history[i].envelope {
      ReadmissionNeedsEviction(p, history, i, j);
      AllWithinAreCounted(history, i, j, history[i].at + p.maxAge + p.maxSkew);
    }
  }

  /** `n` different commands at time 0, numbered from 1. */
  function Burst(n: nat): (h: seq<Admission>)
    ensures |h| == n
    ensures forall k :: 0 <= k < n ==> h[k] == Admission(Envelope(k, 0.0, 1.0), 0.0)
  {
    if n == 0 then [] else Burst(n - 1) + [Admission(Envelope(n - 1, 0.0, 1.0), 0.0)]
  }

  lemma LastOnlyDrops<T>(s: seq<T>, n: nat, x: T)
    requires x !in s
    ensures x !in Last(s, n)
  {
  }

  lemma BurstAdmitsTheNext(p: FreshnessPolicy, n: nat)
    requires p.maxAge >= 0.0 && p.maxSkew >= 0.0
    ensures Admissible(p, Burst(n), Envelope(n, 0.0, 1.0), 0.0)
  {
    LastOnlyDrops(Ids(Burst(n)), p.cacheSize, n);
  }

  lemma {:induction false} BurstIsReachable(p: FreshnessPolicy, n: nat)
    requires p.maxAge >= 0.0 && p.maxSkew >= 0.0
    ensures Reachable(p, Burst(n))
  {
    if n == 0 {
      assert Burst(0) == [];
    } else {
      BurstIsReachable(p, n - 1);
      BurstAdmitsTheNext(p, n - 1);
      BurstExtends(p, Burst(n - 1), n - 1);
    }
  }

  lemma BurstExtends(p: FreshnessPolicy, h: seq<Admission>, n: nat)
    requires h == Burst(n) && Reachable(p, h) && Admissible(p, h, Envelope(n, 0.0, 1.0), 0.0)
    ensures Reachable(p, Burst(n + 1))
  {
    hide Reachable, Admissible;
    ReachableExtends(p, h, Envelope(n, 0.0, 1.0), 0.0);
    assert Burst(n + 1) == h + [Admission(Envelope(n, 0.0, 1.0), 0.0)];
  }

  lemma FirstIsEvicted(n: nat)
    ensures 0 !in Last(Ids(Burst(n + 1)), n)
  {
    hide Burst, Ids;
    var remembered := Last(Ids(Burst(n + 1)), n);
    assert forall k :: 0 <= k < n ==> remembered[k] == k + 1;
  }

  lemma FirstIsAdmittedAgain(p: FreshnessPolicy)
    requires p.maxAge >= 0.0 && p.maxSkew >= 0.0
    ensures Admissible(p, Burst(p.cacheSize + 1), Envelope(0, 0.0, 1.0), 0.0)
  {
    hide Burst, Ids, Last;
    FirstIsEvicted(p.cacheSize);
  }

  /** The bound is tight: after `cacheSize` others, the identical command is admitted again. */
  lemma ReplayAfterEviction(p: FreshnessPolicy)
    requires p.maxAge >= 0.0 && p.maxSkew >= 0.0
    ensures var e := Envelope(0, 0.0, 1.0);
            var h := Burst(p.cacheSize + 1) + [Admission(e, 0.0)];
            Reachable(p, h) && h[0].envelope == h[p.cacheSize + 1].envelope
  {
    hide Reachable, Admissible, Burst;
    BurstIsReachable(p, p.cacheSize + 1);
    FirstIsAdmittedAgain(p);
    ReachableExtends(p, Burst(p.cacheSize + 1), Envelope(0, 0.0, 1.0), 0.0);
  }
}

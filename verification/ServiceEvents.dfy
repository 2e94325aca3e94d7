/** Service interruptions and restorations read off a solved plan, trip by trip, and the accounting
    of unmet service built on them. */
module ServiceEvents {
  import opened Prelude

  // ---------------------------------------------------------------- reference: drops and rises

  /** Positions where coverage is lost. */
  function Drops(c: seq<bool>): seq<nat> {
    if |c| <= 1 then []
    else Drops(c[..|c| - 1]) + if c[|c| - 2] && !c[|c| - 1] then [|c| - 1] else []
  }

  /** Positions where coverage comes back. */
  function Rises(c: seq<bool>): seq<nat> {
    if |c| <= 1 then []
    else Rises(c[..|c| - 1]) + if !c[|c| - 2] && c[|c| - 1] then [|c| - 1] else []
  }

  function One(b: bool): int {
    if b then 1 else 0
  }

  lemma {:induction false} EventsLieInside(c: seq<bool>)
    ensures forall k :: 0 <= k < |Drops(c)| ==> 0 < Drops(c)[k] < |c|
    ensures forall k :: 0 <= k < |Rises(c)| ==> 0 < Rises(c)[k] < |c|
  {
    if |c| > 1 {
      EventsLieInside(c[..|c| - 1]);
    }
  }

  /** Losses minus returns is the first coverage minus the last. */
  lemma {:induction false} DropsMinusRises(c: seq<bool>)
    requires c != []
    ensures |Drops(c)| - |Rises(c)| == One(c[0]) - One(c[|c| - 1])
  {
    if |c| > 1 {
      DropsMinusRises(c[..|c| - 1]);
    }
  }

  /** Losses and returns strictly alternate, beginning with a loss exactly when the trip starts covered. */
  ghost predicate Alternate(first: seq<nat>, second: seq<nat>) {
    && |second| <= |first| <= |second| + 1
    && (forall k :: 0 <= k < |second| ==> first[k] < second[k])
    && (forall k :: 0 < k < |first| ==> second[k - 1] < first[k])
  }

  lemma {:induction false} EventsAlternate(c: seq<bool>)
    requires c != []
    ensures if c[0] then Alternate(Drops(c), Rises(c)) else Alternate(Rises(c), Drops(c))
  {
    if |c| > 1 {
      var before := c[..|c| - 1];
      EventsAlternate(before);
      EventsLieInside(before);
      DropsMinusRises(before);
    }
  }

  // ---------------------------------------------------------------- extraction

  type BusId = int

  /** The coverage of the active steps, in order. */
  function CoverageOf(served: seq<Option<BusId>>, start: nat, end: nat): (c: seq<bool>)
    requires start <= end <= |served|
    ensures |c| == end - start
    ensures forall k :: 0 <= k < end - start ==> c[k] == served[start + k].Some?
  {
    if start == end then [] else CoverageOf(served, start, end - 1) + [served[end - 1].Some?]
  }

  lemma NothingCovered(served: seq<Option<BusId>>, start: nat)
    requires start <= |served|
    ensures CoverageOf(served, start, start) == []
  {
  }

  lemma OneMoreCovered(served: seq<Option<BusId>>, start: nat, t: nat)
    requires start <= t < |served|
    ensures CoverageOf(served, start, t + 1) == CoverageOf(served, start, t) + [served[t].Some?]
  {
  }

  function Shift(s: seq<nat>, offset: nat): (r: seq<nat>)
    ensures |r| == |s| && forall k :: 0 <= k < |s| ==> r[k] == s[k] + offset
  {
    if s == [] then [] else Shift(s[..|s| - 1], offset) + [s[|s| - 1] + offset]
  }

  function CountFalse(c: seq<bool>): nat {
    if c == [] then 0 else CountFalse(c[..|c| - 1]) + if c[|c| - 1] then 0 else 1
  }

  /** Steps where service is interrupted and restored, with the bus that left and the bus that took over. */
  datatype TripEvents = TripEvents(interruptions: seq<nat>, leaving: seq<Option<BusId>>, restorations: seq<nat>, arriving: seq<Option<BusId>>,
                                   unmetSteps: nat, flaggedUnserved: bool)

  /** Each event names the bus serving at its step, shifted by `back`. */
  ghost predicate Names(served: seq<Option<BusId>>, at: seq<nat>, buses: seq<Option<BusId>>, back: nat) {
    && |at| == |buses|
    && forall k {:trigger buses[k]} :: 0 <= k < |at| ==> back <= at[k] < |served| + back && buses[k] == served[at[k] - back] && buses[k].Some?
  }

  lemma OneMoreName(served: seq<Option<BusId>>, at: seq<nat>, buses: seq<Option<BusId>>, back: nat, t: nat)
    requires Names(served, at, buses, back) && back <= t < |served| + back && served[t - back].Some?
    ensures Names(served, at + [t], buses + [served[t - back]], back)
  {
    var moreAt, moreBuses := at + [t], buses + [served[t - back]];
    forall k | 0 <= k < |moreAt|
      ensures back <= moreAt[k] < |served| + back && moreBuses[k] == served[moreAt[k] - back] && moreBuses[k].Some?
    {
      if k < |at| {
        assert moreBuses[k] == buses[k] && moreAt[k] == at[k];
      }
    }
  }

  /** No bus, or a bus with identifier 0, which the truth test of the source takes for none. */
  predicate Unserved(bus: Option<BusId>) {
    bus.None? || bus.value == 0
  }

  ghost predicate SomeUnserved(served: seq<Option<BusId>>, start: nat, end: nat) {
    exists t :: start <= t < end && t < |served| && Unserved(served[t])
  }

  lemma OneMoreUnserved(served: seq<Option<BusId>>, start: nat, t: nat)
    requires start <= t < |served|
    ensures SomeUnserved(served, start, t + 1) <==> SomeUnserved(served, start, t) || Unserved(served[t])
  {
    hide Unserved;
    assert start <= t < t + 1;
  }

  lemma NoneUnserved(served: seq<Option<BusId>>, start: nat)
    ensures !SomeUnserved(served, start, start)
  {
  }

  /** One trip over the horizon: `served[t]` is the bus serving it at step t, and it is active on
      [start, end). Coverage outside the window is unknown, so nothing happens at its edges; a bus
      whose identifier is 0 counts as covering but still flags the trip as unserved. */
  method ExtractTrip(served: seq<Option<BusId>>, start: nat, end: nat) returns (r: TripEvents)
    requires start <= end <= |served|
    ensures var c := CoverageOf(served, start, end);
            && r.interruptions == Shift(Drops(c), start)
            && r.restorations == Shift(Rises(c), start)
            && r.unmetSteps == CountFalse(c)
    ensures Names(served, r.interruptions, r.leaving, 1) && Names(served, r.restorations, r.arriving, 0)
    ensures r.flaggedUnserved <==> SomeUnserved(served, start, end)
  {
    hide Drops, Rises, Shift, CountFalse, Names, Unserved, SomeUnserved, CoverageOf;
    NothingNamed(served);
    NoneUnserved(served, start);
    var interruptions: seq<nat>, restorations: seq<nat> := [], [];
    var leaving: seq<Option<BusId>>, arriving: seq<Option<BusId>> := [], [];
    var previousBus: Option<Option<BusId>> := None;
    var unmet, flagged := 0, false;
    var previous: Option<Option<bool>> := None;
    ghost var c: seq<bool> := [];
    NothingHappenedYet(start);
    NothingCovered(served, start);
    for t := 0 to |served|
      invariant c == CoverageOf(served, start, Clamp(t, start, end))
      invariant previous == if t == 0 then None else Some(if start <= t - 1 < end then Some(c[|c| - 1]) else None)
      invariant interruptions == Shift(Drops(c), start) && restorations == Shift(Rises(c), start) && unmet == CountFalse(c)
      invariant t > 0 && start <= t - 1 < end ==> previousBus == Some(served[t - 1])
      invariant Names(served, interruptions, leaving, 1) && Names(served, restorations, arriving, 0)
      invariant flagged <==> SomeUnserved(served, start, Clamp(t, start, end))
    {
      var isActive := start <= t < end;
      var covered := if isActive then Some(served[t].Some?) else None;
      if isActive && Unserved(served[t]) {
        flagged := true;
      }
      var prior, priorBus := previous.GetOr(covered), previousBus.GetOr(served[t]);
      if isActive {
        OneMoreStep(c, served[t].Some?, start);
        OneMoreUnserved(served, start, t);
        OneMoreCovered(served, start, t);
        c := c + [served[t].Some?];
      }
      if prior == Some(true) && covered == Some(false) {
        OneMoreName(served, interruptions, leaving, 1, t);
        interruptions, leaving := interruptions + [t], leaving + [priorBus];
      }
      if prior == Some(false) && covered == Some(true) {
        OneMoreName(served, restorations, arriving, 0, t);
        restorations, arriving := restorations + [t], arriving + [served[t]];
      }
      if covered == Some(false) {
        unmet := unmet + 1;
      }
      previous, previousBus := Some(covered), Some(if isActive then served[t] else priorBus);
    }
    r := TripEvents(interruptions, leaving, restorations, arriving, unmet, flagged);
  }

  /** How far into the window the scan has come. */
  function Clamp(t: nat, start: nat, end: nat): nat
    requires start <= end
  {
    if t <= start then start else if t <= end then t else end
  }

  lemma NothingNamed(served: seq<Option<BusId>>)
    ensures Names(served, [], [], 1) && Names(served, [], [], 0)
  {
  }

  lemma NothingHappenedYet(start: nat)
    ensures Shift(Drops([]), start) == [] && Shift(Rises([]), start) == [] && CountFalse([]) == 0
  {
  }

  lemma ShiftOneMore(s: seq<nat>, x: nat, offset: nat)
    ensures Shift(s + [x], offset) == Shift(s, offset) + [x + offset] && s + [] == s
  {
    assert (s + [x])[..|s|] == s;
  }

  lemma OneMoreDrop(c: seq<bool>, b: bool)
    ensures Drops(c + [b]) == Drops(c) + if c != [] && c[|c| - 1] && !b then [|c|] else []
  {
    assert (c + [b])[..|c|] == c;
  }

  lemma OneMoreRise(c: seq<bool>, b: bool)
    ensures Rises(c + [b]) == Rises(c) + if c != [] && !c[|c| - 1] && b then [|c|] else []
  {
    assert (c + [b])[..|c|] == c;
  }

  lemma OneMoreCount(c: seq<bool>, b: bool)
    ensures CountFalse(c + [b]) == CountFalse(c) + if b then 0 else 1
  {
    assert (c + [b])[..|c|] == c;
  }

  lemma OneMoreStep(c: seq<bool>, b: bool, start: nat)
    ensures Shift(Drops(c + [b]), start) == Shift(Drops(c), start) + if c != [] && c[|c| - 1] && !b then [start + |c|] else []
    ensures Shift(Rises(c + [b]), start) == Shift(Rises(c), start) + if c != [] && !c[|c| - 1] && b then [start + |c|] else []
    ensures CountFalse(c + [b]) == CountFalse(c) + if b then 0 else 1
  {
    hide Drops, Rises, Shift, CountFalse;
    OneMoreCount(c, b);
    OneMoreDrop(c, b);
    OneMoreRise(c, b);
    ShiftOneMore(Drops(c), |c|, start);
    ShiftOneMore(Rises(c), |c|, start);
  }

  lemma {:induction false} CountFalseZero(c: seq<bool>)
    ensures CountFalse(c) == 0 <==> forall k :: 0 <= k < |c| ==> c[k]
  {
    if c != [] {
      CountFalseZero(c[..|c| - 1]);
      assert c == c[..|c| - 1] + [c[|c| - 1]];
    }
  }

  /** A trip is flagged as unserved exactly when it has unmet steps or is served by a bus whose
      identifier is 0; with nonzero identifiers the two accounts agree. */
  lemma FlaggedIffUnmet(served: seq<Option<BusId>>, start: nat, end: nat)
    requires start <= end <= |served|
    ensures SomeUnserved(served, start, end)
       <==> CountFalse(CoverageOf(served, start, end)) > 0 || exists t :: start <= t < end && served[t] == Some(0)
  {
    var c := CoverageOf(served, start, end);
    CountFalseZero(c);
    if k :| 0 <= k < |c| && !c[k] {
      assert served[start + k].None?;
    }
    if t :| start <= t < end && served[t].None? {
      assert !c[t - start];
    }
  }

  // ---------------------------------------------------------------- all trips together

  datatype TripPlan = TripPlan(served: seq<Option<BusId>>, start: nat, end: nat) {
    predicate Valid() {
      start <= end <= |served|
    }

    ghost predicate Flagged() {
      SomeUnserved(served, start, end)
    }
  }

  /** Uncovered steps, over all trips. */
  function UnmetDuration(trips: seq<TripPlan>): nat
    requires forall k :: 0 <= k < |trips| ==> trips[k].Valid()
  {
    if trips == [] then 0
    else
      var last := trips[|trips| - 1];
      assert last.Valid();
      UnmetDuration(trips[..|trips| - 1]) + CountFalse(CoverageOf(last.served, last.start, last.end))
  }

  /** Trips flagged as unserved. */
  ghost function UnmetCount(trips: seq<TripPlan>): nat {
    if trips == [] then 0 else UnmetCount(trips[..|trips| - 1]) + if trips[|trips| - 1].Flagged() then 1 else 0
  }

  /** With nonzero bus identifiers the two published totals are zero together. */
  lemma {:induction false} UnmetCountIsZeroIffDurationIs(trips: seq<TripPlan>)
    requires forall k :: 0 <= k < |trips| ==> trips[k].Valid()
    requires forall k, t :: 0 <= k < |trips| && 0 <= t < |trips[k].served| ==> trips[k].served[t] != Some(0)
    ensures UnmetCount(trips) == 0 <==> UnmetDuration(trips) == 0
  {
    if trips != [] {
      hide CountFalse, CoverageOf;
      var last := trips[|trips| - 1];
      UnmetCountIsZeroIffDurationIs(trips[..|trips| - 1]);
      FlaggedIffUnmet(last.served, last.start, last.end);
    }
  }
}

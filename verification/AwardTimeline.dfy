/**
 Schedules in time. Each run of the job reads the check-ins there are when it starts, so no two runs
 need see the same ones; over witnesses that had closed before the check-ins a run sees beyond the
 first one's, the outcome is still that of one fixed set of check-ins.
 */
module AwardTimeline {
  import opened Calendar
  import opened CampaignRules
  import opened PointsLedger
  import opened AwardPlanner
  import opened AwardSchedule

  /** A run together with the check-ins and the window it read. */
  datatype TimedRun = TimedRun(run: Run, world: World)

  function AfterTimedRuns(ledger: seq<Row>, runs: seq<TimedRun>): seq<Row>
    decreases |runs|
  {
    if runs == [] then ledger
    else AfterTimedRuns(AfterRun(ledger, runs[0].run, runs[0].world), runs[1..])
  }

  function Untimed(runs: seq<TimedRun>): (rs: seq<Run>)
    ensures |rs| == |runs| && forall i :: 0 <= i < |runs| ==> rs[i] == runs[i].run
  {
    seq(|runs|, i requires 0 <= i < |runs| => runs[i].run)
  }

  /** `later` has the same window, and beyond `world` only check-ins of the witness's own day or after it. */
  ghost predicate SeesOnlyLater(c: Candidate, world: World, later: World) {
    var w := Lower(c.address);
    && world.window == later.window
    && DaysOf(world, w) <= DaysOf(later, w)
    && forall d :: d in DaysOf(later, w) - DaysOf(world, w) ==>
      IsCivil(d) && DayNumber(d) >= DayNumber(UtcDay(c.closedAtMs))
  }

  /** What a world says of one witness: its row and whether it is inside the window. */
  predicate SameAward(c: Candidate, a: World, b: World) {
    a.window == b.window && AwardRow(c, a) == AwardRow(c, b)
  }

  lemma DecidesAlike(c: Candidate, counted: int, a: World, b: World)
    requires SameAward(c, a, b)
    ensures Decide(c, counted, a) == Decide(c, counted, b)
  {
    hide StreakFor, UtcDay, StreakMultiplier, PointsFor;
  }

  lemma {:induction false} AwardsAlike(cs: seq<Candidate>, counts: Counts, a: World, b: World)
    requires forall c :: c in cs ==> SameAward(c, a, b)
    ensures Awards(cs, counts, a) == Awards(cs, counts, b)
  {
    hide Decide, SameAward;
    if cs != [] {
      var key := KeyOf(cs[0]);
      DecidesAlike(cs[0], Get(counts, key), a, b);
      AwardsAlike(cs[1..], counts, a, b);
      AwardsAlike(cs[1..], Bump(counts, key, 1), a, b);
    }
  }

  lemma {:induction false} CandidatesAlike(witnesses: seq<Candidate>, ledger: seq<Row>, a: World, b: World)
    requires a.window == b.window
    ensures CandidatesOf(witnesses, ledger, a) == CandidatesOf(witnesses, ledger, b)
  {
    if witnesses != [] {
      CandidatesAlike(witnesses[1..], ledger, a, b);
    }
  }

  lemma RunAlike(ledger: seq<Row>, run: Run, a: World, b: World)
    requires a.window == b.window && forall c :: c in run.witnesses ==> SameAward(c, a, b)
    ensures AfterRun(ledger, run, a) == AfterRun(ledger, run, b)
  {
    hide Awards, SameAward, CandidatesOf, CountsOf, RowOfAward;
    CandidatesAlike(run.witnesses, ledger, a, b);
    CandidatesAreUnrecorded(run.witnesses, ledger, [], a);
    AwardsAlike(CandidatesOf(run.witnesses, ledger, a), CountsOf(ledger), a, b);
  }

  lemma {:induction false} TimedRunsAlike(ledger: seq<Row>, runs: seq<TimedRun>, world: World)
    requires forall r :: r in runs ==>
               r.world.window == world.window && forall c :: c in r.run.witnesses ==> SameAward(c, world, r.world)
    ensures AfterTimedRuns(ledger, runs) == AfterRuns(ledger, Untimed(runs), world)
    decreases |runs|
  {
    hide AfterRun, SameAward;
    if runs != [] {
      var r := runs[0];
      assert r in runs;
      forall c | c in r.run.witnesses ensures SameAward(c, r.world, world) {
        SameAwardBack(c, world, r.world);
      }
      RunAlike(ledger, r.run, r.world, world);
      assert Untimed(runs)[1..] == Untimed(runs[1..]);
      TimedRunsAlike(AfterRun(ledger, r.run, world), runs[1..], world);
    }
  }

  lemma SameAwardBack(c: Candidate, a: World, b: World)
    requires SameAward(c, a, b)
    ensures SameAward(c, b, a)
  {
  }

  lemma LaterCheckinsSameAward(c: Candidate, world: World, later: World)
    requires SeesOnlyLater(c, world, later)
    ensures SameAward(c, world, later)
  {
    hide DayNumber, IsCivil, AwardRow;
    AwardIsTimeIndependent(c, world, later);
  }

  /**
   Schedule independence in time: runs that each read their own check-ins, in any orders, splits and
   crashes, give every (wallet, kind, day) the awards and the points that one run over the check-ins
   at the witnesses' close would give.
   */
  lemma ScheduleIndependenceInTime(all: set<Candidate>, ledger: seq<Row>, runs: seq<TimedRun>, key: Selector,
                                   world: World)
    requires UniqueTx(all) && IsSchedule(Untimed(runs), all) && forall c :: c in all ==> IsCovered(Untimed(runs), c)
    requires forall r :: r in runs ==>
               r.world.window == world.window && forall c :: c in r.run.witnesses ==> SeesOnlyLater(c, world, r.world)
    requires key.ActionsOn? && IsCivil(key.on)
    ensures var final := AfterTimedRuns(ledger, runs);
            var gained := Min(|Pending(all, ledger, key, world)|, Room(RuleOf(key.kind).dailyCap, Count(ledger, key)));
            && Count(final, key) == Count(ledger, key) + gained
            && Sum(final, key) == Sum(ledger, key) + gained * PointsPerAward(key, world)
  {
    hide SeesOnlyLater, SameAward, AfterTimedRuns, AfterRuns, Pending, Count, Sum, PointsPerAward, IsCivil, IsCovered,
         IsSchedule, UniqueTx;
    forall r, c | r in runs && c in r.run.witnesses ensures SameAward(c, world, r.world) {
      LaterCheckinsSameAward(c, world, r.world);
    }
    TimedRunsAlike(ledger, runs, world);
    ScheduleIndependence(all, ledger, Untimed(runs), key, world);
  }
}

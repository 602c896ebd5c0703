/**
 When a late check-in changes an award. The streak that multiplies day D is the one ending on D-1; a
 check-in of D-1 or earlier that commits during D can still lengthen it.
 */
module LateCheckin {
  import opened Wrappers
  import opened Calendar
  import opened CampaignRules
  import opened PointsLedger
  import opened Campaign
  import opened CampaignHistory
  import opened CheckinConcurrency
  import opened AwardPlanner
  import opened AwardSchedule
  import opened AwardDeterminism
  import opened StreakView

  // ---- The exact condition ----

  lemma MoreDaysMoreStreak(days: set<Civil>, extra: set<Civil>, day: Civil)
    requires IsCivil(day)
    ensures StreakBefore(days, day) <= StreakBefore(days + extra, day)
  {
    hide DayNumber, PreviousUtcDay, IsCivil, DaysAgo, StreakOn;
    DaysAgoSteps(day, 0);
    var prev := PreviousUtcDay(day);
    var n, m := StreakBefore(days, day), StreakBefore(days + extra, day);
    StreakIsLongestRun(days, prev, n);
    StreakIsLongestRun(days + extra, prev, m);
  }

  /** Two streaks earn the same multiplier only when they are equal or both at the cap. */
  lemma SameMultiplier(a: nat, b: nat)
    requires a <= b
    ensures StreakMultiplier(a) == StreakMultiplier(b) <==> a == b || a >= STREAK_DAYS_TO_CAP
  {
    assert STREAK_DAYS_TO_CAP == 7;
  }

  /**
   Extra check-ins leave the multiplier of a day alone if and only if none of them fills the first gap
   before it, or the streak up to that gap already earns the cap.
   */
  lemma MultiplierChangesExactly(days: set<Civil>, extra: set<Civil>, day: Civil)
    requires IsCivil(day)
    ensures var n := StreakBefore(days, day);
            StreakMultiplier(StreakBefore(days + extra, day)) == StreakMultiplier(n)
            <==> DaysAgo(day, 1 + n) !in extra || n >= STREAK_DAYS_TO_CAP
  {
    hide DayNumber, IsCivil, StreakBefore, StreakMultiplier, DaysAgo;
    MoreDaysMoreStreak(days, extra, day);
    StreakBeforeChangesOnlyAtTheGap(days, extra, day);
    SameMultiplier(StreakBefore(days, day), StreakBefore(days + extra, day));
  }

  /** The first day before the witness's own on which its wallet has no check-in. */
  function FirstGap(c: Candidate, days: set<Civil>): Civil {
    var day := UtcDay(c.closedAtMs);
    DaysAgo(day, 1 + StreakBefore(days, day))
  }

  /**
   The ledger row of a witness is the same in two worlds, the later one with more check-ins, if and
   only if the first gap is still open or the streak up to it already earns the cap.
   */
  lemma AwardChangesExactly(c: Candidate, world: World, later: World)
    requires DaysOf(world, Lower(c.address)) <= DaysOf(later, Lower(c.address))
    ensures var days := DaysOf(world, Lower(c.address));
            AwardRow(c, later) == AwardRow(c, world)
            <==> FirstGap(c, days) !in DaysOf(later, Lower(c.address))
                 || StreakBefore(days, UtcDay(c.closedAtMs)) >= STREAK_DAYS_TO_CAP
  {
    hide DayNumber, IsCivil, StreakBefore, StreakMultiplier, DaysAgo, UtcDay, PointsFor;
    var w := Lower(c.address);
    var days, day := DaysOf(world, w), UtcDay(c.closedAtMs);
    var extra := DaysOf(later, w) - days;
    assert days + extra == DaysOf(later, w);
    assert IsCivil(day) by { DayIsCivil(c.closedAtMs); }
    GapIsOpen(days, day);
    MultiplierChangesExactly(days, extra, day);
  }

  lemma DayIsCivil(ms: int)
    ensures IsCivil(UtcDay(ms)) && DayNumber(UtcDay(ms)) == ms / MS_PER_DAY
  {
  }

  lemma GapIsOpen(days: set<Civil>, day: Civil)
    requires IsCivil(day)
    ensures DaysAgo(day, 1 + StreakBefore(days, day)) !in days
  {
    hide DayNumber, PreviousUtcDay, IsCivil, DaysAgo, StreakOn;
    var n := StreakBefore(days, day);
    DaysAgoSteps(day, n);
    StreakIsLongestRun(days, PreviousUtcDay(day), n);
  }

  // ---- Over interleavings ----

  lemma {:induction false} CheckinsOnlyGrow(s: System, steps: seq<Step>)
    ensures s.checkins <= Steps(s, steps).checkins
    decreases |steps|
  {
    hide DoStep;
    if steps != [] {
      StepOnlyGrows(s, steps[0]);
      CheckinsOnlyGrow(DoStep(s, steps[0]), steps[1..]);
    }
  }

  lemma StepOnlyGrows(s: System, step: Step)
    ensures s.checkins <= DoStep(s, step).checkins
  {
    hide FindEnrollment, FindEnrollmentByCode, Conflicts, StreakRow, UtcDay, InsertIdempotent, WrittenInFlight;
  }

  lemma DaysOfPrefix(a: seq<(string, Civil)>, b: seq<(string, Civil)>, wallet: string)
    requires a <= b
    ensures CheckinDaysOf(a, wallet) <= CheckinDaysOf(b, wallet)
  {
    forall d | d in CheckinDaysOf(a, wallet) ensures d in CheckinDaysOf(b, wallet) {
      var i :| 0 <= i < |a| && Lower(a[i].0) == wallet && a[i].1 == d;
      assert b[i] == a[i];
    }
  }

  /**
   For every interleaving: a later run of the job writes the same row for a witness if and only if no
   check-in committed in between filled the first gap before it, or the cap was reached already.
   */
  lemma InterleavingChangesAwardExactly(s: System, steps: seq<Step>, c: Candidate, window: Window)
    ensures var days := CheckinDaysOf(s.checkins, Lower(c.address));
            AwardRow(c, WorldOf(Steps(s, steps).checkins, window)) == AwardRow(c, WorldOf(s.checkins, window))
            <==> FirstGap(c, days) !in CheckinDaysOf(Steps(s, steps).checkins, Lower(c.address))
                 || StreakBefore(days, UtcDay(c.closedAtMs)) >= STREAK_DAYS_TO_CAP
  {
    hide AwardRow, FirstGap, StreakBefore, UtcDay, WorldOf, DaysOf, CheckinDaysOf, Steps;
    var t := Steps(s, steps);
    CheckinsOnlyGrow(s, steps);
    DaysOfWorld(s.checkins, window, Lower(c.address));
    DaysOfWorld(t.checkins, window, Lower(c.address));
    DaysOfPrefix(s.checkins, t.checkins, Lower(c.address));
    AwardChangesExactly(c, WorldOf(s.checkins, window), WorldOf(t.checkins, window));
  }

  /** The gap lies before the witness's day and holds no check-in yet. */
  lemma GapIsEarlier(c: Candidate, days: set<Civil>)
    ensures FirstGap(c, days) !in days
    ensures IsCivil(FirstGap(c, days)) && DayNumber(FirstGap(c, days)) < c.closedAtMs / MS_PER_DAY
  {
    hide DayNumber, IsCivil, StreakBefore, UtcDay;
    DayIsCivil(c.closedAtMs);
    GapIsOpen(days, UtcDay(c.closedAtMs));
    DaysAgoIsCivil(UtcDay(c.closedAtMs), 1 + StreakBefore(days, UtcDay(c.closedAtMs)));
  }

  // ---- The failing run ----

  /**
   A swap that closes in the first millisecond of a day earns 50 points if the job runs before the
   wallet's check-in of the evening before commits, and 53 if it runs after.
   */
  lemma LateCheckinChangesAnAward(e: Enrollment, nowMs: int, txHash: string, window: Window)
    requires nowMs % MS_PER_DAY == MS_PER_DAY - 1
    ensures var c := Candidate(txHash, e.address, SdexSwap, true, nowMs + 1);
            var before := Steps(NOTHING.(nowMs := nowMs), BeginsBeforeMidnight(e));
            var after := Steps(before, REST_OF_CHECKIN);
            && c.closedAtMs <= before.nowMs
            && AwardRow(c, WorldOf(before.checkins, window)).points == 50
            && AwardRow(c, WorldOf(after.checkins, window)).points == 53
  {
    hide Steps, UtcDay, AwardRow, WorldOf;
    CheckinMayCommitTheNextDay(e, nowMs);
    var c := Candidate(txHash, e.address, SdexSwap, true, nowMs + 1);
    var day := UtcDay(nowMs);
    EveningBefore(nowMs);
    NoStreakYet(UtcDay(nowMs + 1));
    SwapPays(c, [], window, 0);
    OneCheckinDay(e.address, day);
    OneDayStreak(day, UtcDay(nowMs + 1));
    SwapPays(c, [(e.address, day)], window, 1);
  }

  lemma EveningBefore(nowMs: int)
    requires nowMs % MS_PER_DAY == MS_PER_DAY - 1
    ensures IsCivil(UtcDay(nowMs + 1)) && PreviousUtcDay(UtcDay(nowMs + 1)) == UtcDay(nowMs)
  {
    hide PreviousUtcDay, CivilOf, DayNumber, IsCivil;
    NextMillisecondIsNextDay(nowMs);
    var next := UtcDay(nowMs + 1);
    DayIsCivil(nowMs + 1);
    DayIsCivil(nowMs);
    PreviousUtcDayIsPredecessor(next);
    DayNumberRoundTrip(PreviousUtcDay(next));
    DayNumberRoundTrip(UtcDay(nowMs));
  }

  lemma OneCheckinDay(address: string, day: Civil)
    ensures CheckinDaysOf([(address, day)], Lower(address)) == {day} && CheckinDaysOf([], Lower(address)) == {}
  {
    var checkins := [(address, day)];
    assert checkins[0].1 == day && Lower(checkins[0].0) == Lower(address);
  }

  lemma NoStreakYet(day: Civil)
    requires IsCivil(day)
    ensures StreakBefore({}, day) == 0
  {
    hide PreviousUtcDay, IsCivil, DayNumber;
  }

  lemma OneDayStreak(day: Civil, next: Civil)
    requires IsCivil(next) && PreviousUtcDay(next) == day
    ensures StreakBefore({day}, next) == 1
  {
    hide PreviousUtcDay, CivilOf, DayNumber, IsCivil;
    PreviousUtcDayIsPredecessor(next);
    PreviousUtcDayIsPredecessor(day);
    assert PreviousUtcDay(day) != day;
    NoMoreDays(day);
  }

  lemma NoMoreDays(day: Civil)
    requires IsCivil(day) && IsCivil(PreviousUtcDay(day)) && PreviousUtcDay(day) != day
    ensures StreakOn({day}, day) == 1
  {
    hide PreviousUtcDay, DayNumber, IsCivil;
    assert StreakOn({day}, PreviousUtcDay(day)) == 0;
  }

  lemma SwapPays(c: Candidate, checkins: seq<(string, Civil)>, window: Window, streak: nat)
    requires c.kind == SdexSwap && IsCivil(UtcDay(c.closedAtMs))
    requires StreakBefore(CheckinDaysOf(checkins, Lower(c.address)), UtcDay(c.closedAtMs)) == streak && streak <= 1
    ensures AwardRow(c, WorldOf(checkins, window)).points == if streak == 0 then 50 else 53
  {
    hide StreakBefore, UtcDay, WorldOf, CheckinDaysOf, IsCivil;
    DaysOfWorld(checkins, window, Lower(c.address));
  }
}

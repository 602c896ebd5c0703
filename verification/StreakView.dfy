/**
 The streak as a wallet sees it: the ladder of multipliers, the current streak, the days left to the
 cap and the strip of the last seven days. What is shown is what the award job pays.
 */
module StreakView {
  import opened Wrappers
  import opened Calendar
  import opened CampaignRules
  import opened PointsLedger
  import opened AwardPlanner
  import opened AwardSchedule

  /** The streak length at which the ramp reaches its cap, rounded up. */
  const STREAK_DAYS_TO_CAP: nat := (RAMP_CAP_HUNDREDTHS - 100 + RAMP_STEP_HUNDREDTHS - 1) / RAMP_STEP_HUNDREDTHS

  datatype Rung = Rung(days: nat, multiplier: int)

  /** One day more is one step more, until the cap, which is reached at STREAK_DAYS_TO_CAP and no earlier. */
  lemma RampLaw(days: nat)
    ensures StreakMultiplier(days) == RAMP_CAP_HUNDREDTHS <==> days >= STREAK_DAYS_TO_CAP
    ensures days < STREAK_DAYS_TO_CAP ==> StreakMultiplier(days + 1) == StreakMultiplier(days) + RAMP_STEP_HUNDREDTHS
    ensures StreakMultiplier(0) == 100 && StreakMultiplier(days) <= StreakMultiplier(days + 1)
  {
    assert STREAK_DAYS_TO_CAP == 7;
  }

  /** streakLadder: one rung per streak length, strictly rising, the last one at the cap. */
  method StreakLadder() returns (ladder: seq<Rung>)
    ensures |ladder| == STREAK_DAYS_TO_CAP
    ensures forall i :: 0 <= i < |ladder| ==> ladder[i] == Rung(i + 1, StreakMultiplier(i + 1))
    ensures forall i, j :: 0 <= i < j < |ladder| ==> ladder[i].multiplier < ladder[j].multiplier
    ensures ladder != [] && ladder[|ladder| - 1].multiplier == RAMP_CAP_HUNDREDTHS
  {
    ladder := [];
    var days := 1;
    while days <= STREAK_DAYS_TO_CAP
      invariant 1 <= days <= STREAK_DAYS_TO_CAP + 1 && |ladder| == days - 1
      invariant forall i :: 0 <= i < |ladder| ==> ladder[i] == Rung(i + 1, StreakMultiplier(i + 1))
    {
      ladder := ladder + [Rung(days, StreakMultiplier(days))];
      days := days + 1;
    }
    assert STREAK_DAYS_TO_CAP == 7;
  }

  datatype DayBox = DayBox(day: Civil, checkedIn: bool, multiplier: int)

  datatype View = View(current: nat, multiplierForToday: int, daysToCap: nat, last7: seq<DayBox>)

  function BoxOf(days: set<Civil>, day: Civil): DayBox
    requires IsCivil(day)
  {
    DayBox(day, day in days, StreakMultiplier(StreakBefore(days, day)))
  }

  /** The box of `k` days ago: whether that day is checked in, and the multiplier of the streak up to the day before. */
  ghost predicate IsBoxOf(box: DayBox, days: set<Civil>, today: Civil, k: nat)
    requires IsCivil(today)
  {
    && box.day == DaysAgo(today, k) && (box.checkedIn <==> box.day in days)
    && var streak := StreakOn(days, DaysAgo(today, k + 1));
       box.multiplier == if streak >= 7 then 135 else 100 + 5 * streak
  }

  lemma BoxInPlainTerms(days: set<Civil>, today: Civil, k: nat)
    requires IsCivil(today)
    ensures IsCivil(DaysAgo(today, k)) && IsBoxOf(BoxOf(days, DaysAgo(today, k)), days, today, k)
  {
    hide DayNumber, CivilOf, IsCivil, PreviousUtcDay, StreakOn, DaysAgo;
    DaysAgoIsCivil(today, k);
    BeforeDaysAgo(today, k);
  }

  /** The streak ending today, or yesterday's when today has no check-in yet. */
  function Current(days: set<Civil>, today: Civil): nat
    requires IsCivil(today)
  {
    if today in days then StreakOn(days, today) else StreakBefore(days, today)
  }

  function DaysToCap(current: nat): nat {
    if current < STREAK_DAYS_TO_CAP then STREAK_DAYS_TO_CAP - current else 0
  }

  /** The streak part of `me`: the strip is the last seven calendar days, oldest first. */
  method StreakOfMe(days: set<Civil>, today: Civil) returns (v: View)
    requires IsCivil(today)
    ensures v.current == Current(days, today) && v.daysToCap == DaysToCap(v.current)
    ensures |v.last7| == 7 && forall i :: 0 <= i < 7 ==> v.last7[i] == BoxOf(days, DaysAgo(today, 6 - i))
    ensures v.last7[6] == DayBox(today, today in days, v.multiplierForToday)
    ensures v.current == StreakOn(days, DaysAgo(today, if today in days then 0 else 1))
    ensures v.daysToCap == if v.current >= 7 then 0 else 7 - v.current
    ensures forall i :: 0 <= i < 7 ==> IsBoxOf(v.last7[i], days, today, 6 - i)
  {
    hide DayNumber, CivilOf, IsCivil, PreviousUtcDay, StreakOn, DaysAgo, StreakMultiplier;
    PreviousUtcDayIsPredecessor(today);
    var current;
    if today in days {
      current := StreakLengthOn(days, today);
    } else {
      current := StreakLengthOn(days, PreviousUtcDay(today));
    }
    var last7: seq<DayBox> := [];
    var cursor := today;
    DaysAgoSteps(today, 0);
    for i := 0 to 7
      invariant |last7| == i && cursor == DaysAgo(today, i)
      invariant forall k :: 0 <= k < i ==> last7[k] == BoxOf(days, DaysAgo(today, i - 1 - k))
    {
      DaysAgoIsCivil(today, i);
      last7 := [BoxOf(days, cursor)] + last7;
      BeforeDaysAgo(today, i);
      cursor := PreviousUtcDay(cursor);
    }
    v := View(current, StreakMultiplier(StreakBefore(days, today)), DaysToCap(current), last7);
    DaysAgoIsCivil(today, 1);
    BeforeDaysAgo(today, 0);
    assert STREAK_DAYS_TO_CAP == 7;
    forall i | 0 <= i < 7 ensures IsBoxOf(v.last7[i], days, today, 6 - i) {
      BoxInPlainTerms(days, today, 6 - i);
    }
  }

  lemma DaysAgoIsCivil(day: Civil, k: nat)
    requires IsCivil(day)
    ensures IsCivil(DaysAgo(day, k)) && DayNumber(DaysAgo(day, k)) == DayNumber(day) - k
  {
  }

  lemma BeforeDaysAgo(day: Civil, k: nat)
    requires IsCivil(day)
    ensures IsCivil(DaysAgo(day, k)) && PreviousUtcDay(DaysAgo(day, k)) == DaysAgo(day, k + 1)
  {
    hide DayNumber, CivilOf, IsCivil, PreviousUtcDay;
    DaysAgoIsCivil(day, k);
    var d := DaysAgo(day, k);
    PreviousUtcDayIsPredecessor(d);
    DayNumberRoundTrip(PreviousUtcDay(d));
    assert DayNumber(day) - (k + 1) == DayNumber(PreviousUtcDay(d));
  }

  // ---- Days to the cap ----

  function DaysAfter(day: Civil, k: nat): (c: Civil)
    requires IsCivil(day)
    ensures IsCivil(c) && DayNumber(c) == DayNumber(day) + k
  {
    CivilOf(DayNumber(day) + k)
  }

  lemma AfterSteps(day: Civil, k: nat)
    requires IsCivil(day)
    ensures DaysAfter(day, 0) == day
    ensures PreviousUtcDay(DaysAfter(day, k + 1)) == DaysAfter(day, k)
  {
    hide DayNumber, CivilOf, IsCivil, PreviousUtcDay;
    DayNumberRoundTrip(day);
    var e := DaysAfter(day, k + 1);
    PreviousUtcDayIsPredecessor(e);
    DayNumberRoundTrip(PreviousUtcDay(e));
  }

  lemma {:induction false} StreakGrowsDaily(days: set<Civil>, start: Civil, k: nat)
    requires IsCivil(start) && forall j: nat :: j < k ==> DaysAfter(start, j) in days
    ensures StreakBefore(days, DaysAfter(start, k)) == StreakBefore(days, start) + k
  {
    hide DayNumber, CivilOf, IsCivil, PreviousUtcDay, DaysAfter;
    AfterSteps(start, if k > 0 then k - 1 else 0);
    if k > 0 {
      StreakGrowsDaily(days, start, k - 1);
    }
  }

  /** The first day whose check-in is still open. */
  function FirstOpenDay(days: set<Civil>, today: Civil): Civil
    requires IsCivil(today)
  {
    if today in days then DaysAfter(today, 1) else today
  }

  /**
   `daysToCap` is exact: after check-ins on the next k open days, the day after them multiplies by the
   cap if and only if k is at least that many.
   */
  lemma DaysToCapIsExact(days: set<Civil>, today: Civil, k: nat, more: set<Civil>)
    requires IsCivil(today) && forall d :: d in days ==> IsCivil(d) && DayNumber(d) <= DayNumber(today)
    requires more == set j: nat | j < k :: DaysAfter(FirstOpenDay(days, today), j)
    ensures StreakMultiplier(StreakBefore(days + more, DaysAfter(FirstOpenDay(days, today), k))) == RAMP_CAP_HUNDREDTHS
            <==> k >= DaysToCap(Current(days, today))
  {
    hide DayNumber, CivilOf, IsCivil, PreviousUtcDay, StreakMultiplier;
    var start := FirstOpenDay(days, today);
    AfterSteps(today, 0);
    assert Current(days, today) == StreakBefore(days, start);
    assert forall d :: d in more ==> DayNumber(d) >= DayNumber(start);
    StreakBeforeIsFixed(days, more, start);
    StreakGrowsDaily(days + more, start, k);
    RampLaw(StreakBefore(days, start) + k);
  }
}

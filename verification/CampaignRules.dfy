/**
 The pure campaign rules: point values, daily caps, the streak ramp, the campaign window and the
 decision for one witnessed action. Multipliers are integer hundredths.
 */
module CampaignRules {
  import opened Wrappers
  import opened Calendar

  datatype ActionKind = SdexSwap | BlendDeposit | BlendWithdraw

  datatype ActionRule = ActionRule(basePoints: nat, dailyCap: nat, requiresMinNotional: bool)

  function RuleOf(kind: ActionKind): ActionRule {
    match kind
    case SdexSwap => ActionRule(50, 5, true)
    case BlendDeposit => ActionRule(100, 3, true)
    case BlendWithdraw => ActionRule(0, 0, false)
  }

  const STREAK_DAILY_POINTS := 5
  const RAMP_STEP_HUNDREDTHS := 5
  const RAMP_CAP_HUNDREDTHS := 135

  // ---- Streaks ----

  /** Days of `days` on or before day number `n`: what a backward walk can still visit. */
  ghost function UpTo(days: set<Civil>, n: int): set<Civil> {
    set d | d in days && IsCivil(d) && DayNumber(d) <= n
  }

  lemma UpToShrinks(days: set<Civil>, day: Civil)
    requires IsCivil(day) && day in days
    ensures |UpTo(days, DayNumber(PreviousUtcDay(day)))| < |UpTo(days, DayNumber(day))|
    ensures IsCivil(PreviousUtcDay(day))
  {
    hide DayNumber, PreviousUtcDay, IsCivil;
    PreviousUtcDayIsPredecessor(day);
    var before, now := UpTo(days, DayNumber(day) - 1), UpTo(days, DayNumber(day));
    assert before <= now - {day};
    Subset(before, now - {day});
  }

  lemma {:induction false} Subset<T>(a: set<T>, b: set<T>)
    requires a <= b
    ensures |a| <= |b|
  {
    if x :| x in a {
      Subset(a - {x}, b - {x});
    }
  }

  /** Consecutive check-in days ending at `day`. */
  function StreakOn(days: set<Civil>, day: Civil): nat
    requires IsCivil(day)
    decreases |UpTo(days, DayNumber(day))|
  {
    if day in days then
      UpToShrinks(days, day);
      1 + StreakOn(days, PreviousUtcDay(day))
    else 0
  }

  /** The source's loop; it terminates on every set because each step leaves a visited day behind. */
  method StreakLengthOn(checkinDays: set<Civil>, day: Civil) returns (length: nat)
    requires IsCivil(day)
    ensures length == StreakOn(checkinDays, day)
  {
    length := 0;
    var cursor := day;
    while cursor in checkinDays
      invariant IsCivil(cursor)
      invariant length + StreakOn(checkinDays, cursor) == StreakOn(checkinDays, day)
      decreases |UpTo(checkinDays, DayNumber(cursor))|
    {
      UpToShrinks(checkinDays, cursor);
      length := length + 1;
      cursor := PreviousUtcDay(cursor);
    }
  }

  function StreakBefore(days: set<Civil>, day: Civil): nat
    requires IsCivil(day)
  {
    PreviousUtcDayIsPredecessor(day);
    StreakOn(days, PreviousUtcDay(day))
  }

  /** The civil day `k` days before `day`. */
  function DaysAgo(day: Civil, k: nat): (c: Civil)
    requires IsCivil(day)
    ensures IsCivil(c) && DayNumber(c) == DayNumber(day) - k
  {
    CivilOf(DayNumber(day) - k)
  }

  /** The run of length `n` ending at `day` is checked in, and the day before it is not. */
  ghost predicate IsLongestRun(days: set<Civil>, day: Civil, n: nat)
    requires IsCivil(day)
  {
    && (forall k: nat :: k < n ==> DaysAgo(day, k) in days)
    && DaysAgo(day, n) !in days
  }

  lemma DaysAgoSteps(day: Civil, k: nat)
    requires IsCivil(day)
    ensures DaysAgo(day, 0) == day
    ensures IsCivil(PreviousUtcDay(day)) && DaysAgo(PreviousUtcDay(day), k) == DaysAgo(day, k + 1)
  {
    hide DayNumber, PreviousUtcDay, IsCivil, CivilOf;
    DayNumberRoundTrip(day);
    PreviousUtcDayIsPredecessor(day);
    assert DayNumber(PreviousUtcDay(day)) - k == DayNumber(day) - (k + 1);
  }

  /** The streak is the longest run of consecutive civil days ending at `day`, and nothing else is. */
  lemma {:induction false} StreakIsLongestRun(days: set<Civil>, day: Civil, n: nat)
    requires IsCivil(day)
    ensures IsLongestRun(days, day, n) <==> StreakOn(days, day) == n
    decreases n
  {
    hide DayNumber, PreviousUtcDay, IsCivil, DaysAgo;
    DaysAgoSteps(day, 0);
    var prev := PreviousUtcDay(day);
    forall k: nat ensures DaysAgo(prev, k) == DaysAgo(day, k + 1) {
      DaysAgoSteps(day, k);
    }
    if day in days && n > 0 {
      StreakIsLongestRun(days, prev, n - 1);
      forall k: nat | k < n && IsLongestRun(days, prev, n - 1) ensures DaysAgo(day, k) in days {
        if k > 0 {
          assert DaysAgo(prev, k - 1) == DaysAgo(day, k - 1 + 1);
        }
      }
      assert IsLongestRun(days, day, n) <==> IsLongestRun(days, prev, n - 1);
    }
  }

  /**
   Later check-ins change the streak that multiplies day `day` exactly when one of them fills the
   first gap before it.
   */
  lemma StreakBeforeChangesOnlyAtTheGap(days: set<Civil>, extra: set<Civil>, day: Civil)
    requires IsCivil(day)
    ensures StreakBefore(days + extra, day) == StreakBefore(days, day)
            <==> DaysAgo(day, 1 + StreakBefore(days, day)) !in extra
  {
    hide DayNumber, PreviousUtcDay, IsCivil, DaysAgo, StreakOn;
    var n := StreakBefore(days, day);
    DaysAgoSteps(day, n);
    var prev := PreviousUtcDay(day);
    StreakIsLongestRun(days, prev, n);
    StreakIsLongestRun(days + extra, prev, n);
  }

  /** A check-in on the action's own day, or later, never reaches back into its streak. */
  lemma StreakBeforeIsFixed(days: set<Civil>, extra: set<Civil>, day: Civil)
    requires IsCivil(day)
    requires forall d :: d in extra ==> IsCivil(d) && DayNumber(d) >= DayNumber(day)
    ensures StreakBefore(days + extra, day) == StreakBefore(days, day)
  {
    StreakBeforeChangesOnlyAtTheGap(days, extra, day);
  }

  /** streakMultiplier, in hundredths. */
  function StreakMultiplier(streakDays: int): int {
    var days := if streakDays < 0 then 0 else streakDays;
    var ramp := 100 + RAMP_STEP_HUNDREDTHS * days;
    if ramp < RAMP_CAP_HUNDREDTHS then ramp else RAMP_CAP_HUNDREDTHS
  }

  /** pointsFor: base × hundredths / 100, halves rounding up. */
  function PointsFor(basePoints: nat, hundredths: nat): nat {
    (basePoints * hundredths + 50) / 100
  }

  lemma PointsBounds(basePoints: nat, streakDays: int)
    ensures basePoints <= PointsFor(basePoints, StreakMultiplier(streakDays)) <= PointsFor(basePoints, 135)
  {
    var m := StreakMultiplier(streakDays);
    assert 100 <= m <= 135;
    assert basePoints * 100 <= basePoints * m <= basePoints * 135 by {
      Scale(basePoints, 100, m);
      Scale(basePoints, m, 135);
    }
  }

  lemma Scale(a: nat, b: int, c: int)
    requires b <= c
    ensures a * b <= a * c
  {
  }

  // ---- Window and action awards ----

  datatype Window = Window(startsAtMs: Option<int>, endsAtMs: Option<int>)

  predicate WithinWindow(w: Window, atMs: int) {
    && w.startsAtMs.Some?
    && w.startsAtMs.value <= atMs
    && (w.endsAtMs.Some? ==> atMs < w.endsAtMs.value)
  }

  datatype SkipReason = OutsideWindow | KindNotAwarded | BelowMinNotional | DailyCapReached

  datatype Award =
    | Granted(basePoints: nat, multiplier: int, points: nat, countedDay: Civil)
    | Skipped(reason: SkipReason)

  function ActionAward(kind: ActionKind, meetsMinNotional: bool, closedAtMs: int,
                       countedSameDayBefore: int, streakDaysBeforeDay: int, window: Window): Award
  {
    var rule := RuleOf(kind);
    if !WithinWindow(window, closedAtMs) then Skipped(OutsideWindow)
    else if rule.basePoints <= 0 || rule.dailyCap <= 0 then Skipped(KindNotAwarded)
    else if rule.requiresMinNotional && !meetsMinNotional then Skipped(BelowMinNotional)
    else if countedSameDayBefore >= rule.dailyCap then Skipped(DailyCapReached)
    else
      var multiplier := StreakMultiplier(streakDaysBeforeDay);
      Granted(rule.basePoints, multiplier, PointsFor(rule.basePoints, multiplier), UtcDay(closedAtMs))
  }
}

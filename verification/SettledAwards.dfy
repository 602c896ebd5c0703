/**
 From when on an award can no longer change, exactly: once the ramp's cap is reached, or once the day
 of the first gap is over and no check-in for it is open and within its time limit. In every other
 state some continuation of the transactions changes it. Five seconds into a day all its awards are
 settled.
 */
module SettledAwards {
  import opened Wrappers
  import opened Calendar
  import opened CampaignRules
  import opened PointsLedger
  import opened Campaign
  import opened CampaignHistory
  import opened CheckinConcurrency
  import opened AwardPlanner
  import opened AwardSchedule
  import opened AwardDeterminism
  import opened StreakView
  import opened LateCheckin

  /** The wallet a transaction asks for, before and after it holds the lock. */
  function WalletOf(x: Txn): string {
    Lower(if x.stage == Started then x.request else x.address)
  }

  ghost predicate IsOpenFor(s: System, t: nat, wallet: string, day: Civil) {
    && t in s.txns && IsOpen(s.txns[t]) && !TimedOut(s.txns[t], s.nowMs)
    && WalletOf(s.txns[t]) == wallet && s.txns[t].day == day
  }

  /** The day is over, and no check-in of the wallet for it can still commit. */
  ghost predicate IsClosed(s: System, wallet: string, day: Civil)
    requires IsCivil(day)
  {
    s.nowMs / MS_PER_DAY > DayNumber(day) && forall t :: !IsOpenFor(s, t, wallet, day)
  }

  /** The cap is reached, or nothing can fill the first gap any more. */
  ghost predicate IsSettled(s: System, c: Candidate) {
    var w := Lower(c.address);
    var days := CheckinDaysOf(s.checkins, w);
    GapIsEarlier(c, days);
    StreakBefore(days, UtcDay(c.closedAtMs)) >= STREAK_DAYS_TO_CAP || IsClosed(s, w, FirstGap(c, days))
  }

  // ---- A closed day stays as it is ----

  /** A step never reopens a transaction or changes its day or wallet; a new one begins now. */
  predicate Follows(s: System, s': System, t: nat)
    requires t in s'.txns
  {
    var x' := s'.txns[t];
    if t !in s.txns then x'.begunMs == s'.nowMs == s.nowMs && x'.day == UtcDay(s.nowMs)
    else x'.begunMs == s.txns[t].begunMs && x'.day == s.txns[t].day
         && (IsOpen(x') ==> IsOpen(s.txns[t]) && WalletOf(x') == WalletOf(s.txns[t]))
  }

  lemma StepOnTxn(s: System, step: Step, t: nat)
    requires t in DoStep(s, step).txns
    ensures Follows(s, DoStep(s, step), t)
  {
    hide StepInTime, Ended, Follows;
    if ComesTooLate(s, step) {
      EndOnTxn(s, step.t, t);
    } else if step.Lock? {
      LockOnTxn(s, step.t, t);
    } else {
      OtherOnTxn(s, step, t);
    }
  }

  lemma EndOnTxn(s: System, u: nat, t: nat)
    requires t in Ended(s, u).txns
    ensures Follows(s, Ended(s, u), t)
  {
    hide Lower, UtcDay;
  }

  lemma LockOnTxn(s: System, u: nat, t: nat)
    requires t in StepInTime(s, Lock(u)).txns
    ensures Follows(s, StepInTime(s, Lock(u)), t)
  {
    hide FindEnrollment, UtcDay, Lower;
    if u in s.txns {
      FoundEnrollment(s.enrollments, s.txns[u].request);
    }
  }

  lemma OtherOnTxn(s: System, step: Step, t: nat)
    requires t in StepInTime(s, step).txns && !step.Lock?
    ensures Follows(s, StepInTime(s, step), t)
  {
    hide FindEnrollment, FindEnrollmentByCode, Conflicts, StreakRow, UtcDay, InsertIdempotent, WrittenInFlight, Lower;
  }

  lemma ClockRuns(s: System, step: Step)
    ensures s.nowMs <= DoStep(s, step).nowMs
  {
    hide FindEnrollment, FindEnrollmentByCode, Conflicts, StreakRow, UtcDay, InsertIdempotent, WrittenInFlight, Lower,
         ComesTooLate;
  }

  lemma StepKeepsClosed(s: System, step: Step, wallet: string, day: Civil)
    requires IsCivil(day) && IsClosed(s, wallet, day)
    ensures IsClosed(DoStep(s, step), wallet, day)
  {
    hide DoStep, IsCivil, DayNumber, UtcDay, WalletOf, IsOpen;
    var s' := DoStep(s, step);
    ClockRuns(s, step);
    LaterDayIsLater(s.nowMs, s'.nowMs);
    forall t ensures !IsOpenFor(s', t, wallet, day) {
      assert !IsOpenFor(s, t, wallet, day);
      if t in s'.txns {
        StepOnTxn(s, step, t);
        DayIsCivil(s.nowMs);
      }
    }
  }

  lemma StepNeverFills(s: System, step: Step, wallet: string, day: Civil)
    requires IsCivil(day) && IsClosed(s, wallet, day) && day !in CheckinDaysOf(s.checkins, wallet)
    ensures day !in CheckinDaysOf(DoStep(s, step).checkins, wallet)
  {
    hide FindEnrollment, FindEnrollmentByCode, Conflicts, StreakRow, IsCivil, DayNumber, UtcDay, InsertIdempotent,
         WrittenInFlight, Lower, CheckinDaysOf;
    if step.Commit? && step.t in s.txns && s.txns[step.t].stage == WroteRow {
      assert !IsOpenFor(s, step.t, wallet, day);
      OneMoreDay(s.checkins, s.txns[step.t].address, s.txns[step.t].day, wallet);
    }
  }

  lemma OneMoreDay(checkins: seq<(string, Civil)>, address: string, day: Civil, wallet: string)
    ensures CheckinDaysOf(checkins + [(address, day)], wallet) ==
            CheckinDaysOf(checkins, wallet) + if Lower(address) == wallet then {day} else {}
  {
    hide Lower;
    var more := checkins + [(address, day)];
    DaysOfPrefix(checkins, more, wallet);
    assert more[|checkins|] == (address, day);
  }

  lemma {:induction false} ClosedDayStays(s: System, steps: seq<Step>, wallet: string, day: Civil)
    requires IsCivil(day) && IsClosed(s, wallet, day) && day !in CheckinDaysOf(s.checkins, wallet)
    ensures day !in CheckinDaysOf(Steps(s, steps).checkins, wallet)
    decreases |steps|
  {
    hide DoStep, IsCivil, IsClosed, CheckinDaysOf;
    if steps != [] {
      StepKeepsClosed(s, steps[0], wallet, day);
      StepNeverFills(s, steps[0], wallet, day);
      ClosedDayStays(DoStep(s, steps[0]), steps[1..], wallet, day);
    }
  }

  lemma SettledStays(s: System, steps: seq<Step>, c: Candidate, window: Window)
    requires IsSettled(s, c)
    ensures AwardRow(c, WorldOf(Steps(s, steps).checkins, window)) == AwardRow(c, WorldOf(s.checkins, window))
  {
    hide AwardRow, FirstGap, StreakBefore, UtcDay, WorldOf, CheckinDaysOf, Steps, IsCivil, IsClosed;
    var days := CheckinDaysOf(s.checkins, Lower(c.address));
    InterleavingChangesAwardExactly(s, steps, c, window);
    GapIsEarlier(c, days);
    if IsClosed(s, Lower(c.address), FirstGap(c, days)) {
      ClosedDayStays(s, steps, Lower(c.address), FirstGap(c, days));
    }
  }

  // ---- Any other day can still be filled ----

  /** Every lock is held by a transaction of its wallet. */
  ghost predicate LocksOk(s: System) {
    forall w :: w in s.locks ==>
      s.locks[w] in s.txns && HoldsLock(s.txns[s.locks[w]]) && Lower(s.txns[s.locks[w]].address) == w
  }

  lemma StepKeepsLocks(s: System, step: Step)
    requires LocksOk(s)
    ensures LocksOk(DoStep(s, step))
  {
    hide LocksOk, StepInTime, Ended;
    if ComesTooLate(s, step) {
      EndKeepsLocks(s, step.t);
    } else {
      StepInTimeKeepsLocks(s, step);
    }
  }

  lemma EndKeepsLocks(s: System, t: nat)
    requires LocksOk(s)
    ensures LocksOk(Ended(s, t))
  {
    hide Lower;
  }

  lemma StepInTimeKeepsLocks(s: System, step: Step)
    requires LocksOk(s)
    ensures LocksOk(StepInTime(s, step))
  {
    hide FindEnrollment, FindEnrollmentByCode, Conflicts, StreakRow, UtcDay, InsertIdempotent, WrittenInFlight, Lower;
  }

  lemma OneStep(s: System, step: Step, rest: seq<Step>)
    ensures Steps(s, [step] + rest) == Steps(DoStep(s, step), rest)
  {
    hide DoStep;
    assert ([step] + rest)[1..] == rest;
  }

  function StagesLeft(stage: Stage): nat {
    match stage
    case Locked => 3
    case Counted => 2
    case WroteCheckin => 1
    case _ => 0
  }

  /** A lock holder's next statement takes it one stage further, unless its day is checked in already. */
  function NextStatement(t: nat, stage: Stage): Step {
    match stage
    case Locked => CountDay(t)
    case Counted => InsertCheckin(t)
    case WroteCheckin => InsertRow(t)
    case _ => Commit(t)
  }

  lemma HolderMovesOn(s: System, t: nat)
    requires SystemOk(s) && t in s.txns && HoldsLock(s.txns[t])
    requires (s.txns[t].address, s.txns[t].day) !in s.checkins && !TimedOut(s.txns[t], s.nowMs)
    ensures var s', x := DoStep(s, NextStatement(t, s.txns[t].stage)), s.txns[t];
            if x.stage == WroteRow then s'.checkins == s.checkins + [(x.address, x.day)]
            else s'.checkins == s.checkins && t in s'.txns && HoldsLock(s'.txns[t])
                 && s'.txns[t].address == x.address && s'.txns[t].day == x.day
                 && !TimedOut(s'.txns[t], s'.nowMs)
                 && StagesLeft(s'.txns[t].stage) < StagesLeft(x.stage)
  {
    hide EnrollmentsOk, CheckinsOk, Conflicts, StreakRow, WrittenInFlight;
    InsertsNeverCollide(s, t);
    if s.txns[t].stage != Locked {
      HolderMeetsNoRow(s, t);
    }
  }

  lemma NotCheckedIn(checkins: seq<(string, Civil)>, address: string, day: Civil)
    requires day !in CheckinDaysOf(checkins, Lower(address))
    ensures (address, day) !in checkins
  {
  }

  /** A lock holder commits its check-in if nothing else runs. */
  lemma {:induction false} HolderFills(s: System, t: nat) returns (steps: seq<Step>)
    requires SystemOk(s) && t in s.txns && HoldsLock(s.txns[t]) && !TimedOut(s.txns[t], s.nowMs)
    requires s.txns[t].day !in CheckinDaysOf(s.checkins, Lower(s.txns[t].address))
    ensures s.txns[t].day in CheckinDaysOf(Steps(s, steps).checkins, Lower(s.txns[t].address))
    decreases StagesLeft(s.txns[t].stage)
  {
    hide SystemOk, DoStep, CheckinDaysOf, Steps, Lower, NextStatement, HoldsLock, StagesLeft, TimedOut;
    var x := s.txns[t];
    var step := NextStatement(t, x.stage);
    NotCheckedIn(s.checkins, x.address, x.day);
    HolderMovesOn(s, t);
    StepKeepsOk(s, step);
    var rest := [];
    if x.stage == WroteRow {
      OneMoreDay(s.checkins, x.address, x.day, Lower(x.address));
      NoSteps(DoStep(s, step));
    } else {
      rest := HolderFills(DoStep(s, step), t);
    }
    OneStep(s, step, rest);
    steps := [step] + rest;
  }

  /** A transaction that has only begun gets its lock when it is free. */
  lemma UnlockedFills(s: System, t: nat) returns (steps: seq<Step>)
    requires SystemOk(s) && t in s.txns && s.txns[t].stage == Started && !TimedOut(s.txns[t], s.nowMs)
    requires FindEnrollment(s.enrollments, s.txns[t].request).Some?
    requires Lower(FindEnrollment(s.enrollments, s.txns[t].request).value.address) !in s.locks
    requires s.txns[t].day !in CheckinDaysOf(s.checkins, Lower(s.txns[t].request))
    ensures s.txns[t].day in CheckinDaysOf(Steps(s, steps).checkins, Lower(s.txns[t].request))
  {
    hide SystemOk, CheckinDaysOf, Steps, Lower, FindEnrollment;
    FoundEnrollment(s.enrollments, s.txns[t].request);
    StepKeepsOk(s, Lock(t));
    var rest := HolderFills(DoStep(s, Lock(t)), t);
    OneStep(s, Lock(t), rest);
    steps := [Lock(t)] + rest;
  }

  /** And the lock can be freed: its holder may still abort. */
  lemma StartedFills(s: System, t: nat) returns (steps: seq<Step>)
    requires SystemOk(s) && LocksOk(s) && t in s.txns && s.txns[t].stage == Started
    requires !TimedOut(s.txns[t], s.nowMs)
    requires FindEnrollment(s.enrollments, s.txns[t].request).Some?
    requires s.txns[t].day !in CheckinDaysOf(s.checkins, Lower(s.txns[t].request))
    ensures s.txns[t].day in CheckinDaysOf(Steps(s, steps).checkins, Lower(s.txns[t].request))
  {
    hide SystemOk, CheckinDaysOf, Steps, Lower, FindEnrollment;
    var w := Lower(FindEnrollment(s.enrollments, s.txns[t].request).value.address);
    if w in s.locks {
      var abort := Abort(s.locks[w]);
      StepKeepsOk(s, abort);
      var rest := UnlockedFills(DoStep(s, abort), t);
      OneStep(s, abort, rest);
      steps := [abort] + rest;
    } else {
      steps := UnlockedFills(s, t);
    }
  }

  lemma {:induction false} LongCode(es: seq<Enrollment>) returns (code: string)
    ensures forall e :: e in es ==> |e.code| < |code|
  {
    if es == [] {
      code := "";
    } else {
      var rest := LongCode(es[1..]);
      code := rest + es[0].code + "+";
      assert es == [es[0]] + es[1..];
    }
  }

  /** Any wallet can be enrolled: with a code longer than all others, unless it is enrolled already. */
  lemma CanEnroll(s: System, address: string) returns (step: Step)
    ensures step.NewWallet? && FindEnrollment(DoStep(s, step).enrollments, address).Some?
    ensures DoStep(s, step) == s.(enrollments := DoStep(s, step).enrollments)
  {
    hide FindEnrollment, FindEnrollmentByCode, Lower;
    var code := LongCode(s.enrollments);
    var e := Enrollment(address, code);
    step := NewWallet(e);
    FoundByCode(s.enrollments, code);
    if FindEnrollment(s.enrollments, address).None? {
      FoundEnrollment(s.enrollments + [e], address);
      assert e in s.enrollments + [e];
    }
  }

  /** So any open check-in can still commit. */
  lemma OpenFills(s: System, t: nat, wallet: string, day: Civil) returns (steps: seq<Step>)
    requires SystemOk(s) && LocksOk(s) && IsOpenFor(s, t, wallet, day)
    requires day !in CheckinDaysOf(s.checkins, wallet)
    ensures day in CheckinDaysOf(Steps(s, steps).checkins, wallet)
  {
    hide SystemOk, LocksOk, CheckinDaysOf, Steps, Lower, FindEnrollment, DoStep;
    if s.txns[t].stage == Started {
      var enroll := CanEnroll(s, s.txns[t].request);
      StepKeepsOk(s, enroll);
      StepKeepsLocks(s, enroll);
      var rest := StartedFills(DoStep(s, enroll), t);
      OneStep(s, enroll, rest);
      steps := [enroll] + rest;
    } else {
      steps := HolderFills(s, t);
    }
  }

  lemma {:induction false} FreshId(ids: set<nat>) returns (t: nat)
    ensures forall i :: i in ids ==> i < t
  {
    if i :| i in ids {
      var u := FreshId(ids - {i});
      assert forall j :: j in ids ==> j == i || j in ids - {i};
      t := if i < u then u else i + 1;
    } else {
      t := 0;
    }
  }

  /** And a day that is not over can still be checked in. */
  lemma UpcomingDayFills(s: System, address: string, day: Civil) returns (steps: seq<Step>)
    requires SystemOk(s) && LocksOk(s) && IsCivil(day) && s.nowMs / MS_PER_DAY <= DayNumber(day)
    requires day !in CheckinDaysOf(s.checkins, Lower(address))
    ensures day in CheckinDaysOf(Steps(s, steps).checkins, Lower(address))
  {
    hide SystemOk, LocksOk, CheckinDaysOf, Steps, Lower, IsCivil, DayNumber, UtcDay;
    var ms := WaitFor(s.nowMs, day);
    var t := FreshId(s.txns.Keys);
    var wait, begin := Advance(ms), Begin(t, address);
    StepKeepsOk(s, wait);
    StepKeepsLocks(s, wait);
    StepKeepsOk(DoStep(s, wait), begin);
    StepKeepsLocks(DoStep(s, wait), begin);
    var begun := DoStep(DoStep(s, wait), begin);
    assert IsOpenFor(begun, t, Lower(address), day);
    var rest := OpenFills(begun, t, Lower(address), day);
    OneStep(DoStep(s, wait), begin, rest);
    OneStep(s, wait, [begin] + rest);
    steps := [wait] + ([begin] + rest);
  }

  lemma WaitFor(nowMs: int, day: Civil) returns (ms: nat)
    requires IsCivil(day) && nowMs / MS_PER_DAY <= DayNumber(day)
    ensures UtcDay(nowMs + ms) == day
  {
    hide IsCivil, DayNumber, CivilOf;
    DayNumberRoundTrip(day);
    var n := DayNumber(day);
    if nowMs / MS_PER_DAY == n {
      ms := 0;
    } else {
      ms := n * MS_PER_DAY - nowMs;
      assert (nowMs + ms) / MS_PER_DAY == n;
    }
  }

  lemma UnsettledChanges(s: System, c: Candidate, window: Window) returns (steps: seq<Step>)
    requires SystemOk(s) && LocksOk(s) && !IsSettled(s, c)
    ensures AwardRow(c, WorldOf(Steps(s, steps).checkins, window)) != AwardRow(c, WorldOf(s.checkins, window))
  {
    hide AwardRow, FirstGap, StreakBefore, UtcDay, WorldOf, CheckinDaysOf, Steps, IsCivil, DayNumber, SystemOk, LocksOk,
         IsOpenFor;
    var w := Lower(c.address);
    var days := CheckinDaysOf(s.checkins, w);
    GapIsEarlier(c, days);
    var gap := FirstGap(c, days);
    if t :| IsOpenFor(s, t, w, gap) {
      steps := OpenFills(s, t, w, gap);
    } else {
      steps := UpcomingDayFills(s, c.address, gap);
    }
    InterleavingChangesAwardExactly(s, steps, c, window);
  }

  // ---- The exact condition ----

  lemma {:induction false} ReachableIsOk(s: System, history: seq<Step>)
    requires SystemOk(s) && LocksOk(s)
    ensures SystemOk(Steps(s, history)) && LocksOk(Steps(s, history))
    decreases |history|
  {
    hide DoStep, SystemOk, LocksOk;
    if history != [] {
      StepKeepsOk(s, history[0]);
      StepKeepsLocks(s, history[0]);
      ReachableIsOk(DoStep(s, history[0]), history[1..]);
    }
  }

  lemma NothingIsOk(startMs: int)
    ensures SystemOk(NOTHING.(nowMs := startMs)) && LocksOk(NOTHING.(nowMs := startMs))
  {
  }

  /**
   In every reachable state: no continuation, however its transactions interleave, changes the award of
   a witness, if and only if the streak up to the first gap earns the cap, or the day of the gap is over
   and no check-in of the wallet for it is open and within its time limit.
   */
  lemma AwardIsSettledExactly(startMs: int, history: seq<Step>, c: Candidate, window: Window)
    ensures var s := Steps(NOTHING.(nowMs := startMs), history);
            (forall steps :: AwardRow(c, WorldOf(Steps(s, steps).checkins, window))
                             == AwardRow(c, WorldOf(s.checkins, window)))
            <==> IsSettled(s, c)
  {
    hide *;
    NothingIsOk(startMs);
    ReachableIsOk(NOTHING.(nowMs := startMs), history);
    var s := Steps(NOTHING.(nowMs := startMs), history);
    if IsSettled(s, c) {
      forall steps ensures AwardRow(c, WorldOf(Steps(s, steps).checkins, window))
                           == AwardRow(c, WorldOf(s.checkins, window))
      {
        SettledStays(s, steps, c, window);
      }
    } else {
      var steps := UnsettledChanges(s, c, window);
    }
  }

  /** No check-in of the wallet begun before day `n` can still commit, and the clock has reached it. */
  ghost predicate NoOlderCheckinOpen(s: System, wallet: string, n: int) {
    && s.nowMs / MS_PER_DAY >= n
    && forall t :: t in s.txns && IsOpen(s.txns[t]) && !TimedOut(s.txns[t], s.nowMs)
                   && WalletOf(s.txns[t]) == wallet ==>
         IsCivil(s.txns[t].day) && DayNumber(s.txns[t].day) >= n
  }

  /**
   So an award is settled at the latest from the first instant of its day at which no older check-in of
   its wallet can still commit: whatever runs after it, every run of the job writes the same row.
   */
  lemma AwardIsSettledOnceOlderCheckinsEnd(s: System, steps: seq<Step>, c: Candidate, window: Window)
    requires NoOlderCheckinOpen(s, Lower(c.address), c.closedAtMs / MS_PER_DAY)
    ensures AwardRow(c, WorldOf(Steps(s, steps).checkins, window)) == AwardRow(c, WorldOf(s.checkins, window))
  {
    hide AwardRow, FirstGap, StreakBefore, UtcDay, WorldOf, CheckinDaysOf, Steps, DayNumber, IsCivil, WalletOf, IsOpen;
    GapIsEarlier(c, CheckinDaysOf(s.checkins, Lower(c.address)));
    SettledStays(s, steps, c, window);
  }

  // ---- Five seconds into the day ----

  /** Every transaction began by now, and counts for the day it began on. */
  ghost predicate BegunOk(s: System) {
    forall t :: t in s.txns ==> s.txns[t].begunMs <= s.nowMs && s.txns[t].day == UtcDay(s.txns[t].begunMs)
  }

  lemma StepKeepsBegun(s: System, step: Step)
    requires BegunOk(s)
    ensures BegunOk(DoStep(s, step))
  {
    hide DoStep, UtcDay, IsOpen, WalletOf;
    ClockRuns(s, step);
    forall t | t in DoStep(s, step).txns
      ensures DoStep(s, step).txns[t].begunMs <= DoStep(s, step).nowMs
      ensures DoStep(s, step).txns[t].day == UtcDay(DoStep(s, step).txns[t].begunMs)
    {
      StepOnTxn(s, step, t);
    }
  }

  lemma {:induction false} AllBegun(s: System, history: seq<Step>)
    requires BegunOk(s)
    ensures BegunOk(Steps(s, history))
    decreases |history|
  {
    hide DoStep, BegunOk;
    if history != [] {
      StepKeepsBegun(s, history[0]);
      AllBegun(DoStep(s, history[0]), history[1..]);
    }
  }

  /** A transaction of an earlier day than `n` has timed out five seconds into day `n`. */
  lemma OlderHaveTimedOut(x: Txn, nowMs: int, n: int)
    requires x.day == UtcDay(x.begunMs) && nowMs >= n * MS_PER_DAY + 5_000 && !TimedOut(x, nowMs)
    ensures IsCivil(x.day) && DayNumber(x.day) >= n
  {
    hide UtcDay, IsCivil, DayNumber;
    DayIsCivil(x.begunMs);
    assert x.begunMs >= n * MS_PER_DAY;
    LaterDayIsLater(n * MS_PER_DAY, x.begunMs);
    WholeDays(n);
  }

  lemma WholeDays(n: int)
    ensures n * MS_PER_DAY / MS_PER_DAY == n
  {
  }

  /**
   In every interleaving, an award is settled five seconds into the witness's day: what the time limit
   leaves of the claim that its streak is fixed before the day starts.
   */
  lemma AwardIsSettledFiveSecondsIn(startMs: int, history: seq<Step>, steps: seq<Step>, c: Candidate, window: Window)
    ensures var s := Steps(NOTHING.(nowMs := startMs), history);
            s.nowMs >= c.closedAtMs / MS_PER_DAY * MS_PER_DAY + 5_000 ==>
              && IsSettled(s, c)
              && AwardRow(c, WorldOf(Steps(s, steps).checkins, window)) == AwardRow(c, WorldOf(s.checkins, window))
  {
    hide Steps, UtcDay, IsCivil, DayNumber, FirstGap, StreakBefore, AwardRow, WorldOf, CheckinDaysOf, WalletOf, IsOpen,
         TimedOut;
    var start := NOTHING.(nowMs := startMs);
    assert BegunOk(start);
    AllBegun(start, history);
    var s := Steps(start, history);
    var n := c.closedAtMs / MS_PER_DAY;
    if s.nowMs >= n * MS_PER_DAY + 5_000 {
      LaterDayIsLater(n * MS_PER_DAY, s.nowMs);
      WholeDays(n);
      forall t | t in s.txns && IsOpen(s.txns[t]) && !TimedOut(s.txns[t], s.nowMs)
        ensures IsCivil(s.txns[t].day) && DayNumber(s.txns[t].day) >= n
      {
        OlderHaveTimedOut(s.txns[t], s.nowMs, n);
      }
      GapIsEarlier(c, CheckinDaysOf(s.checkins, Lower(c.address)));
      SettledStays(s, steps, c, window);
    }
  }
}

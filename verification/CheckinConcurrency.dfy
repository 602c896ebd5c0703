/**
 The daily check-in under concurrency. Each transaction runs its statements one at a time (begin,
 lock the enrolment row, count, insert the check-in, insert the ledger row, commit), interleaved
 with any number of others; its writes are seen by others only once it commits. The row lock makes
 every interleaving equal to check-ins that happen atomically, in commit order.
 */
module CheckinConcurrency {
  import opened Wrappers
  import opened Calendar
  import opened CampaignRules
  import opened PointsLedger
  import opened Campaign
  import opened CampaignHistory

  /** Where a transaction stands; from `Locked` on it holds the lock of its wallet. */
  datatype Stage =
    | Started | Locked | Counted | WroteCheckin | WroteRow
    | Accepted | Refused(reason: Refusal) | RolledBack

  /** The day is the database's now(), which is fixed when the transaction begins. */
  datatype Txn = Txn(request: string, begunMs: int, day: Civil, address: string, stage: Stage)

  /** Prisma's default limit for an interactive transaction. */
  const TX_TIMEOUT_MS := 5_000

  datatype System = System(nowMs: int, enrollments: seq<Enrollment>, checkins: seq<(string, Civil)>, ledger: seq<Row>,
                           txns: map<nat, Txn>, locks: map<string, nat>)

  datatype Step =
    | Advance(ms: nat)
    | Begin(t: nat, request: string)
    | Lock(t: nat)
    | CountDay(t: nat)
    | InsertCheckin(t: nat)
    | InsertRow(t: nat)
    | Commit(t: nat)
    | Abort(t: nat)
    | NewWallet(e: Enrollment)
    | OtherWrite(row: Row)

  predicate HoldsLock(x: Txn) {
    x.stage == Locked || x.stage == Counted || x.stage == WroteCheckin || x.stage == WroteRow
  }

  /** Neither committed nor ended. */
  predicate IsOpen(x: Txn) { x.stage == Started || HoldsLock(x) }

  predicate TimedOut(x: Txn, nowMs: int) { nowMs - x.begunMs > TX_TIMEOUT_MS }

  function Moved(s: System, t: nat, stage: Stage): System
    requires t in s.txns
  {
    s.(txns := s.txns[t := s.txns[t].(stage := stage)])
  }

  function Released(s: System, t: nat, stage: Stage): System
    requires t in s.txns
  {
    Moved(s, t, stage).(locks := s.locks - {Lower(s.txns[t].address)})
  }

  /** Another transaction has written this key and not finished: the insert would have to wait. */
  predicate WrittenInFlight(s: System, t: nat, stages: set<Stage>) {
    t in s.txns && exists u :: u in s.txns && u != t && s.txns[u].stage in stages
                               && Lower(s.txns[u].address) == Lower(s.txns[t].address) && s.txns[u].day == s.txns[t].day
  }

  /** The end of a transaction that fails or times out, its lock freed and its writes gone. */
  function Ended(s: System, t: nat): System {
    if t !in s.txns || !IsOpen(s.txns[t]) then s
    else if HoldsLock(s.txns[t]) then Released(s, t, RolledBack)
    else Moved(s, t, RolledBack)
  }

  /** A statement of a transaction that has timed out ends it. */
  predicate ComesTooLate(s: System, step: Step) {
    && (step.Lock? || step.CountDay? || step.InsertCheckin? || step.InsertRow? || step.Commit?)
    && step.t in s.txns && IsOpen(s.txns[step.t]) && TimedOut(s.txns[step.t], s.nowMs)
  }

  function DoStep(s: System, step: Step): System {
    if ComesTooLate(s, step) then Ended(s, step.t) else StepInTime(s, step)
  }

  function StepInTime(s: System, step: Step): System {
    match step
    case Advance(ms) => s.(nowMs := s.nowMs + ms)
    case Begin(t, request) =>
      if t in s.txns then s else s.(txns := s.txns[t := Txn(request, s.nowMs, UtcDay(s.nowMs), request, Started)])
    case Lock(t) =>
      if t !in s.txns || s.txns[t].stage != Started then s
      else
        var e := FindEnrollment(s.enrollments, s.txns[t].request);
        if e.None? then Moved(s, t, Refused(NotEnrolled))
        else if Lower(e.value.address) in s.locks then s // waits
        else s.(txns := s.txns[t := s.txns[t].(stage := Locked, address := e.value.address)],
                locks := s.locks[Lower(e.value.address) := t])
    case CountDay(t) =>
      if t !in s.txns || s.txns[t].stage != Locked then s
      else if (s.txns[t].address, s.txns[t].day) in s.checkins then Released(s, t, Refused(AlreadyCheckedIn))
      else Moved(s, t, Counted)
    case InsertCheckin(t) =>
      if t !in s.txns || s.txns[t].stage != Counted || WrittenInFlight(s, t, {WroteCheckin, WroteRow}) then s
      else if (s.txns[t].address, s.txns[t].day) in s.checkins then Released(s, t, Refused(UniqueViolation))
      else Moved(s, t, WroteCheckin)
    case InsertRow(t) =>
      if t !in s.txns || s.txns[t].stage != WroteCheckin || WrittenInFlight(s, t, {WroteRow}) then s
      else if Conflicts(s.ledger, StreakRow(s.txns[t].address, s.txns[t].day))
        then Released(s, t, Refused(UniqueViolation))
      else Moved(s, t, WroteRow)
    case Commit(t) =>
      if t !in s.txns || s.txns[t].stage != WroteRow then s
      else
        var x := s.txns[t];
        Released(s, t, Accepted).(checkins := s.checkins + [(x.address, x.day)],
                                  ledger := s.ledger + [StreakRow(x.address, x.day)])
    case Abort(t) => Ended(s, t)
    case NewWallet(e) =>
      if FindEnrollment(s.enrollments, e.address).Some? || FindEnrollmentByCode(s.enrollments, e.code).Some? then s
      else s.(enrollments := s.enrollments + [e])
    case OtherWrite(row) => if row.reason == StreakDaily then s else s.(ledger := InsertIdempotent(s.ledger, row))
  }

  /** The atomic check-in that the interleaving must look like. */
  function AtomicCheckin(s: System, address: string, day: Civil): (seq<(string, Civil)>, seq<Row>) {
    if (address, day) in s.checkins then (s.checkins, s.ledger)
    else (s.checkins + [(address, day)], s.ledger + [StreakRow(address, day)])
  }

  /** A lock holder is the recorded one, on an enrolled address; past the count, its day is still free. */
  ghost predicate TxnOk(s: System, t: nat)
    requires t in s.txns
  {
    var x := s.txns[t];
    && (HoldsLock(x) ==>
          Lower(x.address) in s.locks && s.locks[Lower(x.address)] == t && Enrolled(s.enrollments, x.address))
    && (HoldsLock(x) && x.stage != Locked ==> (x.address, x.day) !in s.checkins)
    && x.stage != Refused(UniqueViolation)
  }

  ghost predicate SystemOk(s: System) {
    && EnrollmentsOk(s.enrollments)
    && CheckinsOk(s.enrollments, s.checkins, s.ledger)
    && forall t :: t in s.txns ==> TxnOk(s, t)
  }

  /** A holder's day is free in the ledger too, so neither unique index is ever what stops it. */
  lemma HolderMeetsNoRow(s: System, t: nat)
    requires SystemOk(s) && t in s.txns && HoldsLock(s.txns[t]) && s.txns[t].stage != Locked
    ensures !Conflicts(s.ledger, StreakRow(s.txns[t].address, s.txns[t].day))
  {
    hide EnrollmentsOk, CheckinsOk, Conflicts, StreakRow;
    assert TxnOk(s, t);
    FreeDayHasNoRow(s.enrollments, s.checkins, s.ledger, s.txns[t].address, s.txns[t].day);
  }

  /** No insert of a lock holder ever waits for, or collides with, another transaction's. */
  lemma InsertsNeverCollide(s: System, t: nat)
    requires SystemOk(s) && t in s.txns && HoldsLock(s.txns[t])
    ensures !WrittenInFlight(s, t, {WroteCheckin, WroteRow}) && !WrittenInFlight(s, t, {WroteRow})
  {
    hide CheckinsOk;
    assert TxnOk(s, t);
    forall u | u in s.txns && u != t && (s.txns[u].stage == WroteCheckin || s.txns[u].stage == WroteRow)
      ensures Lower(s.txns[u].address) != Lower(s.txns[t].address)
    {
      assert TxnOk(s, u);
    }
  }

  /**
   Refinement: a step leaves the committed tables alone, or it is one wallet's commit and changes
   them exactly as an atomic, accepted check-in would; a count that refuses refuses rightly.
   */
  lemma StepIsAtomic(s: System, step: Step)
    requires SystemOk(s) && !step.OtherWrite?
    ensures var s' := DoStep(s, step);
            (s'.checkins, s'.ledger) == (s.checkins, s.ledger) ||
            (&& step.Commit? && step.t in s.txns
             && (s.txns[step.t].address, s.txns[step.t].day) !in s.checkins
             && (s'.checkins, s'.ledger) == AtomicCheckin(s, s.txns[step.t].address, s.txns[step.t].day))
    ensures step.CountDay? && step.t in s.txns && s.txns[step.t].stage == Locked
            && DoStep(s, step).txns[step.t].stage == Refused(AlreadyCheckedIn)
            ==> (s.txns[step.t].address, s.txns[step.t].day) in s.checkins
  {
    hide CheckinsOk, EnrollmentsOk, Conflicts, FindEnrollment, FindEnrollmentByCode, UtcDay;
    if step.Commit? && step.t in s.txns {
      assert TxnOk(s, step.t);
    }
  }

  lemma NoLockNoEffect(s: System, t: nat, stage: Stage)
    requires SystemOk(s) && t in s.txns && HoldsLock(s.txns[t]) && stage != Refused(UniqueViolation)
    requires stage == Accepted || stage.Refused? || stage == RolledBack
    ensures SystemOk(Released(s, t, stage))
  {
    hide CheckinsOk, EnrollmentsOk;
    var s' := Released(s, t, stage);
    assert TxnOk(s, t);
    forall u | u in s'.txns ensures TxnOk(s', u) {
      assert TxnOk(s, u);
    }
  }

  lemma EndKeepsOk(s: System, t: nat)
    requires SystemOk(s)
    ensures SystemOk(Ended(s, t))
  {
    hide CheckinsOk, EnrollmentsOk;
    if t in s.txns && HoldsLock(s.txns[t]) {
      NoLockNoEffect(s, t, RolledBack);
    } else {
      var s' := Ended(s, t);
      forall u | u in s'.txns ensures TxnOk(s', u) {
        assert TxnOk(s, u);
      }
    }
  }

  lemma StageKeepsOk(s: System, t: nat, stage: Stage)
    requires SystemOk(s) && t in s.txns && HoldsLock(s.txns[t])
    requires stage == Counted || stage == WroteCheckin || stage == WroteRow
    requires (s.txns[t].address, s.txns[t].day) !in s.checkins
    ensures SystemOk(Moved(s, t, stage))
  {
    hide CheckinsOk, EnrollmentsOk;
    var s' := Moved(s, t, stage);
    assert TxnOk(s, t);
    forall u | u in s'.txns ensures TxnOk(s', u) {
      assert TxnOk(s, u);
    }
  }

  lemma LockKeepsOk(s: System, t: nat)
    requires SystemOk(s)
    ensures SystemOk(StepInTime(s, Lock(t)))
  {
    hide CheckinsOk, EnrollmentsOk;
    var s' := StepInTime(s, Lock(t));
    if t in s.txns && s.txns[t].stage == Started {
      FoundEnrollment(s.enrollments, s.txns[t].request);
    }
    forall u | u in s'.txns ensures TxnOk(s', u) {
      assert TxnOk(s, u);
    }
  }

  lemma CommitKeepsOk(s: System, t: nat)
    requires SystemOk(s) && t in s.txns && s.txns[t].stage == WroteRow
    ensures SystemOk(StepInTime(s, Commit(t)))
  {
    hide CheckinsOk, EnrollmentsOk, Enrolled;
    var x := s.txns[t];
    assert TxnOk(s, t);
    NewCheckinKeepsBooks(s.enrollments, s.checkins, s.ledger, x.address, x.day);
    var s' := StepInTime(s, Commit(t));
    forall u | u in s'.txns ensures TxnOk(s', u) {
      assert TxnOk(s, u);
    }
  }

  lemma NewWalletKeepsOk(s: System, e: Enrollment)
    requires SystemOk(s)
    ensures SystemOk(StepInTime(s, NewWallet(e)))
  {
    hide CheckinsOk;
    var s' := StepInTime(s, NewWallet(e));
    FoundEnrollment(s.enrollments, e.address);
    FoundByCode(s.enrollments, e.code);
    if s' != s {
      var as_state := State(0, s.enrollments, [], s.checkins, [], s.ledger, []);
      NewEnrollmentKeepsBooks(as_state, e);
      forall a | Enrolled(s.enrollments, a) ensures Enrolled(s'.enrollments, a) {
        var i :| 0 <= i < |s.enrollments| && s.enrollments[i].address == a;
        assert s'.enrollments[i] == s.enrollments[i];
      }
      forall u | u in s'.txns ensures TxnOk(s', u) {
        assert TxnOk(s, u);
      }
    }
  }

  lemma StepKeepsOk(s: System, step: Step)
    requires SystemOk(s)
    ensures SystemOk(DoStep(s, step))
  {
    hide SystemOk, StepInTime, Ended;
    if ComesTooLate(s, step) {
      EndKeepsOk(s, step.t);
    } else {
      StepInTimeKeepsOk(s, step);
    }
  }

  lemma StepInTimeKeepsOk(s: System, step: Step)
    requires SystemOk(s)
    ensures SystemOk(StepInTime(s, step))
  {
    hide CheckinsOk, EnrollmentsOk, Conflicts, Enrolled, FindEnrollment, FindEnrollmentByCode, UtcDay;
    var s' := StepInTime(s, step);
    match step {
      case Lock(t) => LockKeepsOk(s, t);
      case CountDay(t) =>
        if t in s.txns && s.txns[t].stage == Locked {
          if (s.txns[t].address, s.txns[t].day) in s.checkins {
            NoLockNoEffect(s, t, Refused(AlreadyCheckedIn));
          } else {
            StageKeepsOk(s, t, Counted);
          }
        }
      case InsertCheckin(t) =>
        if t in s.txns && s.txns[t].stage == Counted {
          assert TxnOk(s, t);
          StageKeepsOk(s, t, WroteCheckin);
        }
      case InsertRow(t) =>
        if t in s.txns && s.txns[t].stage == WroteCheckin {
          assert TxnOk(s, t);
          HolderMeetsNoRow(s, t);
          StageKeepsOk(s, t, WroteRow);
        }
      case Commit(t) => if t in s.txns && s.txns[t].stage == WroteRow { CommitKeepsOk(s, t); }
      case Abort(t) => EndKeepsOk(s, t);
      case NewWallet(e) => NewWalletKeepsOk(s, e);
      case OtherWrite(row) =>
        if s'.ledger != s.ledger {
          CheckinsIgnore(s.enrollments, s.checkins, s.ledger, row);
        }
        forall u | u in s'.txns ensures TxnOk(s', u) {
          assert TxnOk(s, u);
        }
      case Advance(_) =>
        forall u | u in s'.txns ensures TxnOk(s', u) { assert TxnOk(s, u); }
      case Begin(_, _) =>
        forall u | u in s'.txns ensures TxnOk(s', u) { if u in s.txns { assert TxnOk(s, u); } }
    }
  }

  function Steps(s: System, steps: seq<Step>): System
    decreases |steps|
  {
    if steps == [] then s else Steps(DoStep(s, steps[0]), steps[1..])
  }

  lemma {:induction false} AnyInterleavingIsOk(s: System, steps: seq<Step>)
    requires SystemOk(s)
    ensures SystemOk(Steps(s, steps))
    decreases |steps|
  {
    hide DoStep, SystemOk;
    if steps != [] {
      StepKeepsOk(s, steps[0]);
      AnyInterleavingIsOk(DoStep(s, steps[0]), steps[1..]);
    }
  }

  const NOTHING := System(0, [], [], [], map[], map[])

  /**
   Whatever the interleaving: one check-in per wallet and day, one 'streak:daily' row per check-in
   and one check-in per row, five points each, and no transaction ever failed on a unique index.
   */
  lemma CheckinsAreExactUnderConcurrency(steps: seq<Step>, wallet: string)
    ensures var s := Steps(NOTHING, steps);
            && (forall i, j :: 0 <= i < j < |s.checkins| && Lower(s.checkins[i].0) == Lower(s.checkins[j].0) ==>
              s.checkins[i].1 != s.checkins[j].1)
            && (forall i :: 0 <= i < |s.checkins| ==> StreakRow(s.checkins[i].0, s.checkins[i].1) in s.ledger)
            && Count(s.ledger, StreakRowsOf(wallet)) == CheckinCount(s.checkins, wallet)
            && Sum(s.ledger, StreakRowsOf(wallet)) == STREAK_DAILY_POINTS * CheckinCount(s.checkins, wallet)
            && (forall t :: t in s.txns ==> s.txns[t].stage != Refused(UniqueViolation))
  {
    hide DoStep;
    AnyInterleavingIsOk(NOTHING, steps);
    var s := Steps(NOTHING, steps);
    forall t | t in s.txns ensures s.txns[t].stage != Refused(UniqueViolation) {
      assert TxnOk(s, t);
    }
    forall i, j | 0 <= i < j < |s.checkins| && Lower(s.checkins[i].0) == Lower(s.checkins[j].0)
      ensures s.checkins[i].1 != s.checkins[j].1
    {
      OneAddressPerWallet(s.enrollments, s.checkins[i].0, s.checkins[j].0);
    }
  }

  /** One check-in that begins in the last millisecond of a day and takes its lock in the next day's first. */
  function BeginsBeforeMidnight(e: Enrollment): seq<Step> {
    [NewWallet(e), Begin(0, e.address), Advance(1)]
  }

  const REST_OF_CHECKIN := [Lock(0), CountDay(0), InsertCheckin(0), InsertRow(0), Commit(0)]

  /**
   The day a check-in counts for is the day its transaction began, so one that spans midnight commits
   yesterday's check-in today, within the limit.
   */
  lemma CheckinMayCommitTheNextDay(e: Enrollment, nowMs: int)
    requires nowMs % MS_PER_DAY == MS_PER_DAY - 1
    ensures var before := Steps(NOTHING.(nowMs := nowMs), BeginsBeforeMidnight(e));
            var after := Steps(before, REST_OF_CHECKIN);
            && before.checkins == [] && after.checkins == [(e.address, UtcDay(nowMs))]
            && before.nowMs == after.nowMs == nowMs + 1
            && after.nowMs / MS_PER_DAY == nowMs / MS_PER_DAY + 1
  {
    hide Steps;
    var s0 := NOTHING.(nowMs := nowMs);
    var s3 := BegunBeforeMidnight(e, nowMs);
    Steps3(s0, NewWallet(e), Begin(0, e.address), Advance(1), []);
    assert BeginsBeforeMidnight(e) == [NewWallet(e), Begin(0, e.address), Advance(1)] + [];
    NoSteps(s3);
    var late := [InsertRow(0), Commit(0)];
    Steps3(s3, Lock(0), CountDay(0), InsertCheckin(0), late);
    assert REST_OF_CHECKIN == [Lock(0), CountDay(0), InsertCheckin(0)] + late;
    var s6 := DoStep(DoStep(DoStep(s3, Lock(0)), CountDay(0)), InsertCheckin(0));
    Steps2(s6, InsertRow(0), Commit(0), []);
    assert late == late + [];
    NoSteps(DoStep(DoStep(s6, InsertRow(0)), Commit(0)));
    CommittedAfterMidnight(e, nowMs, s3);
    NextMillisecondIsNextDay(nowMs);
  }

  lemma NextMillisecondIsNextDay(nowMs: int)
    requires nowMs % MS_PER_DAY == MS_PER_DAY - 1
    ensures (nowMs + 1) / MS_PER_DAY == nowMs / MS_PER_DAY + 1
  {
  }

  lemma Steps3(s: System, x: Step, y: Step, z: Step, rest: seq<Step>)
    ensures Steps(s, [x, y, z] + rest) == Steps(DoStep(DoStep(DoStep(s, x), y), z), rest)
  {
    hide DoStep;
    assert [x, y, z] + rest == [x, y] + ([z] + rest);
    Steps2(s, x, y, [z] + rest);
    assert ([z] + rest)[1..] == rest;
  }

  lemma NoSteps(s: System)
    ensures Steps(s, []) == s
  {
  }

  /** One wallet, and its check-in begun a millisecond ago. */
  function BegunSystem(e: Enrollment, nowMs: int): System {
    System(nowMs + 1, [e], [], [], map[0 := Txn(e.address, nowMs, UtcDay(nowMs), e.address, Started)], map[])
  }

  lemma BegunBeforeMidnight(e: Enrollment, nowMs: int) returns (s: System)
    ensures s == DoStep(DoStep(DoStep(NOTHING.(nowMs := nowMs), NewWallet(e)), Begin(0, e.address)), Advance(1))
    ensures s == BegunSystem(e, nowMs)
  {
    hide UtcDay;
    var s1 := DoStep(NOTHING.(nowMs := nowMs), NewWallet(e));
    assert s1 == System(nowMs, [e], [], [], map[], map[]);
    var s2 := DoStep(s1, Begin(0, e.address));
    s := DoStep(s2, Advance(1));
  }

  lemma CommittedAfterMidnight(e: Enrollment, nowMs: int, s: System)
    requires s == BegunSystem(e, nowMs)
    ensures var s6 := DoStep(DoStep(DoStep(s, Lock(0)), CountDay(0)), InsertCheckin(0));
            var s8 := DoStep(DoStep(s6, InsertRow(0)), Commit(0));
            s8.checkins == [(e.address, UtcDay(nowMs))] && s8.nowMs == nowMs + 1
  {
    hide UtcDay, Lower, DoStep;
    var s6 := LockedAndWritten(e, nowMs, s);
    WrittenAndCommitted(e, nowMs, s6);
  }

  lemma LockedAndWritten(e: Enrollment, nowMs: int, s: System) returns (s6: System)
    requires s == BegunSystem(e, nowMs)
    ensures s6 == DoStep(DoStep(DoStep(s, Lock(0)), CountDay(0)), InsertCheckin(0))
    ensures s6 == s.(txns := map[0 := Txn(e.address, nowMs, UtcDay(nowMs), e.address, WroteCheckin)],
                     locks := map[Lower(e.address) := 0])
  {
    hide UtcDay, Lower;
    var x := Txn(e.address, nowMs, UtcDay(nowMs), e.address, Locked);
    var s4 := DoStep(s, Lock(0));
    assert s4 == s.(txns := map[0 := x], locks := map[Lower(e.address) := 0]);
    var s5 := DoStep(s4, CountDay(0));
    assert s5 == s4.(txns := map[0 := x.(stage := Counted)]);
    s6 := DoStep(s5, InsertCheckin(0));
  }

  lemma WrittenAndCommitted(e: Enrollment, nowMs: int, s: System)
    requires s == System(nowMs + 1, [e], [], [],
                         map[0 := Txn(e.address, nowMs, UtcDay(nowMs), e.address, WroteCheckin)],
                         map[Lower(e.address) := 0])
    ensures var s8 := DoStep(DoStep(s, InsertRow(0)), Commit(0));
            s8.checkins == [(e.address, UtcDay(nowMs))] && s8.nowMs == nowMs + 1
  {
    hide UtcDay, Lower;
    var s7 := DoStep(s, InsertRow(0));
    assert s7 == s.(txns := map[0 := s.txns[0].(stage := WroteRow)]);
  }

  lemma Steps2(s: System, x: Step, y: Step, rest: seq<Step>)
    ensures Steps(s, [x, y] + rest) == Steps(DoStep(DoStep(s, x), y), rest)
  {
    hide DoStep;
    assert ([x, y] + rest)[1..] == [y] + rest;
    assert ([y] + rest)[1..] == rest;
  }
}

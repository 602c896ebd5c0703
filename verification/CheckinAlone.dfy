/**
 A check-in whose statements run with none of its own wallet's in between is the atomic check-in of the
 moment it began, whatever the other wallets' transactions are doing; and it takes at most five seconds.
 */
module CheckinAlone {
  import opened Wrappers
  import opened Calendar
  import opened CampaignRules
  import opened PointsLedger
  import opened Campaign
  import opened CampaignHistory
  import opened CheckinConcurrency

  /** The statements behind the lock. */
  function BehindLock(t: nat): seq<Step> {
    [CountDay(t), InsertCheckin(t), InsertRow(t), Commit(t)]
  }

  /** A whole transaction, its lock taken `ms` after it began. */
  function CheckinOf(t: nat, address: string, ms: nat): seq<Step> {
    [Begin(t, address), Advance(ms)] + ([Lock(t)] + BehindLock(t))
  }

  /** The committed tables. */
  function Committed(s: System): State {
    State(s.nowMs, s.enrollments, [], s.checkins, [], s.ledger, [])
  }

  predicate IsStatementOf(step: Step, t: nat) {
    step == Lock(t) || step == CountDay(t) || step == InsertCheckin(t) || step == InsertRow(t) || step == Commit(t)
  }

  lemma FirstStep(s: System, step: Step, rest: seq<Step>)
    ensures Steps(s, [step] + rest) == Steps(DoStep(s, step), rest)
  {
    hide DoStep;
    assert ([step] + rest)[1..] == rest;
  }

  lemma EndedIgnores(s: System, t: nat, step: Step)
    requires t in s.txns && !IsOpen(s.txns[t]) && IsStatementOf(step, t)
    ensures DoStep(s, step) == s
  {
    hide FindEnrollment, WrittenInFlight, Conflicts, StreakRow, TimedOut;
  }

  /** A transaction that has ended does nothing more. */
  lemma {:induction false} EndedStays(s: System, t: nat, steps: seq<Step>)
    requires t in s.txns && !IsOpen(s.txns[t]) && forall step :: step in steps ==> IsStatementOf(step, t)
    ensures Steps(s, steps) == s
    decreases |steps|
  {
    hide DoStep, IsStatementOf, IsOpen;
    if steps == [] {
      NoSteps(s);
    } else {
      EndedIgnores(s, t, steps[0]);
      assert steps == [steps[0]] + steps[1..];
      FirstStep(s, steps[0], steps[1..]);
      EndedStays(s, t, steps[1..]);
    }
  }

  lemma FourSteps(s: System, a: Step, b: Step, c: Step, d: Step)
    ensures Steps(s, [a, b, c, d]) == DoStep(DoStep(DoStep(DoStep(s, a), b), c), d)
  {
    hide DoStep, Steps;
    assert [a, b, c, d] == [a, b] + [c, d] && [c, d] == [c, d] + [];
    Steps2(s, a, b, [c, d]);
    Steps2(DoStep(DoStep(s, a), b), c, d, []);
    NoSteps(DoStep(DoStep(DoStep(DoStep(s, a), b), c), d));
  }

  /** A day with a check-in is refused by the count, and everything is as before. */
  lemma LockedIsRefused(s: System, t: nat)
    requires t in s.txns && s.txns[t].stage == Locked && !TimedOut(s.txns[t], s.nowMs)
    requires (s.txns[t].address, s.txns[t].day) in s.checkins
    ensures Steps(s, BehindLock(t)) == Released(s, t, Refused(AlreadyCheckedIn))
  {
    hide Steps, DoStep;
    var rest := [InsertCheckin(t), InsertRow(t), Commit(t)];
    assert BehindLock(t) == [CountDay(t)] + rest;
    FirstStep(s, CountDay(t), rest);
    CountRefuses(s, t);
    EndedStays(Released(s, t, Refused(AlreadyCheckedIn)), t, rest);
  }

  lemma CountRefuses(s: System, t: nat)
    requires t in s.txns && s.txns[t].stage == Locked && !TimedOut(s.txns[t], s.nowMs)
    requires (s.txns[t].address, s.txns[t].day) in s.checkins
    ensures DoStep(s, CountDay(t)) == Released(s, t, Refused(AlreadyCheckedIn))
  {
    hide TimedOut;
  }

  /** A free day gets its check-in and its row. */
  lemma LockedCommits(s: System, t: nat)
    requires SystemOk(s) && t in s.txns && s.txns[t].stage == Locked && !TimedOut(s.txns[t], s.nowMs)
    requires (s.txns[t].address, s.txns[t].day) !in s.checkins
    ensures var x := s.txns[t];
            Steps(s, BehindLock(t)) ==
            Released(s, t, Accepted).(checkins := s.checkins + [(x.address, x.day)],
                                      ledger := s.ledger + [StreakRow(x.address, x.day)])
  {
    hide Steps, DoStep, SystemOk, StreakRow;
    FourSteps(s, CountDay(t), InsertCheckin(t), InsertRow(t), Commit(t));
    CountPasses(s, t);
    StepKeepsOk(s, CountDay(t));
    var s1 := Moved(s, t, Counted);
    CheckinIsInserted(s1, t);
    StepKeepsOk(s1, InsertCheckin(t));
    var s2 := Moved(s1, t, WroteCheckin);
    RowIsInserted(s2, t);
    var s3 := Moved(s2, t, WroteRow);
    CommitWrites(s3, t);
    assert s3.txns[t := s3.txns[t].(stage := Accepted)] == s.txns[t := s.txns[t].(stage := Accepted)];
  }

  lemma CountPasses(s: System, t: nat)
    requires t in s.txns && s.txns[t].stage == Locked && !TimedOut(s.txns[t], s.nowMs)
    requires (s.txns[t].address, s.txns[t].day) !in s.checkins
    ensures DoStep(s, CountDay(t)) == Moved(s, t, Counted)
  {
    hide TimedOut;
  }

  lemma CheckinIsInserted(s: System, t: nat)
    requires SystemOk(s) && t in s.txns && s.txns[t].stage == Counted && !TimedOut(s.txns[t], s.nowMs)
    ensures DoStep(s, InsertCheckin(t)) == Moved(s, t, WroteCheckin)
  {
    hide TimedOut, WrittenInFlight, CheckinsOk, EnrollmentsOk;
    assert TxnOk(s, t);
    InsertsNeverCollide(s, t);
  }

  lemma RowIsInserted(s: System, t: nat)
    requires SystemOk(s) && t in s.txns && s.txns[t].stage == WroteCheckin && !TimedOut(s.txns[t], s.nowMs)
    ensures DoStep(s, InsertRow(t)) == Moved(s, t, WroteRow)
  {
    hide TimedOut, WrittenInFlight, CheckinsOk, EnrollmentsOk, Conflicts, StreakRow;
    InsertsNeverCollide(s, t);
    HolderMeetsNoRow(s, t);
  }

  lemma CommitWrites(s: System, t: nat)
    requires t in s.txns && s.txns[t].stage == WroteRow && !TimedOut(s.txns[t], s.nowMs)
    ensures var x := s.txns[t];
            DoStep(s, Commit(t)) ==
            Released(s, t, Accepted).(checkins := s.checkins + [(x.address, x.day)],
                                      ledger := s.ledger + [StreakRow(x.address, x.day)])
  {
    hide TimedOut, StreakRow;
  }

  /** Begun, and `ms` later. */
  function Begun(s: System, t: nat, address: string, ms: nat): System {
    s.(nowMs := s.nowMs + ms, txns := s.txns[t := Txn(address, s.nowMs, UtcDay(s.nowMs), address, Started)])
  }

  lemma Begins(s: System, t: nat, address: string, ms: nat)
    requires t !in s.txns
    ensures Steps(s, CheckinOf(t, address, ms)) == Steps(DoStep(Begun(s, t, address, ms), Lock(t)), BehindLock(t))
  {
    hide Steps, UtcDay;
    BeginAndWait(s, t, address, ms);
    hide DoStep, Begun;
    Steps2(s, Begin(t, address), Advance(ms), [Lock(t)] + BehindLock(t));
    FirstStep(Begun(s, t, address, ms), Lock(t), BehindLock(t));
  }

  lemma BeginAndWait(s: System, t: nat, address: string, ms: nat)
    requires t !in s.txns
    ensures DoStep(DoStep(s, Begin(t, address)), Advance(ms)) == Begun(s, t, address, ms)
  {
    hide UtcDay;
  }

  /** The lock is refused to a wallet that is not enrolled, and to a transaction over its limit. */
  lemma LockIsRefused(s: System, t: nat)
    requires t in s.txns && s.txns[t].stage == Started
    ensures TimedOut(s.txns[t], s.nowMs) ==> DoStep(s, Lock(t)) == Moved(s, t, RolledBack)
    ensures !TimedOut(s.txns[t], s.nowMs) && FindEnrollment(s.enrollments, s.txns[t].request).None? ==>
              DoStep(s, Lock(t)) == Moved(s, t, Refused(NotEnrolled))
  {
    hide TimedOut, FindEnrollment;
  }

  lemma LockIsTaken(s: System, t: nat)
    requires t in s.txns && s.txns[t].stage == Started && !TimedOut(s.txns[t], s.nowMs)
    requires FindEnrollment(s.enrollments, s.txns[t].request).Some?
    requires Lower(s.txns[t].request) !in s.locks
    ensures var a := FindEnrollment(s.enrollments, s.txns[t].request).value.address;
            && Lower(a) == Lower(s.txns[t].request)
            && DoStep(s, Lock(t)) == s.(txns := s.txns[t := s.txns[t].(stage := Locked, address := a)],
                                        locks := s.locks[Lower(a) := t])
  {
    hide TimedOut, FindEnrollment, Lower;
    FoundEnrollment(s.enrollments, s.txns[t].request);
  }

  /** How it ends: within five seconds with the answer of the atomic check-in, later with none. */
  function Outcome(refusal: Option<Refusal>, ms: nat): Stage {
    if ms > 5_000 then RolledBack else if refusal.None? then Accepted else Refused(refusal.value)
  }

  lemma EndsWithoutLock(s: System, t: nat, address: string, ms: nat)
    requires t !in s.txns && (ms > 5_000 || FindEnrollment(s.enrollments, address).None?)
    ensures var end := Steps(s, CheckinOf(t, address, ms));
            && (end.checkins, end.ledger, end.enrollments, end.locks) ==
               (s.checkins, s.ledger, s.enrollments, s.locks)
            && t in end.txns && end.txns == s.txns[t := end.txns[t]] && end.nowMs == s.nowMs + ms
            && end.txns[t].stage == Outcome(Some(NotEnrolled), ms)
  {
    hide FindEnrollment, UtcDay, Steps, DoStep;
    Begins(s, t, address, ms);
    var b := Begun(s, t, address, ms);
    LockIsRefused(b, t);
    EndedStays(DoStep(b, Lock(t)), t, BehindLock(t));
  }

  /**
   With its wallet's lock free a check-in ends, lock taken within five seconds, as the atomic check-in of
   the moment it began: same answer, same tables. Later it leaves no trace. Other transactions and locks
   stay as they are.
   */
  lemma AloneIsTheAtomicCheckin(s: System, g: Gate, t: nat, address: string, ms: nat)
    requires SystemOk(s) && t !in s.txns && Lower(address) !in s.locks
    requires StatusRefusal(g, s.nowMs).None? && g.proven
    ensures var end := Steps(s, CheckinOf(t, address, ms));
            var (after, refusal) := Checkin(Committed(s), g, address);
            && t in end.txns && end.txns == s.txns[t := end.txns[t]] && end.locks == s.locks
            && end.txns[t].stage == Outcome(refusal, ms)
            && Committed(end) == (if ms > 5_000 then Committed(s) else after).(nowMs := s.nowMs + ms)
  {
    hide FindEnrollment, UtcDay, Steps, DoStep, SystemOk, Conflicts, StreakRow, Lower, StatusRefusal, CheckinOf;
    var e := FindEnrollment(s.enrollments, address);
    if ms > 5_000 || e.None? {
      EndsWithoutLock(s, t, address, ms);
    } else {
      EndsWithLock(s, g, t, address, ms);
    }
  }

  lemma EndsWithLock(s: System, g: Gate, t: nat, address: string, ms: nat)
    requires SystemOk(s) && t !in s.txns && Lower(address) !in s.locks
    requires StatusRefusal(g, s.nowMs).None? && g.proven
    requires ms <= 5_000 && FindEnrollment(s.enrollments, address).Some?
    ensures var end := Steps(s, CheckinOf(t, address, ms));
            var (after, refusal) := Checkin(Committed(s), g, address);
            && t in end.txns && end.txns == s.txns[t := end.txns[t]] && end.locks == s.locks
            && end.txns[t].stage == Outcome(refusal, ms)
            && Committed(end) == after.(nowMs := s.nowMs + ms)
  {
    hide FindEnrollment, UtcDay, Steps, DoStep, SystemOk, Conflicts, StreakRow, Lower, StatusRefusal, CheckinOf,
         BehindLock;
    Begins(s, t, address, ms);
    BegunIsOk(s, t, address, ms);
    var b := Begun(s, t, address, ms);
    LockIsTaken(b, t);
    StepKeepsOk(b, Lock(t));
    var c := DoStep(b, Lock(t));
    var a := c.txns[t].address;
    CheckinBooksOf(s, g, address);
    if (a, UtcDay(s.nowMs)) in s.checkins {
      LockedIsRefused(c, t);
    } else {
      LockedCommits(c, t);
    }
    assert c.locks - {Lower(a)} == s.locks;
  }

  lemma BegunIsOk(s: System, t: nat, address: string, ms: nat)
    requires SystemOk(s) && t !in s.txns
    ensures SystemOk(Begun(s, t, address, ms))
  {
    hide DoStep, Begun, SystemOk;
    BeginAndWait(s, t, address, ms);
    StepKeepsOk(s, Begin(t, address));
    StepKeepsOk(DoStep(s, Begin(t, address)), Advance(ms));
  }

  lemma CheckinBooksOf(s: System, g: Gate, address: string)
    requires SystemOk(s)
    ensures Checkin(Committed(s), g, address).1 != Some(UniqueViolation)
  {
    hide Checkin, EnrollmentsOk, CheckinsOk, TxnOk;
    CheckinNeverHitsTheIndex(Committed(s), g, address);
  }
}

/**
 Award-time determinism over histories: check-ins only ever enter on the day they are made, so the
 award of a witness is the same whichever later run of the job writes it.
 */
module AwardDeterminism {
  import opened Wrappers
  import opened Calendar
  import opened CampaignRules
  import opened PointsLedger
  import opened Campaign
  import opened CampaignHistory
  import opened AwardPlanner
  import opened AwardSchedule

  function CheckinDaysOf(checkins: seq<(string, Civil)>, wallet: string): set<Civil> {
    set i | 0 <= i < |checkins| && Lower(checkins[i].0) == wallet :: checkins[i].1
  }

  /** The world a run reads: every wallet's committed check-in days. */
  function WorldOf(checkins: seq<(string, Civil)>, window: Window): World {
    World(map i | 0 <= i < |checkins| :: Lower(checkins[i].0) := CheckinDaysOf(checkins, Lower(checkins[i].0)), window)
  }

  lemma DaysOfWorld(checkins: seq<(string, Civil)>, window: Window, wallet: string)
    ensures DaysOf(WorldOf(checkins, window), wallet) == CheckinDaysOf(checkins, wallet)
  {
    if wallet !in WorldOf(checkins, window).checkins {
      assert forall i :: 0 <= i < |checkins| ==> Lower(checkins[i].0) in WorldOf(checkins, window).checkins;
    }
  }

  /** Check-in days of `s` survive, and the new ones are no earlier than its own today. */
  ghost predicate OnlyLaterCheckins(s: State, t: State) {
    && s.nowMs <= t.nowMs
    && |s.checkins| <= |t.checkins| && t.checkins[..|s.checkins|] == s.checkins
    && forall i :: |s.checkins| <= i < |t.checkins| ==>
      IsCivil(t.checkins[i].1) && DayNumber(t.checkins[i].1) >= s.nowMs / MS_PER_DAY
  }

  lemma StepAddsLaterCheckins(s: State, e: Event)
    ensures OnlyLaterCheckins(s, Apply(s, e))
  {
    hide FindEnrollment, FindEnrollmentByCode, EnrollRefusal, ClaimRefusal, Sum, Conflicts, StreakRow, IsCivil,
         DayNumber, CivilOf, PerksFor, InsertPerks, FindSocialRow, ActiveClaimsOf, ClaimKeyTaken, InsertIdempotent;
    var t := Apply(s, e);
    assert t.checkins == s.checkins || t.checkins == s.checkins + [t.checkins[|s.checkins|]];
  }

  lemma {:induction false} HistoryAddsLaterCheckins(s: State, events: seq<Event>)
    ensures OnlyLaterCheckins(s, History(s, events))
    decreases |events|
  {
    hide Apply, IsCivil, DayNumber;
    if events != [] {
      var m := Apply(s, events[0]);
      StepAddsLaterCheckins(s, events[0]);
      HistoryAddsLaterCheckins(m, events[1..]);
      var t := History(m, events[1..]);
      assert t.checkins[..|s.checkins|] == t.checkins[..|m.checkins|][..|s.checkins|];
      forall i | |s.checkins| <= i < |t.checkins|
        ensures IsCivil(t.checkins[i].1) && DayNumber(t.checkins[i].1) >= s.nowMs / MS_PER_DAY
      {
        LaterDayIsLater(s.nowMs, m.nowMs);
        if i < |m.checkins| {
          assert t.checkins[..|m.checkins|][i] == t.checkins[i];
        }
      }
    }
  }

  lemma LaterDayIsLater(a: int, b: int)
    requires a <= b
    ensures a / MS_PER_DAY <= b / MS_PER_DAY
  {
  }

  /**
   Once a witness has closed, its award is settled: any state reached later gives it the same row,
   whatever check-ins, claims and runs came in between.
   */
  lemma AwardIsSettledAtClose(s: State, more: seq<Event>, c: Candidate, window: Window)
    requires c.closedAtMs <= s.nowMs
    ensures AwardRow(c, WorldOf(History(s, more).checkins, window)) == AwardRow(c, WorldOf(s.checkins, window))
  {
    hide AwardRow, IsCivil, DayNumber, CivilOf, Apply;
    var t := History(s, more);
    var w := Lower(c.address);
    HistoryAddsLaterCheckins(s, more);
    DaysOfWorld(s.checkins, window, w);
    DaysOfWorld(t.checkins, window, w);
    LaterDayIsLater(c.closedAtMs, s.nowMs);
    assert forall i :: 0 <= i < |s.checkins| ==> t.checkins[..|s.checkins|][i] == t.checkins[i] == s.checkins[i];
    forall d | d in CheckinDaysOf(s.checkins, w) ensures d in CheckinDaysOf(t.checkins, w) {
      var i :| 0 <= i < |s.checkins| && Lower(s.checkins[i].0) == w && s.checkins[i].1 == d;
      assert t.checkins[..|s.checkins|][i] == t.checkins[i];
    }
    forall d | d in CheckinDaysOf(t.checkins, w) - CheckinDaysOf(s.checkins, w)
      ensures IsCivil(d) && DayNumber(d) >= DayNumber(UtcDay(c.closedAtMs))
    {
      var i :| 0 <= i < |t.checkins| && Lower(t.checkins[i].0) == w && t.checkins[i].1 == d;
      assert i >= |s.checkins|;
    }
    AwardIsTimeIndependent(c, WorldOf(s.checkins, window), WorldOf(t.checkins, window));
  }
}

/**
 What the award job guarantees over whole histories of runs: the order of witnesses, the way they
 are split into runs and the runs that die half-way do not change what is awarded.
 */
module AwardSchedule {
  import opened Wrappers
  import opened Calendar
  import opened CampaignRules
  import opened PointsLedger
  import opened AwardPlanner

  // ---- One run ----

  /** The ledger row an award of `c` writes; it does not depend on when the award is decided. */
  function AwardRow(c: Candidate, world: World): Row {
    var day, base := UtcDay(c.closedAtMs), RuleOf(c.kind).basePoints;
    var multiplier := StreakMultiplier(StreakFor(world, Lower(c.address), day));
    Row(c.address, Action(c.kind), base, multiplier, PointsFor(base, multiplier), WitnessTx(c.txHash), Some(day))
  }

  function RowOfAward(a: PlannedAward): Row {
    Row(a.address, Action(a.kind), a.basePoints, a.multiplier, a.points, WitnessTx(a.txHash), Some(a.countedDay))
  }

  function RowsOf(awards: seq<PlannedAward>): seq<Row> {
    seq(|awards|, i requires 0 <= i < |awards| => RowOfAward(awards[i]))
  }

  predicate Eligible(c: Candidate, world: World) {
    && WithinWindow(world.window, c.closedAtMs)
    && RuleOf(c.kind).dailyCap > 0
    && (RuleOf(c.kind).requiresMinNotional ==> c.meetsMinNotional)
  }

  predicate HasRow(ledger: seq<Row>, c: Candidate) {
    exists i :: 0 <= i < |ledger| && ledger[i].reason == Action(c.kind) && ledger[i].reference == WitnessTx(c.txHash)
  }

  /** findActionCandidates: awardable kinds, inside the window, without a ledger row, order kept. */
  function CandidatesOf(witnesses: seq<Candidate>, ledger: seq<Row>, world: World): seq<Candidate> {
    if witnesses == [] then []
    else
      var c := witnesses[0];
      var rest := CandidatesOf(witnesses[1..], ledger, world);
      if c.kind != BlendWithdraw && WithinWindow(world.window, c.closedAtMs) && !HasRow(ledger, c) then [c] + rest
      else rest
  }

  /** The counters of the ledger, as countedActionsByDay and countsFromRows deliver them. */
  function CountsOf(ledger: seq<Row>): Counts {
    if ledger == [] then map[]
    else
      var counts, r := CountsOf(ledger[..|ledger| - 1]), ledger[|ledger| - 1];
      if r.reason.Action? && r.countedDay.Some? then
        Bump(counts, ActionsOn(Lower(r.address), r.reason.kind, r.countedDay.value), 1)
      else counts
  }

  lemma {:induction false} CountsOfMatches(ledger: seq<Row>)
    ensures CountsMatch(CountsOf(ledger), ledger)
  {
    if ledger != [] {
      CountsOfMatches(ledger[..|ledger| - 1]);
    }
  }

  /** Only what the counters say matters to the plan, not how they were built. */
  lemma {:induction false} AwardsDependOnCounts(cs: seq<Candidate>, a: Counts, b: Counts, world: World)
    requires forall wallet, kind, day :: Get(a, ActionsOn(wallet, kind, day)) == Get(b, ActionsOn(wallet, kind, day))
    ensures Awards(cs, a, world) == Awards(cs, b, world)
    ensures Skips(cs, a, world) == Skips(cs, b, world)
  {
    if cs != [] {
      var key := KeyOf(cs[0]);
      if Decide(cs[0], Get(a, key), world).Granted? {
        AwardsDependOnCounts(cs[1..], Bump(a, key, 1), Bump(b, key, 1), world);
      } else {
        AwardsDependOnCounts(cs[1..], a, b, world);
      }
    }
  }

  function PlanFor(witnesses: seq<Candidate>, ledger: seq<Row>, world: World): seq<PlannedAward> {
    Awards(CandidatesOf(witnesses, ledger, world), CountsOf(ledger), world)
  }

  /** The actions step of one run, reading the ledger and the witnesses and planning the awards. */
  method PlanRun(witnesses: seq<Candidate>, ledger: seq<Row>, world: World)
    returns (awards: seq<PlannedAward>, skipped: SkipCounts)
    ensures awards == PlanFor(witnesses, ledger, world)
    ensures skipped == Skips(CandidatesOf(witnesses, ledger, world), CountsOf(ledger), world)
    ensures |awards| + skipped.Total() == |CandidatesOf(witnesses, ledger, world)|
  {
    var counts := CountsFromRows(CountedActionsByDay(ledger));
    forall wallet, kind, day
      ensures Get(counts, ActionsOn(wallet, kind, day)) == Get(CountsOf(ledger), ActionsOn(wallet, kind, day))
    {
      GroupedCountsAreLedgerCounts(ledger, wallet, kind, day);
      CountsOfMatches(ledger);
    }
    AwardsDependOnCounts(CandidatesOf(witnesses, ledger, world), counts, CountsOf(ledger), world);
    awards, skipped := PlanActionAwards(CandidatesOf(witnesses, ledger, world), counts, world);
  }

  /** A granted candidate is eligible and under its cap, and its row is the fixed one. */
  lemma GrantedMeans(c: Candidate, counted: int, world: World)
    ensures Decide(c, counted, world).Granted? <==> Eligible(c, world) && counted < RuleOf(c.kind).dailyCap
    ensures Decide(c, counted, world).Granted? ==>
              RowOfAward(ToPlanned(c, Decide(c, counted, world))) == AwardRow(c, world)
  {
  }

  // ---- Crash and resume ----

  ghost predicate DistinctTx(cs: seq<Candidate>) {
    forall i, j :: 0 <= i < j < |cs| ==> cs[i].txHash != cs[j].txHash
  }

  /** Awards carry the transaction hashes of their candidates. */
  lemma {:induction false} AwardsComeFrom(cs: seq<Candidate>, counts: Counts, world: World, i: nat)
    requires i < |Awards(cs, counts, world)|
    ensures exists j :: 0 <= j < |cs| && Awards(cs, counts, world)[i].txHash == cs[j].txHash
  {
    hide Decide;
    var a := Decide(cs[0], Get(counts, KeyOf(cs[0])), world);
    if a.Granted? {
      if i > 0 {
        AwardsComeFrom(cs[1..], Bump(counts, KeyOf(cs[0]), 1), world, i - 1);
      }
    } else {
      AwardsComeFrom(cs[1..], counts, world, i);
    }
  }

  /** The candidates that a ledger leaves without a row. */
  function Unrecorded(cs: seq<Candidate>, ledger: seq<Row>): seq<Candidate> {
    if cs == [] then []
    else if HasRow(ledger, cs[0]) then Unrecorded(cs[1..], ledger)
    else [cs[0]] + Unrecorded(cs[1..], ledger)
  }

  lemma {:induction false} NothingRecorded(cs: seq<Candidate>, ledger: seq<Row>)
    requires forall c :: c in cs ==> !HasRow(ledger, c)
    ensures Unrecorded(cs, ledger) == cs
  {
    if cs != [] {
      NothingRecorded(cs[1..], ledger);
    }
  }

  lemma {:induction false} CandidatesAreUnrecorded(witnesses: seq<Candidate>, ledger: seq<Row>, rows: seq<Row>,
                                                   world: World)
    ensures CandidatesOf(witnesses, ledger + rows, world) ==
            Unrecorded(CandidatesOf(witnesses, ledger, world), ledger + rows)
    ensures forall c :: c in CandidatesOf(witnesses, ledger, world) ==> c in witnesses && !HasRow(ledger, c)
  {
    if witnesses != [] {
      CandidatesAreUnrecorded(witnesses[1..], ledger, rows, world);
      var c := witnesses[0];
      if i :| 0 <= i < |ledger| && ledger[i].reason == Action(c.kind) && ledger[i].reference == WitnessTx(c.txHash) {
        assert (ledger + rows)[i] == ledger[i];
        assert HasRow(ledger + rows, c);
      }
    }
  }

  lemma {:induction false} CandidatesKeepDistinctTx(witnesses: seq<Candidate>, ledger: seq<Row>, world: World)
    requires DistinctTx(witnesses)
    ensures DistinctTx(CandidatesOf(witnesses, ledger, world))
  {
    if witnesses != [] {
      var rest := CandidatesOf(witnesses[1..], ledger, world);
      CandidatesKeepDistinctTx(witnesses[1..], ledger, world);
      CandidatesAreUnrecorded(witnesses[1..], ledger, [], world);
      assert forall j :: 0 <= j < |rest| ==> rest[j] in witnesses[1..];
    }
  }

  /** Rows of other candidates' awards do not record `c`. */
  lemma OthersDoNotRecord(c: Candidate, rest: seq<Candidate>, counts: Counts, ledger: seq<Row>, k: nat, world: World)
    requires DistinctTx([c] + rest) && !HasRow(ledger, c)
    requires k <= |Awards(rest, counts, world)|
    ensures !HasRow(ledger + RowsOf(Awards(rest, counts, world)[..k]), c)
  {
    hide Awards;
    var awards := Awards(rest, counts, world);
    forall i | 0 <= i < k ensures awards[i].txHash != c.txHash {
      AwardsComeFrom(rest, counts, world, i);
      var j :| 0 <= j < |rest| && awards[i].txHash == rest[j].txHash;
      assert ([c] + rest)[0] == c && ([c] + rest)[j + 1] == rest[j];
    }
  }

  predicate Earns(c: Candidate, ledger: seq<Row>, world: World) {
    Eligible(c, world) && Count(ledger, KeyOf(c)) < RuleOf(c.kind).dailyCap
  }

  /** The plan's head, told on the ledger: an award behaves as if its row were already there. */
  lemma PlanHead(c: Candidate, rest: seq<Candidate>, ledger: seq<Row>, world: World)
    ensures var awards := Awards([c] + rest, CountsOf(ledger), world);
            if Earns(c, ledger, world) then
              && awards != [] && RowOfAward(awards[0]) == AwardRow(c, world)
              && awards[1..] == Awards(rest, CountsOf(ledger + [AwardRow(c, world)]), world)
            else awards == Awards(rest, CountsOf(ledger), world)
  {
    hide Decide, Eligible, StreakFor, UtcDay, PointsFor, StreakMultiplier;
    CountsOfMatches(ledger);
    GrantedMeans(c, Get(CountsOf(ledger), KeyOf(c)), world);
    assert (ledger + [AwardRow(c, world)])[..|ledger|] == ledger;
    assert ([c] + rest)[1..] == rest;
  }

  lemma {:induction false} ResumeFrom(cs: seq<Candidate>, ledger: seq<Row>, k: nat, world: World)
    requires DistinctTx(cs) && forall c :: c in cs ==> !HasRow(ledger, c)
    requires k <= |Awards(cs, CountsOf(ledger), world)|
    ensures var awards := Awards(cs, CountsOf(ledger), world);
            var after := ledger + RowsOf(awards[..k]);
            Awards(Unrecorded(cs, after), CountsOf(after), world) == awards[k..]
  {
    hide Awards, CountsOf, HasRow, AwardRow, Earns, RowOfAward;
    var awards := Awards(cs, CountsOf(ledger), world);
    var after := ledger + RowsOf(awards[..k]);
    if k == 0 {
      assert after == ledger;
      NothingRecorded(cs, ledger);
    } else if cs == [] {
      NoCandidatesNoAwards(CountsOf(ledger), world);
    } else {
      var c, rest := cs[0], cs[1..];
      assert cs == [c] + rest;
      PlanHead(c, rest, ledger, world);
      if Earns(c, ledger, world) {
        var row := AwardRow(c, world);
        var next := ledger + [row];
        forall d | d in rest ensures !HasRow(next, d) {
          AppendOther(ledger, c, d, world);
        }
        ResumeFrom(rest, next, k - 1, world);
        assert RowsOf(awards[..k]) == [row] + RowsOf(awards[1..][..k - 1]);
        assert after == next + RowsOf(awards[1..][..k - 1]);
        RecordedByRow(after, |ledger|, c, world);
        assert awards[k..] == awards[1..][k - 1..];
      } else {
        ResumeFrom(rest, ledger, k, world);
        OthersDoNotRecord(c, rest, CountsOf(ledger), ledger, k, world);
        StillDoesNotEarn(c, ledger, RowsOf(awards[..k]), world);
        PlanHead(c, Unrecorded(rest, after), after, world);
      }
    }
  }

  lemma NoCandidatesNoAwards(counts: Counts, world: World)
    ensures Awards([], counts, world) == []
  {
  }

  lemma StillDoesNotEarn(c: Candidate, ledger: seq<Row>, rows: seq<Row>, world: World)
    requires !Earns(c, ledger, world)
    ensures !Earns(c, ledger + rows, world)
  {
    CountGrows(ledger, rows, KeyOf(c));
  }

  lemma AppendOther(ledger: seq<Row>, c: Candidate, d: Candidate, world: World)
    requires !HasRow(ledger, d) && c.txHash != d.txHash
    ensures !HasRow(ledger + [AwardRow(c, world)], d)
  {
  }

  lemma RecordedByRow(ledger: seq<Row>, i: nat, c: Candidate, world: World)
    requires i < |ledger| && ledger[i] == AwardRow(c, world)
    ensures HasRow(ledger, c)
  {
  }

  /**
   If only the first `k` planned awards reach the ledger, the next run plans exactly the rest, in
   the same order and with the same points. With `k` the whole plan, it plans nothing.
   */
  lemma CrashAndResume(witnesses: seq<Candidate>, ledger: seq<Row>, k: nat, world: World)
    requires DistinctTx(witnesses)
    requires k <= |PlanFor(witnesses, ledger, world)|
    ensures var plan := PlanFor(witnesses, ledger, world);
            PlanFor(witnesses, ledger + RowsOf(plan[..k]), world) == plan[k..]
  {
    var plan := PlanFor(witnesses, ledger, world);
    CandidatesKeepDistinctTx(witnesses, ledger, world);
    CandidatesAreUnrecorded(witnesses, ledger, RowsOf(plan[..k]), world);
    ResumeFrom(CandidatesOf(witnesses, ledger, world), ledger, k, world);
  }

  lemma RerunAwardsNothing(witnesses: seq<Candidate>, ledger: seq<Row>, world: World)
    requires DistinctTx(witnesses)
    ensures PlanFor(witnesses, ledger + RowsOf(PlanFor(witnesses, ledger, world)), world) == []
  {
    var plan := PlanFor(witnesses, ledger, world);
    assert plan[..|plan|] == plan;
    CrashAndResume(witnesses, ledger, |plan|, world);
  }

  // ---- Schedules ----

  /**
   One run of the job: the witnesses it sees, in the order it sees them, and how many of the
   planned awards it writes before it stops.
   */
  datatype Run = Run(witnesses: seq<Candidate>, written: nat)

  function AfterRun(ledger: seq<Row>, run: Run, world: World): seq<Row> {
    var plan := PlanFor(run.witnesses, ledger, world);
    ledger + RowsOf(if run.written <= |plan| then plan[..run.written] else plan)
  }

  function AfterRuns(ledger: seq<Row>, runs: seq<Run>, world: World): seq<Row>
    decreases |runs|
  {
    if runs == [] then ledger else AfterRuns(AfterRun(ledger, runs[0], world), runs[1..], world)
  }

  /** The witnesses of one (wallet, kind, day) that may still earn on this ledger. */
  ghost function Pending(all: set<Candidate>, ledger: seq<Row>, key: Selector, world: World): set<Candidate> {
    set c | c in all && KeyOf(c) == key && Eligible(c, world) && !HasRow(ledger, c)
  }

  ghost predicate UniqueTx(all: set<Candidate>) {
    forall c, d :: c in all && d in all && c.txHash == d.txHash ==> c == d
  }

  /** `row` is the award of a pending witness below its cap. */
  ghost predicate IsAward(all: set<Candidate>, ledger: seq<Row>, row: Row, world: World) {
    exists c :: c in all && row == AwardRow(c, world) && !HasRow(ledger, c) && Earns(c, ledger, world)
  }

  /** Rows that are appended one such award at a time. */
  ghost predicate AppendsAwards(all: set<Candidate>, ledger: seq<Row>, rows: seq<Row>, world: World)
    decreases |rows|
  {
    rows == [] || (IsAward(all, ledger, rows[0], world) && AppendsAwards(all, ledger + [rows[0]], rows[1..], world))
  }

  lemma {:induction false} AppendsInTwoParts(all: set<Candidate>, ledger: seq<Row>, a: seq<Row>, b: seq<Row>,
                                             world: World)
    requires AppendsAwards(all, ledger, a, world) && AppendsAwards(all, ledger + a, b, world)
    ensures AppendsAwards(all, ledger, a + b, world)
    decreases |a|
  {
    hide IsAward;
    if a == [] {
      assert a + b == b && ledger + a == ledger;
    } else {
      assert ledger + [a[0]] + a[1..] == ledger + a;
      AppendsInTwoParts(all, ledger + [a[0]], a[1..], b, world);
      assert (a + b)[1..] == a[1..] + b;
    }
  }

  lemma {:induction false} PlanAppends(all: set<Candidate>, cs: seq<Candidate>, ledger: seq<Row>, k: nat, world: World)
    requires DistinctTx(cs) && forall c :: c in cs ==> c in all && !HasRow(ledger, c)
    requires k <= |Awards(cs, CountsOf(ledger), world)|
    ensures AppendsAwards(all, ledger, RowsOf(Awards(cs, CountsOf(ledger), world)[..k]), world)
  {
    hide Awards, CountsOf, HasRow, AwardRow, Earns, RowOfAward;
    var awards := Awards(cs, CountsOf(ledger), world);
    if cs == [] {
      NoCandidatesNoAwards(CountsOf(ledger), world);
    } else if k > 0 {
      var c, rest := cs[0], cs[1..];
      assert cs == [c] + rest;
      PlanHead(c, rest, ledger, world);
      if Earns(c, ledger, world) {
        var next := ledger + [AwardRow(c, world)];
        forall d | d in rest ensures !HasRow(next, d) {
          AppendOther(ledger, c, d, world);
        }
        PlanAppends(all, rest, next, k - 1, world);
        assert RowsOf(awards[..k])[0] == AwardRow(c, world);
        assert RowsOf(awards[..k])[1..] == RowsOf(awards[1..][..k - 1]);
      } else {
        PlanAppends(all, rest, ledger, k, world);
      }
    }
  }

  /** A complete plan leaves no candidate that could still earn. */
  lemma {:induction false} PlanExhausts(cs: seq<Candidate>, ledger: seq<Row>, c: Candidate, world: World)
    requires DistinctTx(cs) && c in cs && forall d :: d in cs ==> !HasRow(ledger, d)
    ensures var after := ledger + RowsOf(Awards(cs, CountsOf(ledger), world));
            HasRow(after, c) || !Earns(c, after, world)
  {
    hide Awards, CountsOf, HasRow, AwardRow, Earns, RowOfAward;
    var head, rest := cs[0], cs[1..];
    assert cs == [head] + rest;
    PlanHead(head, rest, ledger, world);
    var rows := RowsOf(Awards(cs, CountsOf(ledger), world));
    if Earns(head, ledger, world) {
      var next := ledger + [AwardRow(head, world)];
      forall d | d in rest ensures !HasRow(next, d) {
        AppendOther(ledger, head, d, world);
      }
      assert ledger + rows == next + RowsOf(Awards(rest, CountsOf(next), world));
      if c == head {
        RecordedByRow(ledger + rows, |ledger|, c, world);
      } else {
        PlanExhausts(rest, next, c, world);
      }
    } else if c == head {
      StillDoesNotEarn(c, ledger, rows, world);
    } else {
      PlanExhausts(rest, ledger, c, world);
    }
  }

  lemma AwardIsNew(all: set<Candidate>, ledger: seq<Row>, row: Row, world: World)
    requires IsAward(all, ledger, row, world)
    ensures !Conflicts(ledger, row)
  {
    var c :| c in all && row == AwardRow(c, world) && !HasRow(ledger, c) && Earns(c, ledger, world);
    hide Earns, PointsFor, StreakMultiplier, StreakFor, UtcDay, Eligible;
  }

  /** A planned award's insert meets no row of its own, so `on conflict do nothing` never applies. */
  lemma {:induction false} PlannedRowsAreNew(all: set<Candidate>, ledger: seq<Row>, rows: seq<Row>, k: nat,
                                             world: World)
    requires AppendsAwards(all, ledger, rows, world) && k < |rows|
    ensures !Conflicts(ledger + rows[..k], rows[k])
    decreases |rows|
  {
    hide IsAward, Conflicts;
    AwardIsNew(all, ledger, rows[0], world);
    if k == 0 {
      assert ledger + rows[..0] == ledger;
    } else {
      PlannedRowsAreNew(all, ledger + [rows[0]], rows[1..], k - 1, world);
      assert ledger + [rows[0]] + rows[1..][..k - 1] == ledger + rows[..k];
    }
  }

  lemma PendingAfterOne(all: set<Candidate>, ledger: seq<Row>, c: Candidate, key: Selector, world: World)
    requires UniqueTx(all) && c in all && Eligible(c, world) && !HasRow(ledger, c)
    ensures var next := ledger + [AwardRow(c, world)];
            Pending(all, next, key, world) == Pending(all, ledger, key, world) - {c}
    ensures KeyOf(c) == key <==> c in Pending(all, ledger, key, world)
  {
    var next := ledger + [AwardRow(c, world)];
    RecordedByRow(next, |ledger|, c, world);
    forall d | d in all && d != c ensures HasRow(next, d) <==> HasRow(ledger, d) {
      if HasRow(ledger, d) {
        var i :| 0 <= i < |ledger| && ledger[i].reason == Action(d.kind) && ledger[i].reference == WitnessTx(d.txHash);
        assert next[i] == ledger[i];
      } else {
        AppendOther(ledger, c, d, world);
      }
    }
  }

  function PointsPerAward(key: Selector, world: World): nat
    requires key.ActionsOn? && IsCivil(key.on)
  {
    PointsFor(RuleOf(key.kind).basePoints, StreakMultiplier(StreakFor(world, key.wallet, key.on)))
  }

  lemma AwardRowIsSelected(c: Candidate, key: Selector, world: World)
    requires key.ActionsOn? && IsCivil(key.on)
    ensures Selects(key, AwardRow(c, world)) <==> KeyOf(c) == key
    ensures KeyOf(c) == key ==> AwardRow(c, world).points == PointsPerAward(key, world)
  {
  }

  lemma OneAwardConserves(all: set<Candidate>, ledger: seq<Row>, row: Row, key: Selector, world: World)
    requires UniqueTx(all) && IsAward(all, ledger, row, world)
    requires key.ActionsOn? && IsCivil(key.on)
    ensures var after := ledger + [row];
            var gained := Count(after, key) - Count(ledger, key);
            && |Pending(all, ledger, key, world)| - |Pending(all, after, key, world)| == gained
            && Sum(after, key) - Sum(ledger, key) == gained * PointsPerAward(key, world)
            && (gained == 0 || (gained == 1 && Count(after, key) <= RuleOf(key.kind).dailyCap))
  {
    hide AwardRow, HasRow, KeyOf, PointsPerAward, Pending, IsCivil, Count, Sum, RuleOf, UniqueTx, Eligible;
    var c :| c in all && row == AwardRow(c, world) && !HasRow(ledger, c) && Earns(c, ledger, world);
    AwardMovesCounts(ledger, c, key, world);
    AwardMovesPending(all, ledger, c, key, world);
  }

  lemma AwardMovesCounts(ledger: seq<Row>, c: Candidate, key: Selector, world: World)
    requires key.ActionsOn? && IsCivil(key.on) && Earns(c, ledger, world)
    ensures var after := ledger + [AwardRow(c, world)];
            var gained := if KeyOf(c) == key then 1 else 0;
            && Count(after, key) == Count(ledger, key) + gained
            && Sum(after, key) == Sum(ledger, key) + gained * PointsPerAward(key, world)
            && (gained == 1 ==> Count(after, key) <= RuleOf(key.kind).dailyCap)
  {
    hide AwardRow, KeyOf, Selects, PointsPerAward, IsCivil, Count, Sum, RuleOf, Eligible;
    AwardRowIsSelected(c, key, world);
    Appended(ledger, AwardRow(c, world), key);
    KindOfKey(c, key);
  }

  lemma AwardMovesPending(all: set<Candidate>, ledger: seq<Row>, c: Candidate, key: Selector, world: World)
    requires UniqueTx(all) && c in all && !HasRow(ledger, c) && Earns(c, ledger, world)
    ensures |Pending(all, ledger, key, world)| - |Pending(all, ledger + [AwardRow(c, world)], key, world)| ==
            if KeyOf(c) == key then 1 else 0
  {
    hide AwardRow, HasRow, KeyOf, Pending, Count, RuleOf, UniqueTx, Eligible;
    PendingAfterOne(all, ledger, c, key, world);
  }

  /**
   Conservation: every award moves one witness from pending to counted, at one fixed price, and no
   count ever passes its cap.
   */
  lemma {:induction false} AwardsConserve(all: set<Candidate>, ledger: seq<Row>, rows: seq<Row>, key: Selector,
                                          world: World)
    requires UniqueTx(all) && AppendsAwards(all, ledger, rows, world)
    requires key.ActionsOn? && IsCivil(key.on)
    ensures var after := ledger + rows;
            var gained := Count(after, key) - Count(ledger, key);
            && |Pending(all, ledger, key, world)| - |Pending(all, after, key, world)| == gained
            && Sum(after, key) - Sum(ledger, key) == gained * PointsPerAward(key, world)
            && (gained == 0 || (gained > 0 && Count(after, key) <= RuleOf(key.kind).dailyCap))
    decreases |rows|
  {
    hide IsAward, PointsPerAward, Pending, IsCivil, UniqueTx, Count, Sum, RuleOf;
    if rows == [] {
      assert ledger + rows == ledger;
    } else {
      var next := ledger + [rows[0]];
      assert ledger + rows == next + rows[1..];
      OneAwardConserves(all, ledger, rows[0], key, world);
      AwardsConserve(all, next, rows[1..], key, world);
      Distribute(Count(next, key) - Count(ledger, key), Count(ledger + rows, key) - Count(next, key),
                 PointsPerAward(key, world));
    }
  }

  lemma Distribute(a: int, b: int, c: int)
    ensures (a + b) * c == a * c + b * c
  {
  }

  lemma KindOfKey(c: Candidate, key: Selector)
    ensures KeyOf(c) == key ==> key.ActionsOn? && key.kind == c.kind
  {
  }

  /** A legal history over the witnesses `all`: each run sees some of them, in any order, once each. */
  ghost predicate IsSchedule(runs: seq<Run>, all: set<Candidate>) {
    forall r :: r in runs ==> DistinctTx(r.witnesses) && forall c :: c in r.witnesses ==> c in all
  }

  lemma RunAppends(all: set<Candidate>, ledger: seq<Row>, run: Run, world: World)
    requires DistinctTx(run.witnesses) && forall c :: c in run.witnesses ==> c in all
    ensures |AfterRun(ledger, run, world)| >= |ledger| && AfterRun(ledger, run, world)[..|ledger|] == ledger
    ensures AppendsAwards(all, ledger, AfterRun(ledger, run, world)[|ledger|..], world)
  {
    var cs := CandidatesOf(run.witnesses, ledger, world);
    var plan := PlanFor(run.witnesses, ledger, world);
    var k := if run.written <= |plan| then run.written else |plan|;
    assert plan[..|plan|] == plan;
    CandidatesKeepDistinctTx(run.witnesses, ledger, world);
    CandidatesAreUnrecorded(run.witnesses, ledger, [], world);
    PlanAppends(all, cs, ledger, k, world);
    assert AfterRun(ledger, run, world)[|ledger|..] == RowsOf(plan[..k]);
  }

  lemma {:induction false} RunsAppend(all: set<Candidate>, ledger: seq<Row>, runs: seq<Run>, world: World)
    requires IsSchedule(runs, all)
    ensures |AfterRuns(ledger, runs, world)| >= |ledger| && AfterRuns(ledger, runs, world)[..|ledger|] == ledger
    ensures AppendsAwards(all, ledger, AfterRuns(ledger, runs, world)[|ledger|..], world)
    decreases |runs|
  {
    hide AfterRun, AppendsAwards;
    if runs == [] {
      NoRows(all, ledger, world);
      assert ledger[|ledger|..] == [];
    } else {
      var next := AfterRun(ledger, runs[0], world);
      RunAppends(all, ledger, runs[0], world);
      RunsAppend(all, next, runs[1..], world);
      var final := AfterRuns(next, runs[1..], world);
      assert final[..|ledger|] == final[..|next|][..|ledger|];
      assert next == ledger + next[|ledger|..];
      AppendsInTwoParts(all, ledger, next[|ledger|..], final[|next|..], world);
      assert final[|ledger|..] == final[..|next|][|ledger|..] + final[|next|..];
    }
  }

  lemma NoRows(all: set<Candidate>, ledger: seq<Row>, world: World)
    ensures AppendsAwards(all, ledger, [], world)
  {
  }

  lemma {:induction false} PlanIsShort(witnesses: seq<Candidate>, ledger: seq<Row>, world: World)
    ensures |PlanFor(witnesses, ledger, world)| <= |CandidatesOf(witnesses, ledger, world)| <= |witnesses|
  {
    AwardsPlusSkips(CandidatesOf(witnesses, ledger, world), CountsOf(ledger), world);
    CandidatesAreFewer(witnesses, ledger, world);
  }

  lemma {:induction false} CandidatesAreFewer(witnesses: seq<Candidate>, ledger: seq<Row>, world: World)
    ensures |CandidatesOf(witnesses, ledger, world)| <= |witnesses|
  {
    if witnesses != [] {
      CandidatesAreFewer(witnesses[1..], ledger, world);
    }
  }

  predicate IsComplete(run: Run) {
    run.written >= |run.witnesses|
  }

  /** Every witness is seen by some run that writes its whole plan. */
  ghost predicate IsCovered(runs: seq<Run>, c: Candidate) {
    exists r :: r in runs && IsComplete(r) && c in r.witnesses
  }

  /** A complete run leaves none of its witnesses able to earn. */
  lemma CompleteRunExhausts(ledger: seq<Row>, run: Run, c: Candidate, world: World)
    requires DistinctTx(run.witnesses) && IsComplete(run) && c in run.witnesses
    ensures var after := AfterRun(ledger, run, world);
            HasRow(after, c) || !Earns(c, after, world)
  {
    hide HasRow, Eligible, Awards, CountsOf, RowOfAward, CandidatesOf, Count;
    var cs := CandidatesOf(run.witnesses, ledger, world);
    var plan := PlanFor(run.witnesses, ledger, world);
    PlanIsShort(run.witnesses, ledger, world);
    assert plan[..|plan|] == plan;
    var after := ledger + RowsOf(plan);
    assert AfterRun(ledger, run, world) == after;
    CandidatesKeepDistinctTx(run.witnesses, ledger, world);
    CandidatesAreUnrecorded(run.witnesses, ledger, [], world);
    if !HasRow(after, c) && Eligible(c, world) {
      EligibleIsCandidate(run.witnesses, c, ledger, RowsOf(plan), world);
      PlanExhausts(cs, ledger, c, world);
    }
  }

  lemma StaysExhausted(ledger: seq<Row>, rows: seq<Row>, c: Candidate, world: World)
    requires HasRow(ledger, c) || !Earns(c, ledger, world)
    ensures HasRow(ledger + rows, c) || !Earns(c, ledger + rows, world)
  {
    if HasRow(ledger, c) {
      var i :| 0 <= i < |ledger| && ledger[i].reason == Action(c.kind) && ledger[i].reference == WitnessTx(c.txHash);
      assert (ledger + rows)[i] == ledger[i];
    } else {
      StillDoesNotEarn(c, ledger, rows, world);
    }
  }

  lemma {:induction false} CoveredIsExhausted(all: set<Candidate>, ledger: seq<Row>, runs: seq<Run>, c: Candidate,
                                              world: World)
    requires IsSchedule(runs, all) && IsCovered(runs, c)
    ensures var final := AfterRuns(ledger, runs, world);
            HasRow(final, c) || !Earns(c, final, world)
    decreases |runs|
  {
    hide AfterRun, HasRow, Earns, DistinctTx, AppendsAwards;
    var r :| r in runs && IsComplete(r) && c in r.witnesses;
    var next := AfterRun(ledger, runs[0], world);
    if r == runs[0] {
      CompleteRunExhausts(ledger, r, c, world);
      RunsAppend(all, next, runs[1..], world);
      var final := AfterRuns(next, runs[1..], world);
      assert final == next + final[|next|..];
      StaysExhausted(next, final[|next|..], c, world);
    } else {
      assert r in runs[1..];
      CoveredIsExhausted(all, next, runs[1..], c, world);
    }
  }

  lemma PendingAtCap(c: Candidate, ledger: seq<Row>, key: Selector, world: World)
    requires KeyOf(c) == key && Eligible(c, world) && !Earns(c, ledger, world)
    ensures Count(ledger, key) >= RuleOf(key.kind).dailyCap
  {
    hide Eligible, Count;
  }

  lemma {:induction false} EligibleIsCandidate(witnesses: seq<Candidate>, c: Candidate, ledger: seq<Row>,
                                               rows: seq<Row>, world: World)
    requires c in witnesses && Eligible(c, world) && !HasRow(ledger + rows, c)
    ensures c in CandidatesOf(witnesses, ledger, world)
  {
    if c == witnesses[0] {
      forall i | 0 <= i < |ledger|
        ensures !(ledger[i].reason == Action(c.kind) && ledger[i].reference == WitnessTx(c.txHash))
      {
        assert (ledger + rows)[i] == ledger[i];
      }
    } else {
      EligibleIsCandidate(witnesses[1..], c, ledger, rows, world);
    }
  }

  function Min(a: int, b: int): int { if a < b then a else b }

  function Room(cap: int, used: int): int { if used < cap then cap - used else 0 }

  /**
   Schedule independence. Take any history of runs over the witnesses `all`: any orders, any split
   into runs, any crashes, so long as each witness is in the end seen by a run that completes. Then
   each (wallet, kind, day) has gained min(eligible witnesses without a row, room under the cap)
   awards, at one fixed price each. Nothing on the right-hand side mentions the schedule.
   */
  lemma ScheduleIndependence(all: set<Candidate>, ledger: seq<Row>, runs: seq<Run>, key: Selector, world: World)
    requires UniqueTx(all) && IsSchedule(runs, all) && forall c :: c in all ==> IsCovered(runs, c)
    requires key.ActionsOn? && IsCivil(key.on)
    ensures var final := AfterRuns(ledger, runs, world);
            var gained := Min(|Pending(all, ledger, key, world)|, Room(RuleOf(key.kind).dailyCap, Count(ledger, key)));
            && Count(final, key) == Count(ledger, key) + gained
            && Sum(final, key) == Sum(ledger, key) + gained * PointsPerAward(key, world)
  {
    hide AfterRun, AppendsAwards, Pending, PointsPerAward, Count, Sum, IsCivil, UniqueTx, RuleOf, IsSchedule, IsCovered;
    var final := AfterRuns(ledger, runs, world);
    RunsAppend(all, ledger, runs, world);
    assert final == ledger + final[|ledger|..];
    AwardsConserve(all, ledger, final[|ledger|..], key, world);
    NonePendingOrAtCap(all, ledger, runs, key, world);
    CountGrows(ledger, final[|ledger|..], key);
  }

  lemma NonePendingOrAtCap(all: set<Candidate>, ledger: seq<Row>, runs: seq<Run>, key: Selector, world: World)
    requires IsSchedule(runs, all) && forall c :: c in all ==> IsCovered(runs, c)
    requires key.ActionsOn?
    ensures var final := AfterRuns(ledger, runs, world);
            |Pending(all, final, key, world)| == 0 || Count(final, key) >= RuleOf(key.kind).dailyCap
  {
    hide AfterRuns, HasRow, Eligible, Earns, Count, IsSchedule, IsCovered, RuleOf;
    var final := AfterRuns(ledger, runs, world);
    if c :| c in Pending(all, final, key, world) {
      CoveredIsExhausted(all, ledger, runs, c, world);
      PendingAtCap(c, final, key, world);
    }
  }

  /** Two histories that cover the same witnesses award the same number and the same points. */
  lemma AnyTwoSchedulesAgree(all: set<Candidate>, ledger: seq<Row>, runs: seq<Run>, runs': seq<Run>, key: Selector,
                             world: World)
    requires UniqueTx(all) && IsSchedule(runs, all) && IsSchedule(runs', all)
    requires forall c :: c in all ==> IsCovered(runs, c) && IsCovered(runs', c)
    requires key.ActionsOn? && IsCivil(key.on)
    ensures Count(AfterRuns(ledger, runs, world), key) == Count(AfterRuns(ledger, runs', world), key)
    ensures Sum(AfterRuns(ledger, runs, world), key) == Sum(AfterRuns(ledger, runs', world), key)
  {
    ScheduleIndependence(all, ledger, runs, key, world);
    ScheduleIndependence(all, ledger, runs', key, world);
  }

  /**
   An award does not depend on when the job writes it: check-ins on the witness's own day or later
   leave its row as it was, with points between the base and the base at the top of the ramp.
   */
  lemma AwardIsTimeIndependent(c: Candidate, world: World, later: World)
    requires world.window == later.window
    requires var w := Lower(c.address);
             DaysOf(world, w) <= DaysOf(later, w) &&
             forall d :: d in DaysOf(later, w) - DaysOf(world, w) ==>
               IsCivil(d) && DayNumber(d) >= DayNumber(UtcDay(c.closedAtMs))
    ensures AwardRow(c, later) == AwardRow(c, world)
    ensures RuleOf(c.kind).basePoints <= AwardRow(c, world).points <= PointsFor(RuleOf(c.kind).basePoints, 135)
  {
    var w := Lower(c.address);
    var extra := DaysOf(later, w) - DaysOf(world, w);
    assert DaysOf(world, w) + extra == DaysOf(later, w);
    StreakBeforeIsFixed(DaysOf(world, w), extra, UtcDay(c.closedAtMs));
    PointsBounds(RuleOf(c.kind).basePoints, StreakFor(world, w, UtcDay(c.closedAtMs)));
  }
}

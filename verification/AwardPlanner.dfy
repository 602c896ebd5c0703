/**
 The award job's planner: which witnessed actions earn points, in order, under the per-(wallet,
 kind, UTC day) caps. Candidates are the enrolled wallets' witnesses without a ledger row.
 */
module AwardPlanner {
  import opened Wrappers
  import opened Calendar
  import opened CampaignRules
  import opened PointsLedger

  datatype Candidate = Candidate(txHash: string, address: string, kind: ActionKind,
                                 meetsMinNotional: bool, closedAtMs: int)

  datatype PlannedAward = PlannedAward(txHash: string, address: string, kind: ActionKind, basePoints: nat,
                                       multiplier: int, points: nat, countedDay: Civil)

  datatype SkipCounts = SkipCounts(outsideWindow: nat, kindNotAwarded: nat, belowMinNotional: nat,
                                   dailyCapReached: nat) {
    function Total(): nat {
      outsideWindow + kindNotAwarded + belowMinNotional + dailyCapReached
    }

    function Bump(reason: SkipReason): SkipCounts {
      match reason
      case OutsideWindow => this.(outsideWindow := outsideWindow + 1)
      case KindNotAwarded => this.(kindNotAwarded := kindNotAwarded + 1)
      case BelowMinNotional => this.(belowMinNotional := belowMinNotional + 1)
      case DailyCapReached => this.(dailyCapReached := dailyCapReached + 1)
    }

    function Plus(other: SkipCounts): SkipCounts {
      SkipCounts(outsideWindow + other.outsideWindow, kindNotAwarded + other.kindNotAwarded,
                 belowMinNotional + other.belowMinNotional, dailyCapReached + other.dailyCapReached)
    }
  }

  const NO_SKIPS := SkipCounts(0, 0, 0, 0)

  /** What stays fixed across runs: the check-in days of each lowercase wallet, and the window. */
  datatype World = World(checkins: map<string, set<Civil>>, window: Window)

  function DaysOf(world: World, wallet: string): set<Civil> {
    if wallet in world.checkins then world.checkins[wallet] else {}
  }

  type Counts = map<Selector, int>

  function Get(counts: Counts, key: Selector): int {
    if key in counts then counts[key] else 0
  }

  function Bump(counts: Counts, key: Selector, n: int): Counts {
    counts[key := Get(counts, key) + n]
  }

  /** countKey: the counter of one lowercase wallet, kind and UTC day. */
  function KeyOf(c: Candidate): Selector {
    ActionsOn(Lower(c.address), c.kind, UtcDay(c.closedAtMs))
  }

  function StreakFor(world: World, wallet: string, day: Civil): nat
    requires IsCivil(day)
  {
    StreakBefore(DaysOf(world, wallet), day)
  }

  function Decide(c: Candidate, counted: int, world: World): Award {
    ActionAward(c.kind, c.meetsMinNotional, c.closedAtMs, counted,
                StreakFor(world, Lower(c.address), UtcDay(c.closedAtMs)), world.window)
  }

  function ToPlanned(c: Candidate, a: Award): PlannedAward
    requires a.Granted?
  {
    PlannedAward(c.txHash, c.address, c.kind, a.basePoints, a.multiplier, a.points, a.countedDay)
  }

  function Awards(cs: seq<Candidate>, counts: Counts, world: World): seq<PlannedAward> {
    if cs == [] then []
    else
      var a := Decide(cs[0], Get(counts, KeyOf(cs[0])), world);
      if a.Granted? then [ToPlanned(cs[0], a)] + Awards(cs[1..], Bump(counts, KeyOf(cs[0]), 1), world)
      else Awards(cs[1..], counts, world)
  }

  function Skips(cs: seq<Candidate>, counts: Counts, world: World): SkipCounts {
    if cs == [] then NO_SKIPS
    else
      var a := Decide(cs[0], Get(counts, KeyOf(cs[0])), world);
      if a.Granted? then Skips(cs[1..], Bump(counts, KeyOf(cs[0]), 1), world)
      else NO_SKIPS.Bump(a.reason).Plus(Skips(cs[1..], counts, world))
  }

  /** Every candidate is either awarded or skipped for exactly one reason. */
  lemma {:induction false} AwardsPlusSkips(cs: seq<Candidate>, counts: Counts, world: World)
    ensures |Awards(cs, counts, world)| + Skips(cs, counts, world).Total() == |cs|
  {
    hide Decide, KeyOf;
    if cs != [] {
      var a := Decide(cs[0], Get(counts, KeyOf(cs[0])), world);
      if a.Granted? {
        AwardsPlusSkips(cs[1..], Bump(counts, KeyOf(cs[0]), 1), world);
      } else {
        AwardsPlusSkips(cs[1..], counts, world);
        OneMoreSkip(a.reason, Skips(cs[1..], counts, world));
      }
    }
  }

  lemma OneMoreSkip(reason: SkipReason, rest: SkipCounts)
    ensures NO_SKIPS.Bump(reason).Plus(rest).Total() == 1 + rest.Total()
  {
  }

  /** The plan from candidate `i` on, one candidate at a time. */
  lemma PlanStep(cs: seq<Candidate>, i: nat, counts: Counts, world: World)
    requires i < |cs|
    ensures var a, key := Decide(cs[i], Get(counts, KeyOf(cs[i])), world), KeyOf(cs[i]);
            if a.Granted? then
              && Awards(cs[i..], counts, world)
                == [ToPlanned(cs[i], a)] + Awards(cs[i + 1..], Bump(counts, key, 1), world)
              && Skips(cs[i..], counts, world) == Skips(cs[i + 1..], Bump(counts, key, 1), world)
            else
              && Awards(cs[i..], counts, world) == Awards(cs[i + 1..], counts, world)
              && Skips(cs[i..], counts, world) == NO_SKIPS.Bump(a.reason).Plus(Skips(cs[i + 1..], counts, world))
  {
    hide Decide, KeyOf, ToPlanned;
    assert cs[i..][1..] == cs[i + 1..];
  }

  lemma SkipsRegroup(skipped: SkipCounts, reason: SkipReason, rest: SkipCounts)
    ensures skipped.Plus(NO_SKIPS.Bump(reason).Plus(rest)) == skipped.Bump(reason).Plus(rest)
    ensures rest.Plus(NO_SKIPS) == rest
  {
  }

  lemma AwardsRegroup(awards: seq<PlannedAward>, a: PlannedAward, rest: seq<PlannedAward>)
    ensures awards + ([a] + rest) == awards + [a] + rest
  {
  }

  /** planActionAwards: the given counts are copied, then advanced as awards are planned. */
  method PlanActionAwards(candidates: seq<Candidate>, countedBefore: Counts, world: World)
    returns (awards: seq<PlannedAward>, skipped: SkipCounts)
    ensures awards == Awards(candidates, countedBefore, world)
    ensures skipped == Skips(candidates, countedBefore, world)
    ensures |awards| + skipped.Total() == |candidates|
  {
    hide *;
    var counts := countedBefore;
    awards, skipped := [], NO_SKIPS;
    PlanStarts(candidates, counts, world);
    for i := 0 to |candidates|
      invariant awards + Awards(candidates[i..], counts, world) == Awards(candidates, countedBefore, world)
      invariant skipped.Plus(Skips(candidates[i..], counts, world)) == Skips(candidates, countedBefore, world)
    {
      var c := candidates[i];
      PlanStep(candidates, i, counts, world);
      var result := DecideOn(c, Get(counts, KeyOf(c)), world);
      if result.Skipped? {
        SkipsRegroup(skipped, result.reason, Skips(candidates[i + 1..], counts, world));
        skipped := skipped.Bump(result.reason);
      } else {
        counts := Bump(counts, KeyOf(c), 1);
        AwardsRegroup(awards, ToPlanned(c, result), Awards(candidates[i + 1..], counts, world));
        awards := awards + [ToPlanned(c, result)];
      }
    }
    NothingToPlan(counts, world);
    SkipsRegroup(skipped, OutsideWindow, skipped);
    assert candidates[|candidates|..] == [];
    AwardsPlusSkips(candidates, countedBefore, world);
  }

  /** The decision on one candidate, with the streak walked back from the day before its own. */
  method DecideOn(c: Candidate, counted: int, world: World) returns (result: Award)
    ensures result == Decide(c, counted, world)
  {
    hide ActionAward, IsCivil, CivilOf, DayNumber, StreakOn, PreviousUtcDay;
    PreviousUtcDayIsPredecessor(UtcDay(c.closedAtMs));
    var streak := StreakLengthOn(DaysOf(world, Lower(c.address)), PreviousUtcDay(UtcDay(c.closedAtMs)));
    result := ActionAward(c.kind, c.meetsMinNotional, c.closedAtMs, counted, streak, world.window);
  }

  lemma PlanStarts(cs: seq<Candidate>, counts: Counts, world: World)
    ensures cs[0..] == cs
    ensures [] + Awards(cs, counts, world) == Awards(cs, counts, world)
    ensures NO_SKIPS.Plus(Skips(cs, counts, world)) == Skips(cs, counts, world)
  {
    hide Awards, Skips;
  }

  lemma NothingToPlan(counts: Counts, world: World)
    ensures Awards([], counts, world) == [] && Skips([], counts, world) == NO_SKIPS
  {
  }

  // ---- The counter map read back from the ledger ----

  datatype CountRow = CountRow(address: string, kind: ActionKind, day: Civil, n: nat)

  function CountRowKey(r: CountRow): Selector {
    ActionsOn(Lower(r.address), r.kind, r.day)
  }

  function RowTotal(rows: seq<CountRow>, key: Selector): nat {
    if rows == [] then 0
    else RowTotal(rows[..|rows| - 1], key) + if CountRowKey(rows[|rows| - 1]) == key then rows[|rows| - 1].n else 0
  }

  /** countsFromRows: rows whose addresses differ only in case share one counter. */
  method CountsFromRows(rows: seq<CountRow>) returns (counts: Counts)
    ensures forall key: Selector :: Get(counts, key) == RowTotal(rows, key)
  {
    counts := map[];
    for i := 0 to |rows|
      invariant forall key: Selector :: Get(counts, key) == RowTotal(rows[..i], key)
    {
      assert rows[..i + 1][..i] == rows[..i];
      counts := Bump(counts, CountRowKey(rows[i]), rows[i].n);
    }
    assert rows[..|rows|] == rows;
  }

  /** Add one ledger row to its (address, reason, counted_day) group. */
  function AddToGroup(groups: seq<CountRow>, address: string, kind: ActionKind, day: Civil): seq<CountRow> {
    if groups == [] then [CountRow(address, kind, day, 1)]
    else
      var g := groups[|groups| - 1];
      if g.address == address && g.kind == kind && g.day == day then groups[..|groups| - 1] + [g.(n := g.n + 1)]
      else AddToGroup(groups[..|groups| - 1], address, kind, day) + [g]
  }

  /** countedActionsByDay: the action rows with a counted day, grouped by exact address, reason and day. */
  function CountedActionsByDay(ledger: seq<Row>): seq<CountRow> {
    if ledger == [] then []
    else
      var groups, r := CountedActionsByDay(ledger[..|ledger| - 1]), ledger[|ledger| - 1];
      if r.reason.Action? && r.countedDay.Some? then AddToGroup(groups, r.address, r.reason.kind, r.countedDay.value)
      else groups
  }

  lemma {:induction false} GroupingAdds(groups: seq<CountRow>, address: string, kind: ActionKind, day: Civil,
                                        key: Selector)
    ensures RowTotal(AddToGroup(groups, address, kind, day), key)
         == RowTotal(groups, key) + if ActionsOn(Lower(address), kind, day) == key then 1 else 0
  {
    if groups == [] {
      assert AddToGroup(groups, address, kind, day)[..0] == [];
    } else {
      var g := groups[|groups| - 1];
      var init := groups[..|groups| - 1];
      var after := AddToGroup(groups, address, kind, day);
      if g.address == address && g.kind == kind && g.day == day {
        assert after[..|after| - 1] == init;
      } else {
        assert after[..|after| - 1] == AddToGroup(init, address, kind, day);
        GroupingAdds(init, address, kind, day, key);
      }
    }
  }

  /** Grouping by exact address and then merging by lowercase address counts the ledger's rows. */
  lemma {:induction false} GroupedCountsAreLedgerCounts(ledger: seq<Row>, wallet: string, kind: ActionKind, day: Civil)
    ensures var key := ActionsOn(wallet, kind, day);
            RowTotal(CountedActionsByDay(ledger), key) == Count(ledger, key)
  {
    if ledger != [] {
      var r := ledger[|ledger| - 1];
      GroupedCountsAreLedgerCounts(ledger[..|ledger| - 1], wallet, kind, day);
      if r.reason.Action? && r.countedDay.Some? {
        GroupingAdds(CountedActionsByDay(ledger[..|ledger| - 1]), r.address, r.reason.kind, r.countedDay.value,
                     ActionsOn(wallet, kind, day));
      }
    }
  }

  /** The counters agree with the ledger on every (wallet, kind, day). */
  ghost predicate CountsMatch(counts: Counts, ledger: seq<Row>) {
    forall wallet, kind, day ::
      Get(counts, ActionsOn(wallet, kind, day)) == Count(ledger, ActionsOn(wallet, kind, day))
  }

  /** checkinSetsFromRows */
  method CheckinSetsFromRows(rows: seq<(string, Civil)>) returns (sets: map<string, set<Civil>>)
    ensures forall w :: w in sets <==> exists i :: 0 <= i < |rows| && Lower(rows[i].0) == w
    ensures forall w :: w in sets ==>
              forall d :: d in sets[w] <==> exists i :: 0 <= i < |rows| && Lower(rows[i].0) == w && rows[i].1 == d
  {
    sets := map[];
    for i := 0 to |rows|
      invariant forall w :: w in sets <==> exists k :: 0 <= k < i && Lower(rows[k].0) == w
      invariant forall w :: w in sets ==>
                  forall d :: d in sets[w] <==> exists k :: 0 <= k < i && Lower(rows[k].0) == w && rows[k].1 == d
    {
      var key := Lower(rows[i].0);
      if key !in sets {
        sets := sets[key := {}];
      }
      sets := sets[key := sets[key] + {rows[i].1}];
    }
  }
}

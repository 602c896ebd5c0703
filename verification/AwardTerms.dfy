/**
 The campaign's terms in plain comparisons: which witness is paid, why another is not, what a point, a
 tier and a UTC day are. Everything here is said of numbers and fields, with the founders' constants
 written out.
 */
module AwardTerms {
  import opened Wrappers
  import opened Calendar
  import opened CampaignRules
  import opened PointsLedger
  import opened AwardPlanner
  import opened AwardSchedule
  import opened Campaign

  /** start <= at < end; without a start nothing is inside, without an end nothing is too late. */
  predicate Inside(w: Window, at: int) {
    match w.startsAtMs
    case None => false
    case Some(start) =>
      match w.endsAtMs
      case None => start <= at
      case Some(end) => start <= at < end
  }

  /** A UTC day holds the 86,400,000 milliseconds from its number on, and 2000-02-29 is day 11,016. */
  lemma DayHoldsItsMilliseconds(ms: int, c: Civil)
    requires IsCivil(c)
    ensures UtcDay(ms) == c <==> 86_400_000 * DayNumber(c) <= ms < 86_400_000 * DayNumber(c) + 86_400_000
    ensures DayNumber(Civil(2000, 2, 29)) == 11_016
  {
    hide DayNumber, CivilOf;
    DayNumberRoundTrip(c);
    QuotientIs(ms, DayNumber(c));
    LeapDayOf2000();
  }

  lemma LeapDayOf2000()
    ensures DayNumber(Civil(2000, 2, 29)) == 11_016
  {
    DayFromYearIsEcma(2000);
    assert DaysBeforeMonth(2000, 2) == 31;
  }

  lemma QuotientIs(ms: int, n: int)
    ensures ms / MS_PER_DAY == n <==> 86_400_000 * n <= ms < 86_400_000 * n + 86_400_000
  {
  }

  /** Rounded to the nearest point, halves up: base points times hundredths, over a hundred. */
  lemma PointsAreRounded(base: nat, hundredths: nat)
    ensures var p := PointsFor(base, hundredths); 100 * p - 50 <= base * hundredths < 100 * p + 50
  {
  }

  /** The multiplier: five hundredths for each day of the streak, up to seven days. */
  lemma MultiplierInHundredths(streak: nat)
    ensures StreakMultiplier(streak) == if streak >= 7 then 135 else 100 + 5 * streak
  {
  }

  /** The daily cap of a kind: five swaps, three deposits, and no withdrawal. */
  function CapOf(kind: ActionKind): nat {
    match kind
    case SdexSwap => 5
    case BlendDeposit => 3
    case BlendWithdraw => 0
  }

  function BaseOf(kind: ActionKind): nat {
    match kind
    case SdexSwap => 50
    case BlendDeposit => 100
    case BlendWithdraw => 0
  }

  /** Why a candidate is paid or not: the first of four tests that fails, in this order. */
  lemma DecidesExactly(c: Candidate, counted: int, world: World)
    ensures var d, inside := Decide(c, counted, world), Inside(world.window, c.closedAtMs);
            var paidKind := c.kind == SdexSwap || c.kind == BlendDeposit;
            && (d == Skipped(OutsideWindow) <==> !inside)
            && (d == Skipped(KindNotAwarded) <==> inside && !paidKind)
            && (d == Skipped(BelowMinNotional) <==> inside && paidKind && !c.meetsMinNotional)
            && (d == Skipped(DailyCapReached) <==>
                  inside && paidKind && c.meetsMinNotional && counted >= CapOf(c.kind))
            && (d.Granted? <==> inside && paidKind && c.meetsMinNotional && counted < CapOf(c.kind))
            && (d.Granted? ==> d.basePoints == BaseOf(c.kind) && d.countedDay == UtcDay(c.closedAtMs))
  {
    hide StreakFor, UtcDay;
  }

  /** The test at which a candidate stops; one that passes the other three comes to the cap. */
  predicate StopsAt(c: Candidate, test: SkipReason, window: Window) {
    var inside, paidKind := Inside(window, c.closedAtMs), c.kind == SdexSwap || c.kind == BlendDeposit;
    match test
    case OutsideWindow => !inside
    case KindNotAwarded => inside && !paidKind
    case BelowMinNotional => inside && paidKind && !c.meetsMinNotional
    case DailyCapReached => inside && paidKind && c.meetsMinNotional
  }

  function HowMany(cs: seq<Candidate>, test: SkipReason, window: Window): nat {
    if cs == [] then 0 else (if StopsAt(cs[0], test, window) then 1 else 0) + HowMany(cs[1..], test, window)
  }

  /** The summary's skips, reason by reason; whoever comes to the cap is paid or counted there. */
  lemma {:induction false} SkipsExactly(cs: seq<Candidate>, counts: Counts, world: World)
    ensures var k := Skips(cs, counts, world);
            && k.outsideWindow == HowMany(cs, OutsideWindow, world.window)
            && k.kindNotAwarded == HowMany(cs, KindNotAwarded, world.window)
            && k.belowMinNotional == HowMany(cs, BelowMinNotional, world.window)
            && k.dailyCapReached + |Awards(cs, counts, world)| == HowMany(cs, DailyCapReached, world.window)
  {
    hide Decide, KeyOf, Inside, Get;
    if cs != [] {
      var counted := Get(counts, KeyOf(cs[0]));
      DecidesExactly(cs[0], counted, world);
      if Decide(cs[0], counted, world).Granted? {
        SkipsExactly(cs[1..], Bump(counts, KeyOf(cs[0]), 1), world);
      } else {
        SkipsExactly(cs[1..], counts, world);
      }
    }
  }

  lemma EligibleExactly(c: Candidate, world: World)
    ensures Eligible(c, world) <==>
            && Inside(world.window, c.closedAtMs) && (c.kind == SdexSwap || c.kind == BlendDeposit)
            && c.meetsMinNotional
    ensures RuleOf(c.kind).dailyCap == CapOf(c.kind) && RuleOf(c.kind).basePoints == BaseOf(c.kind)
  {
  }

  /** The candidates of a run: swaps and deposits inside the window that have no row, in the table's order. */
  lemma {:induction false} CandidatesExactly(witnesses: seq<Candidate>, ledger: seq<Row>, world: World, c: Candidate)
    ensures c in CandidatesOf(witnesses, ledger, world) <==>
            && c in witnesses && (c.kind == SdexSwap || c.kind == BlendDeposit) && Inside(world.window, c.closedAtMs)
            && forall i :: 0 <= i < |ledger| && ledger[i].reason == Action(c.kind) ==>
                 ledger[i].reference != WitnessTx(c.txHash)
  {
    hide WithinWindow, Inside;
    if witnesses != [] {
      CandidatesExactly(witnesses[1..], ledger, world, c);
      WindowsAgree(world.window, witnesses[0].closedAtMs);
    }
  }

  lemma WindowsAgree(w: Window, at: int)
    ensures WithinWindow(w, at) <==> Inside(w, at)
  {
  }

  /** The streak that multiplies a witness: of its wallet's check-ins, up to the day before its own. */
  function StreakAt(c: Candidate, world: World): nat {
    StreakBefore(DaysOf(world, Lower(c.address)), UtcDay(c.closedAtMs))
  }

  /** The row of a paid witness, in the founders' numbers. */
  ghost predicate IsPayFor(r: Row, c: Candidate, streak: nat) {
    && r.address == c.address && r.reason == Action(c.kind) && r.reference == WitnessTx(c.txHash)
    && r.countedDay == Some(UtcDay(c.closedAtMs))
    && r.basePoints == BaseOf(c.kind)
    && r.multiplier == (if streak >= 7 then 135 else 100 + 5 * streak)
    && 100 * r.points - 50 <= r.basePoints * r.multiplier < 100 * r.points + 50
  }

  /**
   Every row a run adds pays a swap or deposit above the minimum that closed inside the window, at the
   streak of the days before its own.
   */
  lemma RunPaysOnlyInside(witnesses: seq<Candidate>, ledger: seq<Row>, world: World, n: nat)
    requires DistinctTx(witnesses) && n < |PlanFor(witnesses, ledger, world)|
    ensures exists c :: c in witnesses
              && IsPayFor(RowOfAward(PlanFor(witnesses, ledger, world)[n]), c, StreakAt(c, world))
              && Inside(world.window, c.closedAtMs) && (c.kind == SdexSwap || c.kind == BlendDeposit)
              && c.meetsMinNotional
  {
    var cs := CandidatesOf(witnesses, ledger, world);
    CandidatesAreUnrecorded(witnesses, ledger, [], world);
    var c := AwardOf(cs, CountsOf(ledger), world, n);
    hide *;
    PlanIsAwards(witnesses, ledger, world);
    EligibleExactly(c, world);
    RowPays(c, world);
  }

  lemma PlanIsAwards(witnesses: seq<Candidate>, ledger: seq<Row>, world: World)
    ensures PlanFor(witnesses, ledger, world) == Awards(CandidatesOf(witnesses, ledger, world), CountsOf(ledger), world)
  {
  }

  lemma RowPays(c: Candidate, world: World)
    ensures IsPayFor(AwardRow(c, world), c, StreakAt(c, world))
  {
    hide StreakBefore, CivilOf, IsCivil, Lower, StreakMultiplier, PointsFor;
    var streak := StreakAt(c, world);
    MultiplierInHundredths(streak);
    PointsAreRounded(BaseOf(c.kind), StreakMultiplier(streak));
  }

  lemma {:induction false} AwardOf(cs: seq<Candidate>, counts: Counts, world: World, n: nat) returns (c: Candidate)
    requires n < |Awards(cs, counts, world)|
    ensures c in cs && Eligible(c, world) && RowOfAward(Awards(cs, counts, world)[n]) == AwardRow(c, world)
  {
    hide Decide, Eligible, KeyOf, AwardRow, RowOfAward, ToPlanned;
    var head, counted := cs[0], Get(counts, KeyOf(cs[0]));
    GrantedMeans(head, counted, world);
    if Decide(head, counted, world).Granted? {
      if n == 0 {
        c := head;
      } else {
        c := AwardOf(cs[1..], Bump(counts, KeyOf(head), 1), world, n - 1);
      }
    } else {
      c := AwardOf(cs[1..], counts, world, n);
    }
  }

  /** The points a tier takes. */
  function TierOf(p: Perk): nat {
    match p
    case EarlyAccess => 100
    case BetaFeatures => 500
    case PriorityRwa => 1500
  }

  lemma PerksByBalance(balance: int, p: Perk)
    ensures p in PerksFor(balance) <==> balance >= TierOf(p)
  {
    var t := PERK_TIERS;
    assert t[1..] == [t[1], t[2]] && t[1..][1..] == [t[2]] && t[1..][1..][1..] == [];
    assert TiersReached([t[2]], balance) == if balance >= 1500 then [PriorityRwa] else [];
    assert p in TiersReached(t[1..], balance) <==>
           (p == BetaFeatures && balance >= 500) || (p == PriorityRwa && balance >= 1500);
  }

  // ---- What is counted together ----

  /** A day's cap is one lowercase wallet's, for one kind, on one UTC day. */
  lemma CountedTogether(c: Candidate, d: Candidate, r: Row)
    ensures KeyOf(c) == KeyOf(d) <==>
            && Lower(c.address) == Lower(d.address) && c.kind == d.kind
            && UtcDay(c.closedAtMs) == UtcDay(d.closedAtMs)
    ensures Selects(KeyOf(c), r) <==>
            && r.reason == Action(c.kind) && Lower(r.address) == Lower(c.address)
            && r.countedDay == Some(UtcDay(c.closedAtMs))
  {
    hide Lower, UtcDay;
  }

  /** The rows that the other sums of a wallet are over. */
  lemma SummedTogether(wallet: string, day: Civil, r: Row)
    ensures Selects(AllOf(wallet), r) <==> Lower(r.address) == wallet
    ensures Selects(StreakRowsOf(wallet), r) <==> Lower(r.address) == wallet && r.reason == StreakDaily
    ensures Selects(SocialGrossOn(wallet, day), r) <==>
            Lower(r.address) == wallet && r.reason.Social? && r.countedDay == Some(day)
    ensures Selects(SocialNetOf(wallet), r) <==>
            Lower(r.address) == wallet && (r.reason.Social? || r.reason == SocialDelete)
    ensures Selects(ReferralRows, r) <==> r.reason in {ReferralReferrer, ReferralReferee}
  {
  }

  ghost function PlacesOf(ledger: seq<Row>, sel: Selector): set<int> {
    set i | 0 <= i < |ledger| && Selects(sel, ledger[i])
  }

  /** Counting is counting: as many as there are places with such a row. */
  lemma {:induction false} CountIsNumber(ledger: seq<Row>, sel: Selector)
    ensures Count(ledger, sel) == |PlacesOf(ledger, sel)|
  {
    if ledger == [] {
      assert PlacesOf(ledger, sel) == {};
    } else {
      hide Selects, PlacesOf;
      CountIsNumber(ledger[..|ledger| - 1], sel);
      OnePlaceMore(ledger, sel);
    }
  }

  lemma OnePlaceMore(ledger: seq<Row>, sel: Selector)
    requires ledger != []
    ensures var n := |ledger| - 1;
            |PlacesOf(ledger, sel)| == |PlacesOf(ledger[..n], sel)| + if Selects(sel, ledger[n]) then 1 else 0
  {
    hide Selects;
    var n := |ledger| - 1;
    var before := PlacesOf(ledger[..n], sel);
    forall i ensures i in PlacesOf(ledger, sel) <==> i in before || (i == n && Selects(sel, ledger[n])) {
      if 0 <= i < n { assert ledger[..n][i] == ledger[i]; }
    }
    hide PlacesOf;
    if Selects(sel, ledger[n]) {
      assert PlacesOf(ledger, sel) == before + {n};
      NotAPlace(ledger, sel, n);
    } else {
      assert PlacesOf(ledger, sel) == before;
    }
  }

  lemma NotAPlace(ledger: seq<Row>, sel: Selector, n: nat)
    requires n <= |ledger|
    ensures n !in PlacesOf(ledger[..n], sel)
  {
  }

  /** A new row adds its points to exactly the sums it belongs to. */
  lemma {:induction false} SumAdds(ledger: seq<Row>, rows: seq<Row>, sel: Selector)
    ensures Sum(ledger + rows, sel) == Sum(ledger, sel) + Sum(rows, sel) && Sum([], sel) == 0
    ensures forall r :: Sum([r], sel) == if Selects(sel, r) then r.points else 0
  {
    if rows == [] {
      assert ledger + rows == ledger;
    } else {
      var n := |rows| - 1;
      SumAdds(ledger, rows[..n], sel);
      hide Selects, Sum;
      assert ledger + rows == (ledger + rows[..n]) + [rows[n]] && rows == rows[..n] + [rows[n]];
      Appended(ledger + rows[..n], rows[n], sel);
      Appended(rows[..n], rows[n], sel);
    }
  }
}

# Verified model of the campaign ledger, the alert machine and the signing gates

A Dafny model of the parts of this DeFi analytics product that hold real state machines, arithmetic
or parsing, with proofs of what they keep. `dafny verify dfyconfig.toml` checks all of it.

- **Points ledger** (`Calendar`, `CampaignRules`, `PointsLedger`, `AwardPlanner`, `AwardSchedule`,
  `AwardTimeline`, `Campaign`, `SocialClaims`, `HandleExclusivity`, `CampaignHistory`,
  `AwardDeterminism`, `AwardOrder`, `CampaignDb`, `CheckinConcurrency`, `CheckinAlone`,
  `LateCheckin`, `SettledAwards`, `OverlappingRuns`, `TwoOverlappingRuns`, `CapBreaks`,
  `StreakView`). The tables are sequences with the unique keys of the schema. `Campaign` gives every
  transaction as one step on a state; `CampaignDb.Tables` is the same as a class whose methods
  update the tables in place, and the award job runs on it. `CheckinConcurrency` takes the check-in
  transaction apart into its statements and interleaves any number of them, each within Prisma's
  time limit; `OverlappingRuns` does so with the queries and inserts of any number of award runs.
  Multipliers are integer hundredths, UTC days are civil dates in the full-date form of section 5.6
  of RFC 3339. `AwardTerms` and `RequestTerms` say in plain comparisons, constants written out, who
  is paid what and which request is accepted.
- **Alerts** (`AlertMachine`, `AlertCadence`, `AlertSweep`, `PoolStatus`). The evaluator over reals and
  epoch milliseconds, when exactly it speaks on any trace, the health-factor sweep over a class
  holding the two alerting tables, and the pool-status watch.
- **Cache** (`TtlCache`). The class, and a step relation over gets, settling loads, clears and time.
- **Amounts and gates** (`Text`, `DecimalAmounts`, `AmountReadings`, `Envelopes`, `SwapGate`,
  `SubmitGate`, `SignedEffects`). Both decimal parsers, the browser gates on decoded envelopes, the API
  builders they judge, and what a signature that a gate lets through can do.
- **`support.js`** (`ExpressionResolver`, `ExpressionRoundTrip`, `ExpressionReading`, `CssScanners`,
  `CssImportant`, `CssMeaning`, `CssGrammar`). The string evaluator over an abstract host language, and
  the CSS scanners. Loops are methods proved equal to functions of the remaining text; the theorems
  are about those functions, and the last of each group say what they do to text from a grammar.

## What the proofs found

- **An award can still change after its day began.** The comment at `campaign-rules.ts:130-138` says
  the streak that multiplies day D is fixed before D starts. The day of a check-in is the day its
  transaction began (`now()` in the database), so one that spans midnight commits day D-1 during day
  D. `LateCheckin.LateCheckinChangesAnAward` is such a run, one millisecond long across midnight, and
  a swap it makes worth 50 or 53 points depending on when the job runs. `InterleavingChangesAwardExactly`
  says when an award changes, for every interleaving: when a check-in commits that fills the first
  gap before D, and the streak up to the gap does not already earn the cap.
  `SettledAwards.AwardIsSettledExactly` says in which states none can any more, and
  `AwardIsSettledFiveSecondsIn` that from five seconds into D none does: a transaction then still open
  from the day before is past Prisma's default limit.
- **Overlapping runs can pass the daily cap.** The comment at `84-campaign-award.ts:9-13` says an
  overlapping manual run can never double-award. That holds of a witness and not of the cap. Candidates
  and counts come from two queries (`84-campaign-award.ts:94-98`), and another run's inserts may fall
  before, between or after them. `TwoOverlappingRuns.OverlapKeepsTheCapExactly` says when the cap
  holds, read off the two witness lists. Two ways for it to fail: a witness that only the later run
  sees takes a place that is already taken (`CapBreaks.FourUnderACapOfThree`); and with the same
  witnesses, each insert between a count query and the candidates query behind it lets one more award
  past the cap (`EachInsertBetweenTheReadsIsOneOver`, and `FourthDepositIsPaid` with four deposits).
  With the same witnesses, counts that are read last keep it (`CountsReadLastKeepTheCap`).
  `OverlappingRuns.OverlapsAddTheUnion` has the count for any number of runs.
- **One wallet per handle needs fresh reads.** No index keeps it: the (task, handle) index does not
  cover a second task. `HandleExclusivity.HandleExclusivityNeedsFreshReads` is an if-and-only-if over
  histories, and `RacingClaimsShareAHandle` a history from empty tables that breaks it.
- **Blanks behind an amount change it.** The gates trim the whole string, the builder splits it at the
  point first: `1.5` and six blanks is 1.5 to the gates and 1.0000005 to the builder, and with fewer
  blanks the builder throws. `AmountReadings.ReadingsAgreeExactly` has the exact condition. The gates
  refuse to sign what the builder misread.
- **The builder truncates what the gates refuse.** On a decimal with too many fractional digits the
  API builds an envelope that no gate lets through: 0.12345678 is 1234567 units of seven decimals to
  the builder and nothing to the gates (`DecimalAmounts.EighthDigitIsCut`).
- **The builder's decimal round trip loses the sign of a fraction.** `toI128(fromI128(v))` is `v`
  exactly when `v` is non-negative or whole; -1.5 reads back as -0.5. Nothing in the source feeds
  `toI128` a printed negative: `fromI128` prints position sizes only (`actions.service.ts:760-762`).
  A print with zero decimals ends in `.0`, which the gates refuse.
- **Nothing bounds the configured inclusion bid.** The swap envelope passes the gate exactly while
  bid times operations is at most 100,000 stroops: up to 50,000 with a trustline bundled, and
  `SwapGate.OneStroopTooMany` has a first swap into USDC that fails at 50,001.
- **A quoted string is not opaque to the resolver.** The equality scan does not know about quotes;
  `ExpressionRoundTrip.QuotedStringExactly` says when a string is read as itself, and
  `QuotedEqualityIsSplit` shows one that is not.
- **A status change behind an outage is never told.** The watch records `Unknown` like any label, so a
  pool that goes from one known label to another through it changes in silence.
  `PoolStatus.UsersAreRightExactly` says in terms of the labels alone, for any number of outages of any
  length, when users end up with the right status; `OutageHidesAChange` is the smallest case in which
  they do not.
- **`clear` does not reach a load in flight.** Its value, read before the clear, is stored and served
  after it. `TtlCache.ClearMissesOnlyLoadsInFlight` says over all continuations that this is the only
  way anything older is served.

## Model

| member | source | states |
|---|---|---|
| Calendar.DayFromYearIsEcma | apps/api/src/modules/campaign/campaign-rules.ts:104-114 | Counting whole years from 1970 agrees, in every year, with the closed form that ECMAScript's Date computes with |
| Calendar.CalendarOrder | apps/api/src/modules/campaign/campaign-rules.ts:104-108 | Day numbers order dates as the calendar does |
| Calendar.DayNumberRoundTrip | apps/api/src/modules/campaign/campaign-rules.ts:104-114 | Formatting undoes parsing: a day number names exactly one civil date |
| Calendar.PreviousUtcDayIsPredecessor | apps/api/src/modules/campaign/campaign-rules.ts:110-114 | previousUtcDay is the Gregorian predecessor, one day number earlier, and stays a full-date everywhere but at 0000-01-01 |
| CampaignRules.StreakLengthOn | apps/api/src/modules/campaign/campaign-rules.ts:120-128 | The backward walk terminates on every set and computes the streak |
| CampaignRules.StreakIsLongestRun | apps/api/src/modules/campaign/campaign-rules.ts:116-128 | The streak is n if and only if the n days ending at the day are checked in and the day before them is not |
| CampaignRules.StreakBeforeChangesOnlyAtTheGap | apps/api/src/modules/campaign/campaign-rules.ts:130-138 | Extra check-ins leave the multiplying streak alone if and only if none of them fills the first gap before the day |
| CampaignRules.StreakBeforeIsFixed | apps/api/src/modules/campaign/campaign-rules.ts:130-138 | Check-ins on the day itself or later never change the streak that multiplies it |
| CampaignRules.PointsBounds | apps/api/src/modules/campaign/campaign-rules.ts:140-164 | Awarded points lie between the base and the base at 1.35 |
| PointsLedger.InsertKeepsUniqueKeys | apps/api/src/db/stellar_v6_campaign.sql:154-211 | insert … on conflict do nothing keeps every partial unique key and is idempotent |
| AwardPlanner.PlanActionAwards | apps/api/src/scripts/84-campaign-award.lib.ts:81-121 | The loop plans the specified awards and skips, and awards plus skips equal candidates |
| AwardPlanner.AwardsPlusSkips | apps/api/src/scripts/84-campaign-award.lib.ts:74-121 | Every candidate is awarded or skipped for exactly one reason |
| AwardPlanner.CountsFromRows | apps/api/src/scripts/84-campaign-award.lib.ts:52-62 | The counter of each key is the total of its rows, addresses merged by lower case |
| AwardPlanner.CheckinSetsFromRows | apps/api/src/scripts/84-campaign-award.lib.ts:64-72 | Each lowercase wallet's set holds exactly its rows' days |
| AwardPlanner.GroupedCountsAreLedgerCounts | apps/api/src/modules/campaign/campaign.repository.ts:701-710 | Grouping by exact address and merging by lower case counts exactly the ledger's action rows |
| AwardSchedule.PlanRun | apps/api/src/scripts/84-campaign-award.ts:94-113 | One run's plan and its skips by reason from the tables, awards plus skips equal to its candidates |
| AwardSchedule.CrashAndResume | apps/api/src/scripts/84-campaign-award.ts:94-125 | With only the first k planned awards in the ledger, the next run plans exactly the rest, in order, with the same points |
| AwardSchedule.RerunAwardsNothing | apps/api/src/scripts/84-campaign-award.ts:94-125 | After a complete run a re-run plans nothing |
| AwardSchedule.AwardsConserve | apps/api/src/scripts/84-campaign-award.lib.ts:57-121 | Each award moves one witness from pending to counted at one fixed price, never past the cap |
| AwardSchedule.CompleteRunExhausts | apps/api/src/modules/campaign/campaign.repository.ts:677-699 | A complete run leaves none of the witnesses it saw able to earn |
| AwardSchedule.ScheduleIndependence | apps/api/src/scripts/84-campaign-award.lib.ts:57-121 | Any orders, splits and crashes, once every witness has met a complete run, give each (wallet, kind, day) min(eligible, room under the cap) awards and that many times one price |
| AwardSchedule.AnyTwoSchedulesAgree | apps/api/src/modules/campaign/campaign.repository.ts:677-710 | Two histories covering the same witnesses end with the same counts and points |
| AwardTimeline.ScheduleIndependenceInTime | apps/api/src/scripts/84-campaign-award.ts:94-125 | Schedule independence for runs that each read their own check-ins, beyond the first ones only of the witnesses' own days or later |
| AwardSchedule.AwardIsTimeIndependent | apps/api/src/modules/campaign/campaign-rules.ts:236-262 | Check-ins on the witness's day or later leave its award row as it was, with points in [base, 1.35 base] |
| AwardDeterminism.HistoryAddsLaterCheckins | apps/api/src/modules/campaign/campaign.repository.ts:425-474 | A history of atomic check-ins keeps the old ones and adds only days no earlier than its start |
| AwardDeterminism.AwardIsSettledAtClose | apps/api/src/scripts/84-campaign-award.ts:94-125 | With check-ins as atomic steps that insert only today, every later state of any history gives a closed witness the same award |
| AwardTerms.DayHoldsItsMilliseconds | apps/api/src/modules/campaign/campaign-rules.ts:104-114 | A UTC day is exactly the 86,400,000 milliseconds from its number on, and 2000-02-29 is day 11,016 |
| AwardTerms.DecidesExactly | apps/api/src/modules/campaign/campaign-rules.ts:236-262 | Each of the four skip reasons and the grant, if and only if: start <= closed < end, swap or deposit, above the minimum, fewer than five swaps or three deposits counted, in this order |
| AwardTerms.SkipsExactly | apps/api/src/scripts/84-campaign-award.lib.ts:82-121 | The skips of a run, reason by reason, are the numbers of candidates outside the window, of a kind not awarded and below the minimum; all others are paid or counted at the cap |
| AwardTerms.CandidatesExactly | apps/api/src/modules/campaign/campaign.repository.ts:677-699 | The candidates are exactly the swaps and deposits in [start, end) without a row of their kind |
| AwardTerms.RunPaysOnlyInside | apps/api/src/scripts/84-campaign-award.ts:94-125 | Every row a run adds pays a swap (50) or deposit (100) above the minimum that closed in [start, end), times 1.00 to 1.35 by the streak before its day, rounded half up |
| AwardTerms.CountedTogether | apps/api/src/modules/campaign/campaign.repository.ts:701-710 | A cap counts the rows of one lowercase wallet, one kind and one UTC day, and no others |
| AwardTerms.CountIsNumber | apps/api/src/scripts/84-campaign-award.lib.ts:52-62 | A count is the number of such rows |
| AwardOrder.EarliestArePaid | apps/api/src/modules/campaign/campaign.repository.ts:677-699 | When the cap does not reach for all, the oldest are paid: with a witness a run plans every pending one of the same wallet, kind and day that the query reads before it |
| AwardTerms.PerksByBalance | apps/api/src/modules/campaign/campaign-rules.ts:374-386 | A balance earns early access from 100, beta features from 500 and priority from 1500 points on |
| StreakView.StreakLadder | apps/api/src/modules/campaign/campaign-rules.ts:146-156 | One rung per streak length, strictly rising, the last at the cap |
| StreakView.StreakOfMe | apps/api/src/modules/campaign/campaign.service.ts:460-499 | The current streak, the days to the cap, and a strip of the last seven calendar days, oldest first, ending today |
| StreakView.DaysToCapIsExact | apps/api/src/modules/campaign/campaign.service.ts:494-499 | After k more check-in days the next day pays the cap if and only if k is at least daysToCap |
| RequestTerms.EnrolmentExactly | apps/api/src/modules/campaign/campaign.service.ts:365-424 | An enrolment is accepted if and only if the campaign is enabled and now in [start, end), ownership proven, the wallet new in any case, a given code another wallet's, and one of two codes free; and what it then writes |
| RequestTerms.CheckinExactly | apps/api/src/modules/campaign/campaign.repository.ts:425-474 | A check-in is accepted if and only if the campaign is open, ownership proven and the enrolled wallet has none of today; it adds one and a row of five points |
| RequestTerms.ClaimExactly | apps/api/src/modules/campaign/campaign-social.service.ts:65-139 | A claim is accepted if and only if the campaign is open, ownership proven, the task known and open, the wallet enrolled, its own claims and the handle fit, and the day's social points with the task's 20, 10 or 20 are at most 50; and what it writes |
| RequestTerms.RemoveExactly | apps/api/src/modules/campaign/campaign-social.service.ts:141-165 | A delete is accepted if and only if ownership is proven and the claim is an active one of the enrolled wallet, in or out of the window; it scrubs the handle and takes the points back |
| RequestTerms.NothingOutsideTheWindow | apps/api/src/modules/campaign/campaign-rules.ts:180-197 | No enrolment, check-in or claim changes anything before the start, from the end on, or while disabled |
| SocialClaims.ClaimTaskKeepsBooks | apps/api/src/modules/campaign/campaign-social.service.ts:65-139 | A claim keeps exclusivity, the credit of each claim, conservation and the gross daily cap, however stale its read of other wallets |
| SocialClaims.RemoveClaimKeepsBooks | apps/api/src/modules/campaign/campaign-social.service.ts:141-165 | A soft delete with its reversal row keeps the same books |
| HandleExclusivity.HandleExclusivityNeedsFreshReads | apps/api/src/modules/campaign/campaign-social.service.ts:84-139 | One wallet per handle holds at every point of a history if and only if every accepted claim's unlocked read of other wallets was still true at its write |
| HandleExclusivity.AtomicClaimsKeepHandlesExclusive | apps/api/src/modules/campaign/social-claims.queries.ts:77-95 | With every read true at its write, no state reachable from empty tables gives two wallets one handle |
| HandleExclusivity.RacingClaimsShareAHandle | apps/api/src/modules/campaign/campaign-social.service.ts:84-139 | A history from empty tables in which a stale read gives two wallets one handle through two different tasks, past both unique indexes |
| CampaignHistory.CheckinNeverHitsTheIndex | apps/api/src/modules/campaign/campaign.repository.ts:418-474 | Under the lock, the ledger's unique index never refuses a check-in |
| CampaignHistory.CreditConverges | apps/api/src/modules/campaign/campaign.repository.ts:786-824 | Crediting a link from any tables, even half-credited ones, leaves both rows and the mark, and repeating it changes nothing |
| CampaignHistory.NextPerkFollowsPrefix | apps/api/src/modules/campaign/campaign-rules.ts:388-406 | nextPerkFor names exactly the tier after the granted prefix, and nothing when all are granted |
| CampaignHistory.GrantKeepsPrefix | apps/api/src/scripts/84-campaign-award.ts:160-167 | Granting, complete or cut short, keeps perks a duplicate-free prefix of the tiers, removes none, and when complete covers perksFor(balance) |
| CampaignHistory.ApplyKeepsInv | apps/api/src/modules/campaign/campaign.service.ts:365-438 | Every transaction keeps every book: enrolments, links, unique keys, check-ins, social, referrals, perks |
| CampaignHistory.CheckinsMatchStreakRows | apps/api/src/modules/campaign/campaign.repository.ts:425-474 | After any history a wallet's streak points are five times its check-in days, one row each, one check-in per wallet and day |
| CampaignHistory.SocialPointsAreConserved | apps/api/src/modules/campaign/social-claims.queries.ts:97-229 | After any history social rows plus reversals equal the points of active claims, no day's gross exceeds 50, and active claims are exclusive |
| CampaignHistory.ReferralsAreCreditedOnce | apps/api/src/modules/campaign/campaign.repository.ts:786-824 | After any history both referral rows of a referee exist exactly when its link is credited, once each, and referral points are 150 times credited links |
| CampaignHistory.ReferralsFormAForest | apps/api/src/modules/campaign/campaign.service.ts:365-424 | After any history no path of referral links returns to its start |
| CampaignHistory.ReferralsNeverCycle | apps/api/src/modules/campaign/campaign.service.ts:365-424 | Links that point to strictly earlier enrolments never cycle |
| CampaignHistory.PerksOnlyGrow | apps/api/src/modules/campaign/campaign-rules.ts:374-386 | After any history a wallet's perks are a prefix of the tiers and never shrink, whatever its balance does |
| CampaignHistory.BalancesAreNeverNegative | apps/api/src/modules/campaign/social-claims.queries.ts:195-218 | Without founder adjustments no reachable balance is negative |
| CampaignHistory.WitnessesAreAwardedOnce | apps/api/src/modules/campaign/campaign.repository.ts:721-747 | No history, overlapping runs included, awards a witness twice |
| Campaign.HistoryAppends | apps/api/src/scripts/84-campaign-award.ts:63-179 | Running histories one after another is running their concatenation |
| CampaignDb.Tables.EnrollWallet | apps/api/src/modules/campaign/campaign.service.ts:365-424 | Enrolment on the tables is the atomic enrolment step, refusals included |
| CampaignDb.Tables.CheckinToday | apps/api/src/modules/campaign/campaign.repository.ts:425-474 | The check-in on the tables is the atomic check-in step |
| CampaignDb.Tables.ClaimSocialTask | apps/api/src/modules/campaign/campaign-social.service.ts:65-139 | The claim on the tables is the atomic claim step, refusals in the source's order |
| CampaignDb.Tables.RemoveSocialClaim | apps/api/src/modules/campaign/campaign-social.service.ts:141-165 | The delete on the tables is the atomic delete step |
| CampaignDb.Tables.CreditReferral | apps/api/src/modules/campaign/campaign.repository.ts:786-824 | Both rows and the mark, in one transaction |
| CampaignDb.Tables.AwardActions | apps/api/src/scripts/84-campaign-award.ts:94-125 | The actions step leaves exactly the ledger with the whole plan of the tables it read, and counts its awards and its skips by reason |
| CampaignDb.Tables.CreditReferrals | apps/api/src/scripts/84-campaign-award.ts:131-155 | The referrals step leaves exactly the tables of crediting, in order, each uncredited link whose referee's earliest qualifying witness closed in the window, with that witness's hash, and counts credited and pending links |
| CampaignDb.ReferralsAppendExactly | apps/api/src/modules/campaign/campaign.repository.ts:786-824 | On tables in order the step appends exactly two rows for each link it credits, referrer first, in the order of the links |
| CampaignDb.Tables.GrantAllPerks | apps/api/src/scripts/84-campaign-award.ts:160-167 | The perks step grants every enrolled wallet exactly the tiers its balance reaches, no one anything else, and counts the perks it granted |
| CampaignDb.RunCampaignAward | apps/api/src/scripts/84-campaign-award.ts:63-179 | Dark without a start date; otherwise the final ledger is exactly the old one, the planned awards and the rows of the newly credited links, who is paid is exactly as the witnesses say, nothing else changes, the summary counts just that, and every book is kept |
| CampaignDb.EarnsExactly | apps/api/src/modules/campaign/campaign.repository.ts:763-784 | A link earns if and only if the earliest witness that is the referee's own in any case, a swap or deposit above the minimum and not before the link closed in [start, end) |
| CampaignDb.CreditRowsExactly | apps/api/src/modules/campaign/campaign.repository.ts:786-824 | The referral rows of a run are exactly, for each link that earns, 100 points to the referrer and 50 to the referee on the day of that witness |
| CampaignDb.CompletePaysExactly | apps/api/src/scripts/84-campaign-award.ts:63-179 | A complete run in terms of the witnesses: what becomes of every link, that every new row pays an enrolled wallet's action or a credited link, that no payable witness is left out below its cap, and exactly who holds which perk |
| CheckinConcurrency.StepIsAtomic | apps/api/src/modules/campaign/campaign.repository.ts:425-474 | Each statement leaves the committed tables alone or is one commit that acts as an atomic check-in; a refusal is right when it is made |
| CheckinConcurrency.HolderMeetsNoRow | apps/api/src/modules/campaign/campaign.repository.ts:418-474 | A lock holder past its count never conflicts with a ledger row |
| CheckinConcurrency.InsertsNeverCollide | apps/api/src/modules/campaign/campaign.repository.ts:418-474 | No insert of a lock holder waits for another transaction's uncommitted one |
| CheckinConcurrency.StepKeepsOk | apps/api/src/modules/campaign/campaign.repository.ts:425-474 | Every statement of every interleaving keeps the books and the locks consistent |
| CheckinConcurrency.CheckinsAreExactUnderConcurrency | apps/api/src/modules/campaign/campaign.repository.ts:418-474 | For any interleaving: one check-in per wallet and day, streak rows in bijection with check-ins, five points each, no unique violation |
| CheckinAlone.AloneIsTheAtomicCheckin | apps/api/src/modules/campaign/campaign.repository.ts:425-474 | With its wallet's lock free a check-in that locks within five seconds ends with the answer and the tables of the atomic check-in of the moment it began; later it leaves no trace; other transactions and locks stay, whatever state they are in |
| CheckinConcurrency.CheckinMayCommitTheNextDay | apps/api/src/modules/campaign/campaign.repository.ts:425-474 | A run in which a check-in begun in the last millisecond of a day commits one millisecond later, for the day before |
| LateCheckin.MultiplierChangesExactly | apps/api/src/modules/campaign/campaign-rules.ts:130-144 | Extra check-ins leave a day's multiplier alone if and only if none fills the first gap before it or the streak up to the gap already earns the cap |
| LateCheckin.AwardChangesExactly | apps/api/src/modules/campaign/campaign-rules.ts:130-144 | A witness's ledger row is the same in a world with more check-ins if and only if the first gap is still open or the cap was reached |
| LateCheckin.InterleavingChangesAwardExactly | apps/api/src/modules/campaign/campaign.repository.ts:425-474 | For every interleaving of check-ins, a later run writes another row exactly when one committed in between fills the first gap below the cap |
| SettledAwards.AwardIsSettledExactly | apps/api/src/modules/campaign/campaign.repository.ts:425-474 | In every reachable state: no continuation of any interleaving changes an award, if and only if the cap is reached, or the day of the first gap is over and no check-in of the wallet for it is open and within its time limit |
| SettledAwards.AwardIsSettledOnceOlderCheckinsEnd | apps/api/src/modules/campaign/campaign.repository.ts:425-474 | From the first instant of its day with no older check-in of its wallet open and in time, an award is the same whichever later run writes it, in every interleaving |
| SettledAwards.AwardIsSettledFiveSecondsIn | apps/api/src/modules/campaign/campaign-rules.ts:130-138 | In every interleaving an award is settled five seconds into its witness's day |
| LateCheckin.LateCheckinChangesAnAward | apps/api/src/modules/campaign/campaign.repository.ts:425-474 | One swap closed just after midnight earns 50 points before and 53 after the commit of a check-in begun just before midnight |
| OverlappingRuns.TakenOnKey | apps/api/src/scripts/84-campaign-award.lib.ts:81-121 | For any counters and any candidates, the awards of one (wallet, kind, day) are its first eligible candidates, up to the room its counter leaves |
| OverlappingRuns.OverlapsAddTheUnion | apps/api/src/scripts/84-campaign-award.ts:94-125 | Any number of runs, their candidate queries, count queries and inserts in any order, some of them crashed: each count grows by the union of what they wrote, and a finished run wrote its first pending ones up to the room it counted |
| OverlappingRuns.OverlapsKeepTheCapExactly | apps/api/src/scripts/84-campaign-award.ts:94-125 | When all runs finish, the cap holds if and only if their first ones pending, each up to the room its run counted, fit together |
| TwoOverlappingRuns.OverlapKeepsTheCapExactly | apps/api/src/scripts/84-campaign-award.ts:94-125 | With one run's candidates read after i and its counts after j of another's inserts, in any order: the cap holds at the end of every interleaving if and only if the first of its pending ones are among the first of the other's, or fit together with all the other has pending |
| TwoOverlappingRuns.SameWitnessesKeepTheCapExactly | apps/api/src/scripts/84-campaign-award.ts:94-125 | With the same witnesses on both sides: if and only if no row of the key went in after the count query and before the candidates query, or what is pending at the latter fits; with the exact count |
| TwoOverlappingRuns.CountsReadLastKeepTheCap | apps/api/src/scripts/84-campaign-award.ts:94-98 | With the same witnesses, counts read with the candidates or after them never pass the cap |
| CapBreaks.EachInsertBetweenTheReadsIsOneOver | apps/api/src/scripts/84-campaign-award.ts:94-125 | With the same witnesses, all of one key, the final count is the cap and one more for each insert between the two queries, as far as there are witnesses |
| CapBreaks.FourthDepositIsPaid | apps/api/src/scripts/84-campaign-award.ts:94-125 | Four deposits seen by both runs under a cap of three: four are paid exactly when anything was inserted between the count query and the candidates query, in every interleaving |
| CapBreaks.LateWitnessBreaksTheCap | apps/api/src/modules/campaign/campaign.repository.ts:677-747 | A witness only the second run sees, and sees first, breaks the cap whenever what the first still has pending fills the day, wherever the second run's queries fall |
| CapBreaks.FourUnderACapOfThree | apps/api/src/scripts/84-campaign-award.ts:94-125 | Three deposits to the first run and an older fourth to the second: four awards under a cap of three, in every interleaving |
| AlertMachine.EmissionDiscipline | apps/api/src/modules/alerts/evaluate.ts:73-149 | From no prior state: breached exactly when the last emission was a fire, lastFiredAt is the latest fire's time, the first emission is a fire |
| AlertMachine.StatusIsAnUnclearedBreach | apps/api/src/modules/alerts/evaluate.ts:28-149 | On every trace the status is breached if and only if some observation breached and none after it was null or recovered past the margin |
| AlertMachine.ResolvesAreSeparated | apps/api/src/modules/alerts/evaluate.ts:73-149 | Between two resolves there is always a fire |
| AlertMachine.EpisodeIsSpaced | apps/api/src/modules/alerts/evaluate.ts:118-135 | Fires with no resolve between them are a cooldown apart, one by one |
| AlertMachine.EpisodeIsBounded | apps/api/src/modules/alerts/evaluate.ts:118-135 | An episode T ms long has at most 1 + T / (1000 × cooldown) fires |
| AlertMachine.FlapBound | apps/api/src/modules/alerts/evaluate.ts:28-149 | On a null-free trace k resolves force a total variation of at least (2k − 1) recovery margins, for all four operators |
| AlertCadence.SpeaksExactly | apps/api/src/modules/alerts/evaluate.ts:73-149 | On every trace, in plain comparisons for all four operators: an observation fires if and only if its value is bad and the last emission is no fire or a cooldown ago; it resolves if and only if the last emission is a fire and the value is missing, or good by the margin and not bad |
| AlertCadence.PersistsExactly | apps/api/src/modules/alerts/evaluate.ts:73-149 | What is persisted after every trace: the last value and time, the last fire's time, and a breach exactly while a bad value is not made good |
| AlertCadence.LastingBreachFiresAgain | apps/api/src/modules/alerts/evaluate.ts:118-135 | Of bad observations that span a cooldown at least one fires, from whatever persisted state |
| AlertSweep.PartitionRulesByFamily | apps/api/src/modules/alerts/families.ts:26-45 | Every rule lands in exactly one bucket, in order |
| AlertSweep.AlertStore.RunRule | apps/api/src/scripts/83-evaluate-alerts.ts:128-211 | One rule steps exactly the subjects of the rows of its own user with its wallet and pool or any, appends one notification per emission, and tells no one else |
| AlertSweep.AlertStore.SweepHealthFactor | apps/api/src/scripts/83-evaluate-alerts.ts:109-211 | One sweep touches a subject only for a health-factor rule and a row of one user that concern it, steps every such subject by its own observation alone, and tells only the user who owns both |
| AlertSweep.SweepsRefineOneMachinePerSubject | apps/api/src/scripts/83-evaluate-alerts.ts:109-211 | After any number of sweeps a subject's state is the fold of evaluate over its own observations and its notifications are that fold's emissions |
| AlertSweep.FamiliesByMetric | apps/api/src/modules/alerts/families.ts:26-45 | Which of the five metrics is whose, and that any other is skipped |
| PoolStatus.Watch.Observe | apps/api/src/scripts/83-evaluate-alerts.ts:612-637 | One observation records its label whatever it is and tells users only of a change between known labels |
| PoolStatus.KnownRunsAreToldInFull | apps/api/src/modules/alerts/families.ts:252-260 | While labels stay known, the notices form a chain from the first label to the current one |
| PoolStatus.UnknownForgets | apps/api/src/modules/alerts/families.ts:252-260 | The notices around an Unknown observation are those of the two sides, each on its own |
| PoolStatus.ChangesBehindUnknownAreLost | apps/api/src/modules/alerts/families.ts:252-260 | After any past and an outage of any length, at the end of a known run of any length users are right if and only if the run holds a change of its own or starts at what they believed |
| PoolStatus.UsersAreRightExactly | apps/api/src/scripts/83-evaluate-alerts.ts:612-637 | For every run of observations, with any number of outages: users are right at the end if and only if the last label is the one the last turn between known labels led to, or the first label when there was no turn |
| PoolStatus.OutageHidesAChange | apps/api/src/modules/alerts/families.ts:252-260 | Two sweeps without a label between two different labels: nothing is told and users are left with the old one |
| TtlCache.Cache.Get | apps/api/src/common/ttl-cache.ts:25-31 | A get up to its first await serves, joins or starts as specified, and changes only the in-flight map |
| TtlCache.OneLoadPerKey | apps/api/src/common/ttl-cache.ts:25-46 | In every interleaving at most one load per key runs, and a join is to that one |
| TtlCache.ServedValuesAreFresh | apps/api/src/common/ttl-cache.ts:25-46 | A served value was stored by a successful load of that key less than ttlMs ago, with no clear since |
| TtlCache.StartsAreSpaced | apps/api/src/common/ttl-cache.ts:25-46 | Without failures and clears, two load starts of a key are at least ttlMs apart |
| TtlCache.ClearReachesSettledKeys | apps/api/src/common/ttl-cache.ts:25-50 | In every interleaving, what is stored for a key after a clear that met no load of it in flight was loaded by a load with a later number, begun after the clear |
| TtlCache.LoadInFlightOutlivesClear | apps/api/src/common/ttl-cache.ts:33-50 | With a load in flight, the run in which it settles right after the clear serves its older value |
| TtlCache.ClearMissesOnlyLoadsInFlight | apps/api/src/common/ttl-cache.ts:25-50 | In every continuation everything served after a clear was loaded by a load begun after it, if and only if no load of the key was in flight at the clear |
| TtlCache.NoTtlNoCache | apps/api/src/common/ttl-cache.ts:25-46 | Without a positive ttl every get loads for itself and nothing is kept |
| DecimalAmounts.ParsersAgree | apps/api/src/modules/actions/actions.service.ts:233-237 | On every decimal the builder reads a number, and it is the gates' number exactly when the fraction has no more digits than the asset |
| DecimalAmounts.ReadingsMoveThePoint | apps/web/src/lib/validateDepositXdr.ts:118-127 | Both readings are the digit string with the point moved `decimals` places, padded, and for the builder cut |
| AmountReadings.ReadingsAgreeExactly | apps/web/src/lib/validateDepositXdr.ts:118-127 | Of every string the gates accept, whatever white space surrounds it, the builder reads the same number if and only if nothing follows the fraction, or it has all its digits, or it is zero and the blanks fill it up; it throws exactly when they do not fill it up |
| AmountReadings.BlanksMoveTheAmount | apps/api/src/modules/actions/actions.service.ts:233-237 | For every run of blanks behind 1.5: the gates read 1.5, the builder throws below six blanks and reads 1.0000005 from six on |
| AmountReadings.SixBlanks | apps/api/src/modules/actions/actions.service.ts:233-237 | 1.5 and six blanks: 15000000 to the gates, 10000005 to the builder |
| DecimalAmounts.PrintedAmountPassesGates | apps/api/src/modules/actions/actions.service.ts:239-246 | toScaled(fromI128(v, d), d) is v for every v ≥ 0 and d ≥ 1 |
| DecimalAmounts.GatesRefuseWholePrints | apps/api/src/modules/actions/actions.service.ts:239-246 | With no decimals the gates refuse every print |
| DecimalAmounts.PrintedAmountReadsBack | apps/api/src/modules/actions/actions.service.ts:233-246 | toI128(fromI128(v, d), d) is v if and only if v is non-negative or whole |
| DecimalAmounts.EighthDigitIsCut | apps/api/src/modules/actions/actions.service.ts:233-237 | 0.12345678 with seven decimals: 1234567 to the builder, refused by the gates |
| DecimalAmounts.NegativeFractionLosesItsSign | apps/api/src/modules/actions/actions.service.ts:233-246 | -1.5 printed and read back is -0.5 |
| DecimalAmounts.BigIntForms | apps/api/src/modules/actions/actions.service.ts:233-237 | The builder's BigInt reads nothing as 0 and 0x, 0o and 0b in their radix, without a sign |
| Envelopes.CheckPreface | apps/web/src/lib/validateDepositXdr.ts:135-184 | The shared preface reports exactly the violations present and is silent exactly when it holds |
| SwapGate.CheckTrustlines | apps/web/src/lib/validateSwapXdr.ts:200-230 | The loop over the other operations reports exactly what is wrong with any of them |
| SwapGate.CheckPayment | apps/web/src/lib/validateSwapXdr.ts:232-287 | The checks on the payment report exactly the violations present |
| SwapGate.ValidateSwap | apps/web/src/lib/validateSwapXdr.ts:133-290 | The gate is silent exactly on a classic transaction of the user that is the one matching strict send, alone or with one matching trustline in either order |
| SwapGate.BuildSdexSwap | apps/api/src/modules/actions/actions.service.ts:954-1042 | One or two operations, the payment last; before it one trustline for exactly the asset received, if and only if that is not XLM and the account is unknown or lacks it; carried out in order they never pay into an asset without a trustline; one bid per operation |
| SwapGate.BuilderMeetsGate | apps/api/src/modules/actions/actions.service.ts:954-1042 | For every intent, the envelope passes the gate if and only if account and network are right, the assets are those the builder resolved, the amounts agree, the bundled trustline is allowed and bid times operations is at most 100,000 |
| SwapGate.CanonicalSwapsPassTheGate | apps/api/src/modules/actions/actions.service.ts:294-334 | A canonical widget request passes if and only if both assets are identified and the bid is at most 50,000, or 100,000 without a trustline |
| SwapGate.OneStroopTooMany | apps/api/src/modules/actions/actions.service.ts:954-1042 | A first swap into USDC passes the gate at a bid of 50,000 and fails at 50,001 |
| SubmitGate.ValidateSubmit | apps/web/src/lib/validateDepositXdr.ts:197-348 | The gate is silent exactly on the single submit call on the user's account with one request of the expected type, asset and amount |
| SubmitGate.BuildSubmit | apps/api/src/modules/actions/actions.service.ts:659-861 | Nothing is built without a simulation or a readable amount; what is built is one submit call with the account three times and one request, at the bid (10,000 if none of at least 100) plus three halves of the simulated fee, rounded up; the gate accepts what is built if and only if the network is recognised, the padded fee is under the cap, the gate takes the amount and the builder read the same number from it |
| SignedEffects.SwapGateProtects | apps/web/src/lib/validateSwapXdr.ts:133-290 | The swap gate lets through exactly the account's own transactions on a known network, for at most 100,000 stroops, whose effects are the meant spend, a receipt of at least what was asked, and at most the announced trustline |
| SignedEffects.SubmitGateProtects | apps/web/src/lib/validateDepositXdr.ts:197-348 | The submit gate lets through exactly one call of submit on the pool, three times for the account, with one request of the type, asset and amount, for at most 20,000,000 stroops |
| ExpressionResolver.ParensWrapWhole | design/2026-08-handoff/project/support.js:237-247 | True exactly when no earlier closing parenthesis brings the depth back to zero |
| ExpressionResolver.FindTopLevelEquality | design/2026-08-handoff/project/support.js:248-262 | Finds the first equality outside brackets, not inside another operator and after something, with its operator |
| ExpressionResolver.Resolve | design/2026-08-handoff/project/support.js:203-236 | The mutual recursion terminates on every string and computes the specified value |
| ExpressionResolver.ResolvePath | design/2026-08-handoff/project/support.js:263-294 | The scan along members and bracketed keys computes the specified value |
| ExpressionRoundTrip.RoundTrip | design/2026-08-handoff/project/support.js:205-294 | Resolving the print of an expression gives its value, for literals, paths with nested keys, negation and the four equalities, however deep |
| ExpressionRoundTrip.StepsRoundTrip | design/2026-08-handoff/project/support.js:263-294 | Resolving the printed steps of a path, wherever they stand, applies the steps |
| ExpressionRoundTrip.EqualityBetween | design/2026-08-handoff/project/support.js:248-262 | Between two parenthesised operands the scan finds the printed operator and no other |
| ExpressionRoundTrip.QuotedStringExactly | design/2026-08-handoff/project/support.js:211-234 | A quoted string resolves to its content if and only if the equality scan finds nothing in it |
| ExpressionRoundTrip.PlainTextIsSafe | design/2026-08-handoff/project/support.js:248-262 | Text without brackets, = and ! is always read as itself |
| ExpressionRoundTrip.QuotedEqualityIsSplit | design/2026-08-handoff/project/support.js:211-234 | The quoted string == resolves to a comparison of two undefined values |
| ExpressionReading.PlainEquality | design/2026-08-handoff/project/support.js:205-262 | Operands need no parentheses: an equality is read at its first operator outside brackets, with the operator as written |
| ExpressionReading.NegationBindsTighter | design/2026-08-handoff/project/support.js:205-262 | A leading negation takes the left operand only |
| ExpressionReading.LeadingOperators | design/2026-08-handoff/project/support.js:248-262 | A run of equality characters with nothing before it holds no operator: a `!` in front negates what is left, and what begins with `=` is undefined |
| ExpressionReading.BlanksAround | design/2026-08-handoff/project/support.js:203-210 | White space around an expression makes no difference |
| ExpressionReading.NumberExactly | design/2026-08-handoff/project/support.js:200-232 | A number is a minus sign or none, digits, and maybe a point and digits; nothing else |
| ExpressionReading.BrokenPaths | design/2026-08-handoff/project/support.js:263-294 | A path with anything but a complete step behind it is undefined |
| CssScanners.ScanUnquotedUrl | design/2026-08-handoff/project/support.js:1428-1440 | The index loop finds the end of the url token of the specification, or none |
| CssScanners.StripCommentsLoop | design/2026-08-handoff/project/support.js:1441-1471 | The index loop computes the specified stripping |
| CssScanners.StripLeavesNoComment | design/2026-08-handoff/project/support.js:1441-1471 | From any scanner state, scanning the output meets no comment |
| CssScanners.NothingToStrip | design/2026-08-handoff/project/support.js:1441-1471 | Text whose scan meets no comment is left as it is |
| CssScanners.StripCommentsIsIdempotent | design/2026-08-handoff/project/support.js:1441-1471 | stripComments is idempotent on every string |
| CssScanners.TokenStandsAlone | design/2026-08-handoff/project/support.js:1428-1440 | A terminated url token is the same token whatever follows it |
| CssImportant.PiecesRejoin | design/2026-08-handoff/project/support.js:1472-1492 | Splitting loses nothing: the pieces joined by semicolons are the text |
| CssImportant.SplitDeclarations | design/2026-08-handoff/project/support.js:1472-1492 | The index loop finds exactly the text between semicolons outside quotes, parentheses and url tokens |
| CssImportant.ImportantifyLoop | design/2026-08-handoff/project/support.js:1472-1496 | Stripping, splitting, trimming, marking and joining compute the specified text |
| CssImportant.EveryDeclarationIsMarked | design/2026-08-handoff/project/support.js:1472-1496 | Every declaration it emits ends in !important, on every input |
| CssImportant.JoinSplitsBack | design/2026-08-handoff/project/support.js:1472-1496 | Joined finished declarations are comment-free and split back into themselves |
| CssImportant.ImportantifyIsIdempotent | design/2026-08-handoff/project/support.js:1472-1496 | importantify is idempotent on every string and its output has the same declarations |
| CssMeaning.CommentIsOneBlank | design/2026-08-handoff/project/support.js:1455-1459 | After any comment-free text that ends outside quotes and urls, a comment is one blank, ends at the first comment end behind its opening, and what follows is stripped on its own |
| CssMeaning.OpenCommentRunsOut | design/2026-08-handoff/project/support.js:1455-1459 | An unclosed comment takes the rest |
| CssMeaning.DeclarationStandsAlone | design/2026-08-handoff/project/support.js:1472-1496 | A declaration that ends outside quotes, parentheses and urls is trimmed and marked on its own, whatever follows it |
| CssMeaning.DeclarationBetweenComments | design/2026-08-handoff/project/support.js:1472-1496 | A declaration between two comments survives, marked, and the rest is as without them |
| CssGrammar.PrintedIsOneDeclaration | design/2026-08-handoff/project/support.js:1428-1492 | Every print of a grammar of plain text, strings with escapes, url tokens and nested parentheses is one declaration, whatever semicolons, quotes and comment marks its strings and urls hold |
| CssGrammar.CommentAfterPrint | design/2026-08-handoff/project/support.js:1441-1471 | A comment behind such a print is one blank |
| CssGrammar.MarkedExactly | design/2026-08-handoff/project/support.js:1494-1496 | A declaration counts as marked if and only if it ends in an exclamation mark, white space and the word in any case |
| CssGrammar.TwoCommentsTwoDeclarations | design/2026-08-handoff/project/support.js:1472-1496 | Two declarations, each behind a comment, both come out marked |

## Left out

- Prisma, SQL text, HTTP, Horizon and Soroban RPC, the Blend SDK, XDR encoding and signing: foreign calls. Envelopes start decoded; what the SDK encodes an amount string as is a parameter of the swap builder.
- Signature verification, challenges and ownership proofs: a proof is a boolean of the request.
- `user_id` columns, row ids and timestamps of the campaign tables: they decide nothing modelled here.
- Founder-written `adjust:<note>` rows, written by hand outside the code.
- AwardDeterminism.HistoryAddsLaterCheckins: check-ins are atomic there, each of the day it is made; `LateCheckin` and `SettledAwards` have the award under interleaving.
- AwardDeterminism.AwardIsSettledAtClose: the same; with interleaved check-ins `SettledAwards.AwardIsSettledExactly` says when it is settled.
- SwapGate.CanonicalSwapsPassTheGate: that the SDK encodes a canonical amount as the number the gate reads is a hypothesis, because the SDK is foreign code.
- Cross-transaction interleaving is modelled statement by statement for check-ins only; enrolments, claims and deletes are atomic steps, with the claim's unlocked handle read left free to be stale. Award runs interleave by query and by insert in `OverlappingRuns`.
- SettledAwards.AwardIsSettledFiveSecondsIn: Prisma's default limit of five seconds is taken to run on the database's clock from `now()` on, and a statement, the commit included, to take no time of its own. The repository sets no other limit.
- `findQualifyingOp` and `computeNotionalXlm`: witnesses come with a kind, a close time and a min-notional flag.
- Case folding of addresses is ASCII, which covers Stellar addresses; handles arrive normalised.
- Calendar.PreviousUtcDayIsPredecessor: at 0000-01-01 the source formats the year before with a sign and cuts it; the model keeps the civil date of year -1.
- Floating point in points, alert values and thresholds: multipliers are hundredths, values are reals; a missing threshold is the NaN case.
- The price, TVL and APY families of the sweep, the per-rule error handling and the notification copy: the same machine with other subjects. Which users hold a position in a pool is not part of its watch.
- AlertCadence.LastingBreachFiresAgain: takes observations in the order of their times, which a clock that is never set back gives; after a step back the fire time may lie ahead and the cooldown runs longer.
- AlertSweep.AlertStore.SweepHealthFactor: takes distinct rule ids and distinct (wallet, pool) rows, which the primary key and the latest-row query provide.
- A loader that throws before it returns a promise, and `ttlMsFromEnv`.
- DecimalAmounts.PrintedAmountReadsBack: up to 22 decimals, because beyond that the source's `10 ** decimals` is no longer exact; so are the other `toI128` statements.
- `computeSpendable`, network and pool resolution and the request checks of the controllers: builders start past them.
- `validateTrustlineXdr`: the same preface and trustline match with another cap.
- Soroban resource limits (`padResources`); the fee of the assembled transaction is the bid plus the padded resource fee, as the source's comments state of the SDK.
- Values of the resolver's host language: equality, truthiness, property reads and Number are a parameter, total and without exceptions.
- The rest of `support.js`: rendering, module loading and DOM work.

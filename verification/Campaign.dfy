/**
 The campaign tables and the transactions that change them, each as one atomic step. A history is a
 sequence of events; an event that the source refuses, or that a unique index rolls back, leaves
 the tables as they were.
 */
module Campaign {
  import opened Wrappers
  import opened Calendar
  import opened CampaignRules
  import opened PointsLedger

  datatype Enrollment = Enrollment(address: string, code: string)

  datatype Link = Link(referee: string, referrer: string, code: string, linkedAtMs: int, creditedTx: Option<string>)

  /** A social claim; its id is its position in the table. */
  datatype Claim = Claim(address: string, task: SocialTask, handle: string, deleted: bool)

  datatype Perk = EarlyAccess | BetaFeatures | PriorityRwa

  datatype State = State(nowMs: int, enrollments: seq<Enrollment>, links: seq<Link>,
                         checkins: seq<(string, Civil)>, claims: seq<Claim>, ledger: seq<Row>,
                         perks: seq<(string, Perk)>)

  const EMPTY := State(0, [], [], [], [], [], [])

  datatype Refusal =
    | CampaignDisabled | CampaignNotStarted | CampaignEnded | OwnershipProofRequired
    | NotEnrolled | AlreadyEnrolled | AlreadyCheckedIn | InvalidReferralCode | SelfReferral
    | UnknownTask | TaskUnavailable | AlreadyClaimed | HandleMismatch | HandleAlreadyUsed
    | SocialDailyCapReached | NotFound
    | UniqueViolation // an error the source rethrows

  /** What a request brings from outside the tables: the configured window and the ownership proof. */
  datatype Gate = Gate(enabled: bool, window: Window, proven: bool)

  function StatusRefusal(g: Gate, nowMs: int): Option<Refusal> {
    if !g.enabled then Some(CampaignDisabled)
    else if g.window.startsAtMs.None? || nowMs < g.window.startsAtMs.value then Some(CampaignNotStarted)
    else if g.window.endsAtMs.Some? && nowMs >= g.window.endsAtMs.value then Some(CampaignEnded)
    else None
  }

  // ---- Reads ----

  function FindEnrollment(es: seq<Enrollment>, address: string): Option<Enrollment> {
    if es == [] then None
    else if Lower(es[0].address) == Lower(address) then Some(es[0])
    else FindEnrollment(es[1..], address)
  }

  function FindEnrollmentByCode(es: seq<Enrollment>, code: string): Option<Enrollment> {
    if es == [] then None
    else if es[0].code == code then Some(es[0])
    else FindEnrollmentByCode(es[1..], code)
  }

  lemma {:induction false} FoundEnrollment(es: seq<Enrollment>, address: string)
    ensures FindEnrollment(es, address).Some? ==>
              && FindEnrollment(es, address).value in es
              && Lower(FindEnrollment(es, address).value.address) == Lower(address)
    ensures FindEnrollment(es, address).None? ==> forall e :: e in es ==> Lower(e.address) != Lower(address)
  {
    if es != [] { FoundEnrollment(es[1..], address); }
  }

  lemma {:induction false} FoundByCode(es: seq<Enrollment>, code: string)
    ensures FindEnrollmentByCode(es, code).Some? ==>
              FindEnrollmentByCode(es, code).value in es && FindEnrollmentByCode(es, code).value.code == code
    ensures FindEnrollmentByCode(es, code).None? ==> forall e :: e in es ==> e.code != code
  {
    if es != [] { FoundByCode(es[1..], code); }
  }

  function Today(s: State): Civil {
    UtcDay(s.nowMs)
  }

  predicate IsActiveClaimOf(c: Claim, wallet: string) {
    !c.deleted && Lower(c.address) == wallet
  }

  /** The ledger row that credited a claim: any row will do, the unique key allows one. */
  function FindSocialRow(ledger: seq<Row>, id: nat): Option<nat> {
    if ledger == [] then None
    else
      var n := |ledger| - 1;
      var found := FindSocialRow(ledger[..n], id);
      if found.Some? then found
      else if ledger[n].reason.Social? && ledger[n].reference == SocialClaim(id) then Some(n)
      else None
  }

  // ---- Enrolment ----

  function EnrollRefusal(s: State, g: Gate, address: string, referral: Option<string>): Option<Refusal> {
    var status := StatusRefusal(g, s.nowMs);
    if status.Some? then status
    else if !g.proven then Some(OwnershipProofRequired)
    else if FindEnrollment(s.enrollments, address).Some? then Some(AlreadyEnrolled)
    else if referral.None? then None
    else
      var referrer := FindEnrollmentByCode(s.enrollments, referral.value);
      if referrer.None? then Some(InvalidReferralCode)
      else if Lower(referrer.value.address) == Lower(address) then Some(SelfReferral)
      else None
  }

  function CodeTaken(s: State, code: string): bool {
    FindEnrollmentByCode(s.enrollments, code).Some?
  }

  /** One retry on a referral-code collision; a second collision is rethrown. */
  function Enroll(s: State, g: Gate, address: string, codes: (string, string),
                  referral: Option<string>): (State, Option<Refusal>) {
    var refusal := EnrollRefusal(s, g, address, referral);
    if refusal.Some? then (s, refusal)
    else if CodeTaken(s, codes.0) && CodeTaken(s, codes.1) then (s, Some(UniqueViolation))
    else
      var code := if CodeTaken(s, codes.0) then codes.1 else codes.0;
      var s1 := s.(enrollments := s.enrollments + [Enrollment(address, code)]);
      if referral.None? then (s1, None)
      else
        var referrer := FindEnrollmentByCode(s.enrollments, referral.value).value;
        if exists i :: 0 <= i < |s.links| && s.links[i].referee == address then (s, Some(UniqueViolation))
        else (s1.(links := s.links + [Link(address, referrer.address, referrer.code, s.nowMs, None)]), None)
  }

  // ---- Daily check-in ----

  function StreakRow(address: string, day: Civil): Row {
    Row(address, StreakDaily, STREAK_DAILY_POINTS, 100, STREAK_DAILY_POINTS, CheckinDay(day), Some(day))
  }

  function Checkin(s: State, g: Gate, address: string): (State, Option<Refusal>) {
    var status := StatusRefusal(g, s.nowMs);
    if status.Some? then (s, status)
    else if !g.proven then (s, Some(OwnershipProofRequired))
    else
      var e := FindEnrollment(s.enrollments, address);
      if e.None? then (s, Some(NotEnrolled))
      else
        var entry := (e.value.address, Today(s));
        var row := StreakRow(e.value.address, Today(s));
        if entry in s.checkins then (s, Some(AlreadyCheckedIn))
        else if Conflicts(s.ledger, row) then (s, Some(UniqueViolation))
        else (s.(checkins := s.checkins + [entry], ledger := s.ledger + [row]), None)
  }

  // ---- Social claims ----

  const SOCIAL_DAILY_CAP := 50

  function TaskPoints(task: SocialTask): nat {
    match task
    case XFollow => 20
    case XRepost => 10
    case CommunityJoin => 20
  }

  /** First failing condition, in the source's check order. `task` is None for an unknown key. */
  function ClaimRefusal(g: Gate, nowMs: int, task: Option<SocialTask>, taskAvailable: bool, handle: string,
                        existing: seq<Claim>, usedElsewhere: bool, awardedToday: int): Option<Refusal> {
    var status := StatusRefusal(g, nowMs);
    if status.Some? then status
    else if !g.proven then Some(OwnershipProofRequired)
    else if task.None? then Some(UnknownTask)
    else if !taskAvailable then Some(TaskUnavailable)
    else if exists i :: 0 <= i < |existing| && existing[i].task == task.value then Some(AlreadyClaimed)
    else if exists i :: 0 <= i < |existing| && existing[i].handle != handle then Some(HandleMismatch)
    else if usedElsewhere then Some(HandleAlreadyUsed)
    else if awardedToday + TaskPoints(task.value) > SOCIAL_DAILY_CAP then Some(SocialDailyCapReached)
    else None
  }

  function ActiveClaimsOf(claims: seq<Claim>, wallet: string): seq<Claim> {
    if claims == [] then []
    else
      var rest := ActiveClaimsOf(claims[1..], wallet);
      if IsActiveClaimOf(claims[0], wallet) then [claims[0]] + rest else rest
  }

  /** The two partial unique indexes on active claims: (wallet, task) and (task, handle). */
  predicate ClaimKeyTaken(claims: seq<Claim>, c: Claim) {
    exists i :: 0 <= i < |claims| && !claims[i].deleted && claims[i].task == c.task
                && (Lower(claims[i].address) == Lower(c.address) || claims[i].handle == c.handle)
  }

  predicate TaskClaimedBy(claims: seq<Claim>, c: Claim) {
    exists i :: 0 <= i < |claims| && !claims[i].deleted && claims[i].task == c.task
                && Lower(claims[i].address) == Lower(c.address)
  }

  function SocialRow(address: string, task: SocialTask, id: nat, day: Civil): Row {
    Row(address, Social(task), TaskPoints(task), 100, TaskPoints(task), SocialClaim(id), Some(day))
  }

  /**
   Claim a task. `usedElsewhere` is the read of other wallets' handles: the wallet's lock does not
   cover it, so under interleaving it may be stale, and every value of it is a possible history.
   */
  function ClaimTask(s: State, g: Gate, address: string, task: Option<SocialTask>, taskAvailable: bool,
                     handle: string, usedElsewhere: bool): (State, Option<Refusal>) {
    var pre := ClaimRefusal(g, s.nowMs, task, taskAvailable, handle, [], false, 0);
    if pre.Some? then (s, pre)
    else
      var e := FindEnrollment(s.enrollments, address);
      if e.None? then (s, Some(NotEnrolled))
      else
        var wallet := Lower(e.value.address);
        var refusal := ClaimRefusal(g, s.nowMs, task, taskAvailable, handle, ActiveClaimsOf(s.claims, wallet),
                                    usedElsewhere, Sum(s.ledger, SocialGrossOn(wallet, Today(s))));
        if refusal.Some? then (s, refusal)
        else
          var claim := Claim(e.value.address, task.value, handle, false);
          if ClaimKeyTaken(s.claims, claim) then
            (s, Some(if TaskClaimedBy(s.claims, claim) then AlreadyClaimed else HandleAlreadyUsed))
          else
            var row := SocialRow(e.value.address, task.value, |s.claims|, Today(s));
            if Conflicts(s.ledger, row) then (s, Some(UniqueViolation))
            else (s.(claims := s.claims + [claim], ledger := s.ledger + [row]), None)
  }

  const DELETED_HANDLE := "deleted"

  function Abs(x: int): nat { if x < 0 then -x else x }

  function ReversalRow(address: string, points: int, adjustsId: nat): Row {
    var magnitude: int := Abs(points);
    Row(address, SocialDelete, magnitude, 100, -magnitude, Adjusts(adjustsId), None)
  }

  /** Soft delete: the handle is scrubbed and the credited points are reversed. */
  function RemoveClaim(s: State, proven: bool, address: string, id: nat): (State, Option<Refusal>) {
    if !proven then (s, Some(OwnershipProofRequired))
    else
      var e := FindEnrollment(s.enrollments, address);
      if e.None? then (s, Some(NotFound))
      else if id >= |s.claims| || !IsActiveClaimOf(s.claims[id], Lower(e.value.address)) then (s, Some(NotFound))
      else
        var credited := FindSocialRow(s.ledger, id);
        var claims := s.claims[id := s.claims[id].(deleted := true, handle := DELETED_HANDLE)];
        if credited.Some? && credited.value < |s.ledger| && s.ledger[credited.value].points != 0 then
          var row := ReversalRow(e.value.address, s.ledger[credited.value].points, credited.value);
          (s.(claims := claims, ledger := s.ledger + [row]), None)
        else (s.(claims := claims), None)
  }

  // ---- The award job's writes ----

  const REFERRER_POINTS := 100
  const REFEREE_POINTS := 50

  /** referralCredit: a witness at or after the link, inside the window. */
  predicate EarnsReferral(linkedAtMs: int, witnessClosedAtMs: Option<int>, window: Window) {
    witnessClosedAtMs.Some? && witnessClosedAtMs.value >= linkedAtMs && WithinWindow(window, witnessClosedAtMs.value)
  }

  function ReferralRow(address: string, reason: Reason, points: nat, referee: string, day: Civil): Row {
    Row(address, reason, points, 100, points, Referee(referee), Some(day))
  }

  /** creditReferral: both rows, then the mark on the link, in one transaction. */
  function CreditLink(s: State, i: nat, txHash: string, day: Civil): State
    requires i < |s.links|
  {
    var link := s.links[i];
    var l1 := InsertIdempotent(s.ledger,
                               ReferralRow(link.referrer, ReferralReferrer, REFERRER_POINTS, link.referee, day));
    var l2 := InsertIdempotent(l1, ReferralRow(link.referee, ReferralReferee, REFEREE_POINTS, link.referee, day));
    s.(ledger := l2,
       links := if link.creditedTx.None? then s.links[i := link.(creditedTx := Some(txHash))] else s.links)
  }

  datatype PerkTier = PerkTier(key: Perk, threshold: nat)

  const PERK_TIERS := [PerkTier(EarlyAccess, 100), PerkTier(BetaFeatures, 500), PerkTier(PriorityRwa, 1500)]

  function TiersReached(tiers: seq<PerkTier>, balance: int): seq<Perk> {
    if tiers == [] then []
    else (if balance >= tiers[0].threshold then [tiers[0].key] else []) + TiersReached(tiers[1..], balance)
  }

  function PerksFor(balance: int): seq<Perk> {
    TiersReached(PERK_TIERS, balance)
  }

  function InsertPerk(perks: seq<(string, Perk)>, address: string, perk: Perk): seq<(string, Perk)> {
    if (address, perk) in perks then perks else perks + [(address, perk)]
  }

  function InsertPerks(perks: seq<(string, Perk)>, address: string, keys: seq<Perk>): seq<(string, Perk)>
    decreases |keys|
  {
    if keys == [] then perks else InsertPerks(InsertPerk(perks, address, keys[0]), address, keys[1..])
  }

  function Balance(s: State, address: string): int {
    Sum(s.ledger, AllOf(Lower(address)))
  }

  /** The perk loop for one enrolled wallet, stopped after `written` inserts if the job dies. */
  function GrantPerks(s: State, e: Enrollment, written: nat): State {
    var keys := PerksFor(Balance(s, e.address));
    s.(perks := InsertPerks(s.perks, e.address, if written <= |keys| then keys[..written] else keys))
  }

  // ---- Histories ----

  datatype Event =
    | Tick(ms: nat)
    | EnrollEvent(gate: Gate, address: string, codes: (string, string), referral: Option<string>)
    | CheckinEvent(gate: Gate, address: string)
    | ClaimEvent(gate: Gate, address: string, task: Option<SocialTask>, taskAvailable: bool, handle: string,
                 usedElsewhere: bool)
    | RemoveEvent(proven: bool, address: string, id: nat)
    | AwardEvent(address: string, kind: ActionKind, basePoints: nat, multiplier: int, points: nat, txHash: string,
                 day: Civil)
    | CreditEvent(link: nat, txHash: string, day: Civil)
    | PerkEvent(wallet: nat, written: nat)

  function ActionRow(e: Event): Row
    requires e.AwardEvent?
  {
    Row(e.address, Action(e.kind), e.basePoints, e.multiplier, e.points, WitnessTx(e.txHash), Some(e.day))
  }

  function Apply(s: State, e: Event): State {
    match e
    case Tick(ms) => s.(nowMs := s.nowMs + ms)
    case EnrollEvent(g, a, codes, r) => Enroll(s, g, a, codes, r).0
    case CheckinEvent(g, a) => Checkin(s, g, a).0
    case ClaimEvent(g, a, t, avail, h, used) => ClaimTask(s, g, a, t, avail, h, used).0
    case RemoveEvent(proven, a, id) => RemoveClaim(s, proven, a, id).0
    case AwardEvent(_, _, _, _, _, _, _) => s.(ledger := InsertIdempotent(s.ledger, ActionRow(e)))
    case CreditEvent(i, tx, day) => if i < |s.links| then CreditLink(s, i, tx, day) else s
    case PerkEvent(i, written) => if i < |s.enrollments| then GrantPerks(s, s.enrollments[i], written) else s
  }

  function History(s: State, events: seq<Event>): State
    decreases |events|
  {
    if events == [] then s else History(Apply(s, events[0]), events[1..])
  }

  /** Running histories one after another is running their concatenation. */
  lemma {:induction false} HistoryAppends(s: State, a: seq<Event>, b: seq<Event>)
    ensures History(s, a + b) == History(History(s, a), b)
    decreases |a|
  {
    hide Apply;
    if a == [] {
      assert a + b == b;
    } else {
      assert (a + b)[1..] == a[1..] + b;
      HistoryAppends(Apply(s, a[0]), a[1..], b);
    }
  }

  lemma NoHistory(s: State)
    ensures History(s, []) == s
  {
  }

  lemma HistoryStep(s: State, a: seq<Event>, e: Event)
    ensures History(s, a + [e]) == Apply(History(s, a), e)
  {
    hide Apply;
    HistoryAppends(s, a, [e]);
    assert History(History(s, a), [e]) == History(Apply(History(s, a), e), [e][1..]);
  }
}

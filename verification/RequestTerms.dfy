/**
 When a request is accepted, and what it then writes: the four wallet transactions as if-and-only-ifs over
 the tables, with the founders' constants written out. The premises are what every history keeps.
 */
module RequestTerms {
  import opened Wrappers
  import opened Calendar
  import opened CampaignRules
  import opened PointsLedger
  import opened Campaign
  import opened SocialClaims
  import opened CampaignHistory
  import opened AwardTerms

  /** Enabled, and now inside [start, end). */
  predicate IsOpenNow(g: Gate, nowMs: int) {
    g.enabled && Inside(g.window, nowMs)
  }

  lemma StatusExactly(g: Gate, nowMs: int)
    ensures StatusRefusal(g, nowMs).None? <==> IsOpenNow(g, nowMs)
  {
  }

  /** The wallet is enrolled as `e`; case does not matter. */
  predicate IsEnrolledAs(s: State, address: string, e: Enrollment) {
    e in s.enrollments && Lower(e.address) == Lower(address)
  }

  lemma EnrolledExactly(s: State, address: string, e: Enrollment)
    requires EnrollmentsOk(s.enrollments)
    ensures FindEnrollment(s.enrollments, address) == Some(e) <==> IsEnrolledAs(s, address, e)
    ensures FindEnrollment(s.enrollments, address).Some? <==> exists f :: IsEnrolledAs(s, address, f)
  {
    hide Lower;
    FoundEnrollment(s.enrollments, address);
    if FindEnrollment(s.enrollments, address).Some? {
      var f := FindEnrollment(s.enrollments, address).value;
      assert IsEnrolledAs(s, address, f);
      if IsEnrolledAs(s, address, e) {
        SameEnrollment(s.enrollments, e, f);
      }
    }
  }

  lemma SameEnrollment(es: seq<Enrollment>, e: Enrollment, f: Enrollment)
    requires EnrollmentsOk(es) && e in es && f in es && Lower(e.address) == Lower(f.address)
    ensures e == f
  {
    hide Lower;
  }

  // ---- Check-in ----

  /**
   A check-in is accepted if and only if the campaign is open, ownership is proven, and the wallet is
   enrolled and has no check-in of today; it then adds one, and a row of five points.
   */
  lemma CheckinExactly(s: State, g: Gate, address: string)
    requires Inv(s)
    ensures var (s', refusal) := Checkin(s, g, address);
            var today := UtcDay(s.nowMs);
            && (refusal.None? <==>
                  && IsOpenNow(g, s.nowMs) && g.proven
                  && exists e :: IsEnrolledAs(s, address, e) && (e.address, today) !in s.checkins)
            && (refusal.Some? ==> s' == s)
            && (forall e :: refusal.None? && IsEnrolledAs(s, address, e) ==>
                  s' == s.(checkins := s.checkins + [(e.address, today)],
                           ledger := s.ledger +
                                     [Row(e.address, StreakDaily, 5, 100, 5, CheckinDay(today), Some(today))]))
  {
    hide FindEnrollment, UtcDay, Conflicts, Inside, StatusRefusal, IsEnrolledAs, Inv;
    CheckinBooks(s);
    StatusExactly(g, s.nowMs);
    CheckinNeverHitsTheIndex(s, g, address);
    forall e ensures FindEnrollment(s.enrollments, address) == Some(e) <==> IsEnrolledAs(s, address, e) {
      EnrolledExactly(s, address, e);
    }
  }

  lemma CheckinBooks(s: State)
    requires Inv(s)
    ensures EnrollmentsOk(s.enrollments) && CheckinsOk(s.enrollments, s.checkins, s.ledger)
    ensures SocialOk(s.claims, s.ledger) && UniqueKeysHold(s.ledger) && LinksPointBack(s.links, s.enrollments)
  {
  }
  // ---- Enrolment ----

  predicate CodeIsFree(s: State, code: string) {
    forall i :: 0 <= i < |s.enrollments| ==> s.enrollments[i].code != code
  }

  /** Another wallet owns this code. */
  predicate IsReferrer(s: State, address: string, code: string, r: Enrollment) {
    r in s.enrollments && r.code == code && Lower(r.address) != Lower(address)
  }

  lemma CodeExactly(s: State, code: string, r: Enrollment)
    requires EnrollmentsOk(s.enrollments)
    ensures FindEnrollmentByCode(s.enrollments, code).None? <==> CodeIsFree(s, code)
    ensures FindEnrollmentByCode(s.enrollments, code) == Some(r) <==> r in s.enrollments && r.code == code
  {
    hide Lower;
    FoundByCode(s.enrollments, code);
    if FindEnrollmentByCode(s.enrollments, code).Some? && r in s.enrollments && r.code == code {
      SameCode(s.enrollments, FindEnrollmentByCode(s.enrollments, code).value, r);
    }
  }

  lemma SameCode(es: seq<Enrollment>, e: Enrollment, f: Enrollment)
    requires EnrollmentsOk(es) && e in es && f in es && e.code == f.code
    ensures e == f
  {
    hide Lower;
  }

  /**
   An enrolment is accepted if and only if the campaign is open, ownership is proven, the wallet is new in
   any case, a given code is another wallet's, and one of the two drawn codes is free. It adds the wallet,
   with the first free code, and a link to the referrer that is not credited.
   */
  lemma EnrolmentExactly(s: State, g: Gate, address: string, codes: (string, string), referral: Option<string>)
    requires Inv(s)
    ensures var (s', refusal) := Enroll(s, g, address, codes, referral);
            && (refusal.None? <==>
                  && IsOpenNow(g, s.nowMs) && g.proven
                  && (forall e :: !IsEnrolledAs(s, address, e))
                  && (CodeIsFree(s, codes.0) || CodeIsFree(s, codes.1))
                  && (referral.Some? ==> exists r :: IsReferrer(s, address, referral.value, r)))
            && (refusal.Some? ==> s' == s)
            && (refusal.None? ==>
                  && s'.enrollments == s.enrollments +
                       [Enrollment(address, if CodeIsFree(s, codes.0) then codes.0 else codes.1)]
                  && (referral.None? ==> s'.links == s.links)
                  && forall r :: referral.Some? && IsReferrer(s, address, referral.value, r) ==>
                       s'.links == s.links + [Link(address, r.address, r.code, s.nowMs, None)])
            && s' == s.(enrollments := s'.enrollments, links := s'.links)
  {
    hide FindEnrollment, FindEnrollmentByCode, Inside, StatusRefusal, Inv, Lower, CodeIsFree, IsReferrer, IsEnrolledAs,
         EnrollmentsOk, CheckinsOk, SocialOk, UniqueKeysHold, LinksPointBack;
    CheckinBooks(s);
    StatusExactly(g, s.nowMs);
    var none := Enrollment("", "");
    EnrolledExactly(s, address, none);
    CodeExactly(s, codes.0, none);
    CodeExactly(s, codes.1, none);
    if referral.Some? { ReferrerExactly(s, address, referral.value); }
    if forall e :: !IsEnrolledAs(s, address, e) {
      NewWalletHasNoLink(s, address);
    }
  }

  lemma RefereeIsEnrolled(s: State, i: nat)
    requires LinksPointBack(s.links, s.enrollments) && i < |s.links|
    ensures exists e :: IsEnrolledAs(s, s.links[i].referee, e)
  {
    hide Lower;
    assert PointsBack(s.links[i], s.enrollments);
    var a, b :| 0 <= a < b < |s.enrollments| && s.enrollments[a].address == s.links[i].referrer
                && s.enrollments[b].address == s.links[i].referee;
    assert IsEnrolledAs(s, s.links[i].referee, s.enrollments[b]);
  }

  lemma NewWalletHasNoLink(s: State, address: string)
    requires LinksPointBack(s.links, s.enrollments) && forall e :: !IsEnrolledAs(s, address, e)
    ensures forall i :: 0 <= i < |s.links| ==> s.links[i].referee != address
  {
    hide LinksPointBack, IsEnrolledAs;
    forall i | 0 <= i < |s.links| ensures s.links[i].referee != address {
      RefereeIsEnrolled(s, i);
    }
  }

  lemma ReferrerExactly(s: State, address: string, code: string)
    requires EnrollmentsOk(s.enrollments)
    ensures var found := FindEnrollmentByCode(s.enrollments, code);
            && (found.Some? && Lower(found.value.address) != Lower(address) <==>
                exists r :: IsReferrer(s, address, code, r))
            && forall r :: IsReferrer(s, address, code, r) ==> found == Some(r)
  {
    hide Lower, EnrollmentsOk, FindEnrollmentByCode;
    var found := FindEnrollmentByCode(s.enrollments, code);
    forall r ensures found == Some(r) <==> r in s.enrollments && r.code == code {
      CodeExactly(s, code, r);
    }
    if found.Some? && Lower(found.value.address) != Lower(address) {
      assert found == Some(found.value);
      assert IsReferrer(s, address, code, found.value);
    }
  }

  // ---- Social claims ----

  /** 20 points to follow, 10 to repost, 20 to join. */
  function PointsOf(task: SocialTask): nat {
    match task
    case XFollow => 20
    case XRepost => 10
    case CommunityJoin => 20
  }

  /** The social points a wallet got on a day, deleted claims included. */
  function SocialPointsOn(ledger: seq<Row>, wallet: string, day: Civil): int {
    if ledger == [] then 0
    else
      var r := ledger[|ledger| - 1];
      SocialPointsOn(ledger[..|ledger| - 1], wallet, day) +
      if r.reason.Social? && Lower(r.address) == wallet && r.countedDay == Some(day) then r.points else 0
  }

  lemma {:induction false} GrossExactly(ledger: seq<Row>, wallet: string, day: Civil)
    ensures Sum(ledger, SocialGrossOn(wallet, day)) == SocialPointsOn(ledger, wallet, day)
  {
    hide Lower;
    if ledger != [] { GrossExactly(ledger[..|ledger| - 1], wallet, day); }
  }

  lemma {:induction false} ActiveExactly(claims: seq<Claim>, wallet: string, c: Claim)
    ensures c in ActiveClaimsOf(claims, wallet) <==> c in claims && !c.deleted && Lower(c.address) == wallet
  {
    hide Lower;
    if claims != [] { ActiveExactly(claims[1..], wallet, c); }
  }

  /** Nothing the wallet holds stands in the way: not this task, and no other handle. */
  ghost predicate FitsOwnClaims(claims: seq<Claim>, wallet: string, task: SocialTask, handle: string) {
    forall c :: c in claims && !c.deleted && Lower(c.address) == wallet ==> c.task != task && c.handle == handle
  }

  /** Nobody holds this handle for this task. */
  ghost predicate HandleIsFree(claims: seq<Claim>, task: SocialTask, handle: string) {
    forall c :: c in claims && !c.deleted && c.task == task ==> c.handle != handle
  }

  lemma OwnClaimsExactly(claims: seq<Claim>, wallet: string, task: SocialTask, handle: string)
    ensures FitsOwnClaims(claims, wallet, task, handle) <==>
            forall c :: c in ActiveClaimsOf(claims, wallet) ==> c.task != task && c.handle == handle
  {
    hide Lower, ActiveClaimsOf;
    forall c ensures c in ActiveClaimsOf(claims, wallet) <==> c in claims && !c.deleted && Lower(c.address) == wallet {
      ActiveExactly(claims, wallet, c);
    }
  }

  lemma RefusedByOwnClaims(own: seq<Claim>, task: SocialTask, handle: string)
    ensures (forall c :: c in own ==> c.task != task && c.handle == handle) <==>
            (!(exists i :: 0 <= i < |own| && own[i].task == task)
             && !(exists i :: 0 <= i < |own| && own[i].handle != handle))
  {
    if c :| c in own && !(c.task != task && c.handle == handle) {
      var i :| 0 <= i < |own| && own[i] == c;
      if own[i].task == task {
        assert exists j :: 0 <= j < |own| && own[j].task == task;
      } else {
        assert exists j :: 0 <= j < |own| && own[j].handle != handle;
      }
    }
  }

  lemma KeyIsFreeExactly(claims: seq<Claim>, c: Claim)
    requires FitsOwnClaims(claims, Lower(c.address), c.task, c.handle)
    ensures !ClaimKeyTaken(claims, c) <==> HandleIsFree(claims, c.task, c.handle)
  {
    hide Lower;
  }

  lemma ClaimRowIsNew(s: State, address: string, task: SocialTask)
    requires Inv(s)
    ensures !Conflicts(s.ledger, SocialRow(address, task, |s.claims|, UtcDay(s.nowMs)))
  {
    hide CheckinsOk, ReferralsOk, PerksOk, UniqueKeysHold, CreditsOk, EnrollmentsOk, Lower, LinksPointBack, Sum,
         ClaimsAreExclusive, ClaimsAreCredited, SocialConserved, SocialCapped, UtcDay;
  }

  /**
   A claim is accepted if and only if the campaign is open, ownership is proven, the task is known and
   open, the wallet is enrolled, its own claims and the handle fit, other wallets' handles were read as
   free, and the day's social points stay at 50 or below. It adds the claim and a row of its points.
   */
  lemma ClaimExactly(s: State, g: Gate, address: string, task: Option<SocialTask>, taskAvailable: bool,
                     handle: string, usedElsewhere: bool)
    requires Inv(s)
    ensures var (s', refusal) := ClaimTask(s, g, address, task, taskAvailable, handle, usedElsewhere);
            var w, today := Lower(address), UtcDay(s.nowMs);
            && (refusal.None? <==>
                  && IsOpenNow(g, s.nowMs) && g.proven && task.Some? && taskAvailable && !usedElsewhere
                  && (exists e :: IsEnrolledAs(s, address, e))
                  && FitsOwnClaims(s.claims, w, task.value, handle) && HandleIsFree(s.claims, task.value, handle)
                  && SocialPointsOn(s.ledger, w, today) + PointsOf(task.value) <= 50)
            && (refusal.Some? ==> s' == s)
            && (forall e :: refusal.None? && IsEnrolledAs(s, address, e) ==>
                  var p := PointsOf(task.value);
                  s' == s.(claims := s.claims + [Claim(e.address, task.value, handle, false)],
                           ledger := s.ledger + [Row(e.address, Social(task.value), p, 100, p,
                                                     SocialClaim(|s.claims|), Some(today))]))
  {
    hide FindEnrollment, UtcDay, Conflicts, Inside, StatusRefusal, Inv, ActiveClaimsOf, ClaimKeyTaken, Sum, Lower,
         FitsOwnClaims, HandleIsFree, SocialPointsOn, TaskClaimedBy, IsEnrolledAs, EnrollmentsOk, CheckinsOk, SocialOk,
         UniqueKeysHold, LinksPointBack;
    CheckinBooks(s);
    StatusExactly(g, s.nowMs);
    var found := FindEnrollment(s.enrollments, address);
    EnrolledExactly(s, address, Enrollment("", ""));
    forall e ensures found == Some(e) <==> IsEnrolledAs(s, address, e) {
      EnrolledExactly(s, address, e);
    }
    if found.Some? && task.Some? {
      var e := found.value;
      assert IsEnrolledAs(s, address, e);
      SameWallet(s, address, e);
      GrossExactly(s.ledger, Lower(address), UtcDay(s.nowMs));
      OwnClaimsExactly(s.claims, Lower(address), task.value, handle);
      RefusedByOwnClaims(ActiveClaimsOf(s.claims, Lower(address)), task.value, handle);
      ClaimRowIsNew(s, e.address, task.value);
      if FitsOwnClaims(s.claims, Lower(address), task.value, handle) {
        KeyIsFreeExactly(s.claims, Claim(e.address, task.value, handle, false));
      }
    }
  }

  lemma SameWallet(s: State, address: string, e: Enrollment)
    requires IsEnrolledAs(s, address, e)
    ensures Lower(e.address) == Lower(address)
  {
  }

  /**
   A delete is accepted if and only if ownership is proven and the claim is an active one of the enrolled
   wallet, whatever the window. It scrubs the handle and takes the points back.
   */
  lemma RemoveExactly(s: State, proven: bool, address: string, id: nat)
    requires Inv(s)
    ensures var (s', refusal) := RemoveClaim(s, proven, address, id);
            && (refusal.None? <==>
                  && proven && (exists e :: IsEnrolledAs(s, address, e))
                  && id < |s.claims| && !s.claims[id].deleted && Lower(s.claims[id].address) == Lower(address))
            && (refusal.Some? ==> s' == s)
            && (forall e :: refusal.None? && IsEnrolledAs(s, address, e) ==>
                  var p := PointsOf(s.claims[id].task);
                  && s'.claims == s.claims[id := Claim(s.claims[id].address, s.claims[id].task, "deleted", true)]
                  && |s'.ledger| == |s.ledger| + 1 && s'.ledger[..|s.ledger|] == s.ledger
                  && var r := s'.ledger[|s.ledger|];
                     && r.address == e.address && r.reason == SocialDelete && r.points + p == 0 && r.countedDay == None
                     && r.reference.Adjusts? && r.reference.ledgerId < |s.ledger|
                     && s.ledger[r.reference.ledgerId].reference == SocialClaim(id))
            && s' == s.(claims := s'.claims, ledger := s'.ledger)
  {
    hide FindEnrollment, Inv, FindSocialRow, Lower, ClaimsAreExclusive, SocialConserved, SocialCapped, Sum;
    CheckinBooks(s);
    forall e ensures FindEnrollment(s.enrollments, address) == Some(e) <==> IsEnrolledAs(s, address, e) {
      EnrolledExactly(s, address, e);
    }
    FoundSocialRow(s.ledger, id);
  }

  lemma {:induction false} FoundSocialRow(ledger: seq<Row>, id: nat)
    ensures var f := FindSocialRow(ledger, id);
            f.Some? && f.value < |ledger| ==> ledger[f.value].reference == SocialClaim(id)
  {
    if ledger != [] {
      var n := |ledger| - 1;
      FoundSocialRow(ledger[..n], id);
      FoundIsInside(ledger[..n], id);
    }
  }

  lemma {:induction false} FoundIsInside(ledger: seq<Row>, id: nat)
    ensures FindSocialRow(ledger, id).Some? ==> FindSocialRow(ledger, id).value < |ledger|
  {
    if ledger != [] { FoundIsInside(ledger[..|ledger| - 1], id); }
  }

  // ---- Nothing outside the window ----

  /** No enrolment, check-in or claim changes anything before the start, from the end on, or while disabled. */
  lemma NothingOutsideTheWindow(s: State, e: Event)
    requires e.EnrollEvent? || e.CheckinEvent? || e.ClaimEvent?
    requires !e.gate.enabled || !Inside(e.gate.window, s.nowMs)
    ensures Apply(s, e) == s
  {
    hide FindEnrollment, UtcDay, Conflicts, Inside, ActiveClaimsOf, FindEnrollmentByCode, Lower;
    StatusExactly(e.gate, s.nowMs);
  }
}

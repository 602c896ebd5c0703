/**
 What every history of the campaign keeps, from empty tables, under any sequence of enrolments,
 check-ins, claims, deletes and job writes.
 */
module CampaignHistory {
  import opened Wrappers
  import opened Calendar
  import opened CampaignRules
  import opened PointsLedger
  import opened Campaign
  import opened SocialClaims

  // ---- Enrolments and check-ins ----

  ghost predicate EnrollmentsOk(es: seq<Enrollment>) {
    forall i, j :: 0 <= i < j < |es| ==> Lower(es[i].address) != Lower(es[j].address) && es[i].code != es[j].code
  }

  ghost predicate Enrolled(es: seq<Enrollment>, address: string) {
    exists i :: 0 <= i < |es| && es[i].address == address
  }

  function CheckinCount(checkins: seq<(string, Civil)>, wallet: string): nat {
    if checkins == [] then 0
    else CheckinCount(checkins[..|checkins| - 1], wallet) + if Lower(checkins[|checkins| - 1].0) == wallet then 1 else 0
  }

  /** Check-in rows and 'streak:daily' rows mirror each other, and each check-in is worth its points. */
  ghost predicate CheckinsOk(es: seq<Enrollment>, checkins: seq<(string, Civil)>, ledger: seq<Row>) {
    && (forall i, j :: 0 <= i < j < |checkins| ==> checkins[i] != checkins[j])
    && (forall i :: 0 <= i < |checkins| ==> Enrolled(es, checkins[i].0))
    && (forall i :: 0 <= i < |checkins| ==> StreakRow(checkins[i].0, checkins[i].1) in ledger)
    && (forall i :: 0 <= i < |ledger| && ledger[i].reason == StreakDaily ==>
          ledger[i].reference.CheckinDay? && (ledger[i].address, ledger[i].reference.day) in checkins)
    && (forall wallet :: Sum(ledger, StreakRowsOf(wallet)) == STREAK_DAILY_POINTS * CheckinCount(checkins, wallet))
    && (forall wallet :: Count(ledger, StreakRowsOf(wallet)) == CheckinCount(checkins, wallet))
  }

  lemma OneAddressPerWallet(es: seq<Enrollment>, a: string, b: string)
    requires EnrollmentsOk(es) && Enrolled(es, a) && Enrolled(es, b) && Lower(a) == Lower(b)
    ensures a == b
  {
  }

  lemma CheckinsIgnore(es: seq<Enrollment>, checkins: seq<(string, Civil)>, ledger: seq<Row>, row: Row)
    requires CheckinsOk(es, checkins, ledger) && row.reason != StreakDaily
    ensures CheckinsOk(es, checkins, ledger + [row])
  {
    hide Sum, Count, Enrolled;
    forall sel: Selector { Appended(ledger, row, sel); }
  }

  lemma NewCheckinKeepsBooks(es: seq<Enrollment>, checkins: seq<(string, Civil)>, ledger: seq<Row>, address: string,
                             day: Civil)
    requires CheckinsOk(es, checkins, ledger) && Enrolled(es, address) && (address, day) !in checkins
    ensures CheckinsOk(es, checkins + [(address, day)], ledger + [StreakRow(address, day)])
  {
    hide Sum, Count, Enrolled;
    var row := StreakRow(address, day);
    assert (checkins + [(address, day)])[..|checkins|] == checkins;
    assert (ledger + [row])[|ledger|] == row;
    forall sel: Selector { Appended(ledger, row, sel); }
  }

  /** A day without a check-in of an enrolled address is free in the ledger too. */
  lemma FreeDayHasNoRow(es: seq<Enrollment>, checkins: seq<(string, Civil)>, ledger: seq<Row>, address: string,
                        day: Civil)
    requires EnrollmentsOk(es) && CheckinsOk(es, checkins, ledger)
    requires Enrolled(es, address) && (address, day) !in checkins
    ensures !Conflicts(ledger, StreakRow(address, day))
  {
    hide Sum, Count, CheckinCount, Lower, EnrollmentsOk, Enrolled;
    forall i | 0 <= i < |ledger| ensures !SameUniqueKey(ledger[i], StreakRow(address, day)) {
      if SameUniqueKey(ledger[i], StreakRow(address, day)) {
        assert (ledger[i].address, day) in checkins;
        OneAddressPerWallet(es, ledger[i].address, address);
      }
    }
  }

  /** Under the lock, the ledger's unique index is a backstop that a check-in never hits. */
  lemma CheckinNeverHitsTheIndex(s: State, g: Gate, address: string)
    requires EnrollmentsOk(s.enrollments) && CheckinsOk(s.enrollments, s.checkins, s.ledger)
    ensures Checkin(s, g, address).1 != Some(UniqueViolation)
  {
    hide EnrollmentsOk, CheckinsOk, Conflicts, StreakRow, FindEnrollment, Lower, UtcDay;
    var e := FindEnrollment(s.enrollments, address);
    if e.Some? {
      FoundEnrollment(s.enrollments, address);
      var entry := (e.value.address, Today(s));
      if entry !in s.checkins {
        FreeDayHasNoRow(s.enrollments, s.checkins, s.ledger, entry.0, entry.1);
      }
    }
  }

  // ---- Referrals ----

  function CreditedCount(links: seq<Link>): nat {
    if links == [] then 0
    else CreditedCount(links[..|links| - 1]) + if links[|links| - 1].creditedTx.Some? then 1 else 0
  }

  ghost predicate IsReferral(r: Row) {
    r.reason == ReferralReferrer || r.reason == ReferralReferee
  }

  ghost predicate CreditedLink(links: seq<Link>, referee: string) {
    exists k :: 0 <= k < |links| && links[k].referee == referee && links[k].creditedTx.Some?
  }

  ghost predicate HasReferralRow(ledger: seq<Row>, reason: Reason, referee: string) {
    exists i :: 0 <= i < |ledger| && ledger[i].reason == reason && ledger[i].reference == Referee(referee)
  }

  /** Referral rows exist exactly for credited links, and are worth 150 points a link. */
  ghost predicate ReferralsOk(links: seq<Link>, ledger: seq<Row>) {
    && (forall i, j :: 0 <= i < j < |links| ==> links[i].referee != links[j].referee)
    && (forall i :: 0 <= i < |ledger| && IsReferral(ledger[i]) ==>
          ledger[i].reference.Referee? && CreditedLink(links, ledger[i].reference.address))
    && (forall k :: 0 <= k < |links| && links[k].creditedTx.Some? ==>
          && HasReferralRow(ledger, ReferralReferrer, links[k].referee)
          && HasReferralRow(ledger, ReferralReferee, links[k].referee))
    && Sum(ledger, ReferralRows) == (REFERRER_POINTS + REFEREE_POINTS) * CreditedCount(links)
  }

  /** Every link points from a referee to a strictly earlier enrolment. */
  ghost predicate LinksPointBack(links: seq<Link>, es: seq<Enrollment>) {
    forall k :: 0 <= k < |links| ==> PointsBack(links[k], es)
  }

  ghost predicate PointsBack(l: Link, es: seq<Enrollment>) {
    exists i, j :: 0 <= i < j < |es| && es[i].address == l.referrer && es[j].address == l.referee
  }

  lemma RowsSurvive(links: seq<Link>, ledger: seq<Row>, row: Row)
    ensures forall reason, a :: HasReferralRow(ledger, reason, a) ==> HasReferralRow(ledger + [row], reason, a)
  {
    forall reason, a | HasReferralRow(ledger, reason, a) ensures HasReferralRow(ledger + [row], reason, a) {
      var i :| 0 <= i < |ledger| && ledger[i].reason == reason && ledger[i].reference == Referee(a);
      assert (ledger + [row])[i] == ledger[i];
    }
  }

  lemma ReferralsIgnore(links: seq<Link>, ledger: seq<Row>, row: Row)
    requires ReferralsOk(links, ledger) && !IsReferral(row)
    ensures ReferralsOk(links, ledger + [row])
  {
    hide Sum, Count, CreditedLink, CreditedCount, HasReferralRow;
    RowsSurvive(links, ledger, row);
    Appended(ledger, row, ReferralRows);
    assert !Selects(ReferralRows, row);
    var more := ledger + [row];
    forall i | 0 <= i < |more| && IsReferral(more[i])
      ensures more[i].reference.Referee? && CreditedLink(links, more[i].reference.address)
    {
      assert i < |ledger| && more[i] == ledger[i];
    }
  }

  lemma NewLinkKeepsBooks(links: seq<Link>, ledger: seq<Row>, l: Link)
    requires ReferralsOk(links, ledger) && l.creditedTx.None?
    requires forall k :: 0 <= k < |links| ==> links[k].referee != l.referee
    ensures ReferralsOk(links + [l], ledger)
  {
    hide Sum, HasReferralRow;
    assert (links + [l])[..|links|] == links;
    forall a | CreditedLink(links, a) ensures CreditedLink(links + [l], a) {
      var k :| 0 <= k < |links| && links[k].referee == a && links[k].creditedTx.Some?;
      assert (links + [l])[k] == links[k];
    }
  }

  lemma {:induction false} MarkingCounts(links: seq<Link>, i: nat, txHash: string)
    requires i < |links| && links[i].creditedTx.None?
    ensures CreditedCount(links[i := links[i].(creditedTx := Some(txHash))]) == CreditedCount(links) + 1
  {
    var after := links[i := links[i].(creditedTx := Some(txHash))];
    var n := |links| - 1;
    if i == n {
      assert after[..n] == links[..n];
    } else {
      assert after[..n] == links[..n][i := links[i].(creditedTx := Some(txHash))];
      MarkingCounts(links[..n], i, txHash);
    }
  }

  lemma RefereeConflicts(ledger: seq<Row>, row: Row)
    requires row.reference.Referee?
    ensures Conflicts(ledger, row) <==> HasReferralRow(ledger, row.reason, row.reference.address)
  {
    var referee := row.reference.address;
    if i :| 0 <= i < |ledger| && ledger[i].reason == row.reason && ledger[i].reference == Referee(referee) {
      assert SameUniqueKey(ledger[i], row);
    }
  }

  /**
   creditReferral from any tables, even half-credited ones: afterwards both rows exist, the link is
   marked, and doing it again changes nothing.
   */
  lemma CreditConverges(s: State, i: nat, txHash: string, day: Civil, tx2: string, day2: Civil)
    requires i < |s.links|
    ensures var s' := CreditLink(s, i, txHash, day);
            var referee := s.links[i].referee;
            && HasReferralRow(s'.ledger, ReferralReferrer, referee)
            && HasReferralRow(s'.ledger, ReferralReferee, referee)
            && s'.links[i].creditedTx.Some?
            && CreditLink(s', i, tx2, day2) == s'
  {
    hide HasReferralRow;
    var l := s.links[i];
    var r1 := ReferralRow(l.referrer, ReferralReferrer, REFERRER_POINTS, l.referee, day);
    var r2 := ReferralRow(l.referee, ReferralReferee, REFEREE_POINTS, l.referee, day);
    var l1 := InsertIdempotent(s.ledger, r1);
    var l2 := InsertIdempotent(l1, r2);
    AfterInsert(s.ledger, r1);
    AfterInsert(l1, r2);
    RowsSurvive(s.links, l1, r2);
    RefereeConflicts(l2, ReferralRow(l.referrer, ReferralReferrer, REFERRER_POINTS, l.referee, day2));
    RefereeConflicts(l2, ReferralRow(l.referee, ReferralReferee, REFEREE_POINTS, l.referee, day2));
  }

  lemma AfterInsert(ledger: seq<Row>, row: Row)
    requires row.reference.Referee?
    ensures HasReferralRow(InsertIdempotent(ledger, row), row.reason, row.reference.address)
  {
    RefereeConflicts(ledger, row);
    var l := InsertIdempotent(ledger, row);
    if l != ledger {
      assert l[|ledger|] == row;
    }
  }

  lemma UncreditedHasNoRow(links: seq<Link>, ledger: seq<Row>, i: nat, row: Row)
    requires ReferralsOk(links, ledger) && i < |links| && links[i].creditedTx.None?
    requires IsReferral(row) && row.reference == Referee(links[i].referee)
    ensures !Conflicts(ledger, row)
  {
    hide Sum;
    assert !CreditedLink(links, links[i].referee);
    forall j | 0 <= j < |ledger| ensures !SameUniqueKey(ledger[j], row) {
      assert IsReferral(ledger[j]) ==> CreditedLink(links, ledger[j].reference.address);
    }
  }

  lemma FirstCreditAppendsBoth(s: State, i: nat, txHash: string, day: Civil)
    requires ReferralsOk(s.links, s.ledger) && i < |s.links| && s.links[i].creditedTx.None?
    ensures var l := s.links[i];
            CreditLink(s, i, txHash, day).ledger == s.ledger
              + [ReferralRow(l.referrer, ReferralReferrer, REFERRER_POINTS, l.referee, day)]
              + [ReferralRow(l.referee, ReferralReferee, REFEREE_POINTS, l.referee, day)]
  {
    hide ReferralsOk, HasReferralRow, Sum;
    var l := s.links[i];
    var r1 := ReferralRow(l.referrer, ReferralReferrer, REFERRER_POINTS, l.referee, day);
    var r2 := ReferralRow(l.referee, ReferralReferee, REFEREE_POINTS, l.referee, day);
    UncreditedHasNoRow(s.links, s.ledger, i, r1);
    UncreditedHasNoRow(s.links, s.ledger, i, r2);
    assert !SameUniqueKey(r1, r2);
  }

  lemma CreditKeepsBooks(s: State, i: nat, txHash: string, day: Civil)
    requires ReferralsOk(s.links, s.ledger) && i < |s.links|
    ensures var s' := CreditLink(s, i, txHash, day); ReferralsOk(s'.links, s'.ledger)
    ensures s.links[i].creditedTx.Some? ==> CreditLink(s, i, txHash, day) == s
  {
    var l := s.links[i];
    var r1 := ReferralRow(l.referrer, ReferralReferrer, REFERRER_POINTS, l.referee, day);
    var r2 := ReferralRow(l.referee, ReferralReferee, REFEREE_POINTS, l.referee, day);
    if l.creditedTx.Some? {
      RefereeConflicts(s.ledger, r1);
      RefereeConflicts(s.ledger, r2);
    } else {
      hide HasReferralRow, Sum, Conflicts, CreditedLink, CreditedCount;
      FirstCreditAppendsBoth(s, i, txHash, day);
      CreditConverges(s, i, txHash, day, txHash, day);
      RowsSurvive(s.links, s.ledger, r1);
      RowsSurvive(s.links, s.ledger + [r1], r2);
      Appended(s.ledger, r1, ReferralRows);
      Appended(s.ledger + [r1], r2, ReferralRows);
      MarkingCounts(s.links, i, txHash);
      MarkingCredits(s.links, i, txHash);
    }
  }

  lemma MarkingCredits(links: seq<Link>, i: nat, txHash: string)
    requires i < |links|
    ensures var after := links[i := links[i].(creditedTx := Some(txHash))];
            CreditedLink(after, links[i].referee) && forall a :: CreditedLink(links, a) ==> CreditedLink(after, a)
  {
    var after := links[i := links[i].(creditedTx := Some(txHash))];
    assert after[i].creditedTx.Some?;
    forall a | CreditedLink(links, a) ensures CreditedLink(after, a) {
      var k :| 0 <= k < |links| && links[k].referee == a && links[k].creditedTx.Some?;
      assert after[k].referee == a && after[k].creditedTx.Some?;
    }
  }

  /** A path of referrals: each wallet was referred by the next. */
  ghost predicate IsReferralPath(path: seq<string>, links: seq<Link>) {
    forall p, q :: 0 <= p && q == p + 1 && q < |path| ==> ReferredBy(links, path[p], path[q])
  }

  ghost predicate ReferredBy(links: seq<Link>, referee: string, referrer: string) {
    exists k :: 0 <= k < |links| && links[k].referee == referee && links[k].referrer == referrer
  }

  ghost predicate RankedAt(es: seq<Enrollment>, address: string, i: nat) {
    i < |es| && es[i].address == address
  }

  lemma LinkStepsBack(links: seq<Link>, es: seq<Enrollment>, referee: string, referrer: string, at: nat)
    returns (earlier: nat)
    requires EnrollmentsOk(es) && LinksPointBack(links, es)
    requires ReferredBy(links, referee, referrer) && RankedAt(es, referee, at)
    ensures RankedAt(es, referrer, earlier) && earlier < at
  {
    var k :| 0 <= k < |links| && links[k].referee == referee && links[k].referrer == referrer;
    assert PointsBack(links[k], es);
    var i, j :| 0 <= i < j < |es| && es[i].address == referrer && es[j].address == referee;
    earlier := i;
  }

  lemma {:induction false} PathsGoBack(path: seq<string>, links: seq<Link>, es: seq<Enrollment>, first: nat)
    returns (last: nat)
    requires EnrollmentsOk(es) && LinksPointBack(links, es) && IsReferralPath(path, links)
    requires |path| > 0 && RankedAt(es, path[0], first)
    ensures RankedAt(es, path[|path| - 1], last)
    ensures if |path| > 1 then last < first else last == first
    decreases |path|
  {
    if |path| == 1 {
      last := first;
    } else {
      hide EnrollmentsOk, LinksPointBack, RankedAt, ReferredBy;
      assert ReferredBy(links, path[0], path[1]);
      var next := LinkStepsBack(links, es, path[0], path[1], first);
      var tail := path[1..];
      forall p, q | 0 <= p && q == p + 1 && q < |tail| ensures ReferredBy(links, tail[p], tail[q]) {
        assert tail[p] == path[p + 1] && tail[q] == path[q + 1];
      }
      last := PathsGoBack(tail, links, es, next);
    }
  }

  /** Referrals form a forest: following them never returns to the start. */
  lemma ReferralsNeverCycle(path: seq<string>, links: seq<Link>, es: seq<Enrollment>)
    requires EnrollmentsOk(es) && LinksPointBack(links, es) && IsReferralPath(path, links) && |path| > 1
    ensures path[0] != path[|path| - 1]
  {
    assert ReferredBy(links, path[0], path[1]);
    var k :| 0 <= k < |links| && links[k].referee == path[0] && links[k].referrer == path[1];
    assert PointsBack(links[k], es);
    var i, j :| 0 <= i < j < |es| && es[i].address == links[k].referrer && es[j].address == links[k].referee;
    var last := PathsGoBack(path, links, es, j);
  }

  // ---- Perks ----

  ghost function PerksOf(perks: seq<(string, Perk)>, address: string): set<Perk> {
    set p: Perk | (address, p) in perks
  }

  /** The keys of the first `n` tiers. */
  ghost function FirstTiers(n: nat): set<Perk>
    requires n <= 3
  {
    if n == 0 then {}
    else if n == 1 then {EarlyAccess}
    else if n == 2 then {EarlyAccess, BetaFeatures}
    else {EarlyAccess, BetaFeatures, PriorityRwa}
  }

  ghost predicate IsPrefix(granted: set<Perk>) {
    exists n: nat :: n <= 3 && granted == FirstTiers(n)
  }

  ghost predicate PerksOk(perks: seq<(string, Perk)>) {
    && (forall i, j :: 0 <= i < j < |perks| ==> perks[i] != perks[j])
    && (forall a :: IsPrefix(PerksOf(perks, a)))
  }

  lemma PerksForIsPrefix(balance: int)
    ensures var n := |PerksFor(balance)|;
            && n == (if balance >= 1500 then 3 else if balance >= 500 then 2 else if balance >= 100 then 1 else 0)
            && PerksFor(balance) == [EarlyAccess, BetaFeatures, PriorityRwa][..n]
  {
    var t := PERK_TIERS;
    assert t[1..] == [t[1], t[2]] && t[1..][1..] == [t[2]] && t[1..][1..][1..] == [];
    assert TiersReached(t[1..][1..], balance) == if balance >= 1500 then [PriorityRwa] else [];
    assert TiersReached(t[1..], balance) ==
           (if balance >= 500 then [BetaFeatures] else []) + TiersReached(t[1..][1..], balance);
  }

  lemma PrefixKeys(n: nat)
    requires n <= 3
    ensures (set p | p in [EarlyAccess, BetaFeatures, PriorityRwa][..n]) == FirstTiers(n)
  {
    var keys := [EarlyAccess, BetaFeatures, PriorityRwa][..n];
    assert keys == if n == 0 then [] else if n == 1 then [EarlyAccess] else if n == 2 then [EarlyAccess, BetaFeatures]
                   else [EarlyAccess, BetaFeatures, PriorityRwa];
  }

  lemma {:induction false} InsertedPerks(perks: seq<(string, Perk)>, address: string, keys: seq<Perk>, other: string)
    ensures var after := InsertPerks(perks, address, keys);
            && PerksOf(after, other) == PerksOf(perks, other) + (if other == address then (set p | p in keys) else {})
            && ((forall i, j :: 0 <= i < j < |perks| ==> perks[i] != perks[j]) ==>
                  forall i, j :: 0 <= i < j < |after| ==> after[i] != after[j])
    decreases |keys|
  {
    if keys != [] {
      InsertedPerks(InsertPerk(perks, address, keys[0]), address, keys[1..], other);
      assert keys == [keys[0]] + keys[1..];
    }
  }

  lemma UnionOfPrefixes(a: set<Perk>, n: nat)
    requires IsPrefix(a) && n <= 3
    ensures IsPrefix(a + FirstTiers(n))
  {
    var m: nat :| m <= 3 && a == FirstTiers(m);
    if m <= n {
      assert a + FirstTiers(n) == FirstTiers(n);
    } else {
      assert a + FirstTiers(n) == FirstTiers(m);
    }
  }

  /** The keys a grant writes are the first `n` tiers; all that the balance reaches, unless it is cut short. */
  lemma GrantedTiers(balance: int, written: nat) returns (n: nat)
    ensures n <= |PerksFor(balance)| <= 3
    ensures n == if written <= |PerksFor(balance)| then written else |PerksFor(balance)|
    ensures (set p | p in PerksFor(balance)[..n]) == FirstTiers(n)
  {
    var all := PerksFor(balance);
    PerksForIsPrefix(balance);
    n := if written <= |all| then written else |all|;
    var tiers := [EarlyAccess, BetaFeatures, PriorityRwa];
    assert all[..n] == tiers[..n];
    PrefixKeys(n);
  }

  lemma GrantAddsTiers(s: State, e: Enrollment, written: nat, n: nat)
    requires n <= |PerksFor(Balance(s, e.address))| <= 3
    requires n == if written <= |PerksFor(Balance(s, e.address))| then written else |PerksFor(Balance(s, e.address))|
    requires (set p | p in PerksFor(Balance(s, e.address))[..n]) == FirstTiers(n)
    ensures var after := GrantPerks(s, e, written).perks;
            && (forall a :: PerksOf(after, a) == PerksOf(s.perks, a) + (if a == e.address then FirstTiers(n) else {}))
            && ((forall i, j :: 0 <= i < j < |s.perks| ==> s.perks[i] != s.perks[j]) ==>
                  forall i, j :: 0 <= i < j < |after| ==> after[i] != after[j])
  {
    hide PerksFor, Balance, FirstTiers, InsertPerks, PerksOf;
    var keys := PerksFor(Balance(s, e.address));
    assert keys[..|keys|] == keys;
    forall a ensures PerksOf(GrantPerks(s, e, written).perks, a)
                  == PerksOf(s.perks, a) + (if a == e.address then FirstTiers(n) else {}) {
      InsertedPerks(s.perks, e.address, keys[..n], a);
    }
    InsertedPerks(s.perks, e.address, keys[..n], e.address);
  }

  lemma GrantKeepsPrefix(s: State, e: Enrollment, written: nat)
    requires PerksOk(s.perks)
    ensures PerksOk(GrantPerks(s, e, written).perks)
    ensures forall a :: PerksOf(s.perks, a) <= PerksOf(GrantPerks(s, e, written).perks, a)
    ensures written >= 3 ==>
              forall p :: p in PerksFor(Balance(s, e.address)) ==>
                p in PerksOf(GrantPerks(s, e, written).perks, e.address)
  {
    hide IsPrefix, GrantPerks, FirstTiers, PerksFor, Balance, PerksOf;
    var n := GrantedTiers(Balance(s, e.address), written);
    GrantAddsTiers(s, e, written, n);
    var after := GrantPerks(s, e, written).perks;
    UnionOfPrefixes(PerksOf(s.perks, e.address), n);
    forall a ensures IsPrefix(PerksOf(after, a)) {
      if a != e.address {
        assert PerksOf(after, a) == PerksOf(s.perks, a);
      }
    }
    var keys := PerksFor(Balance(s, e.address));
    assert keys[..|keys|] == keys;
  }

  datatype NextPerk = NextPerk(key: Perk, threshold: nat, pointsRemaining: nat)

  function FirstMissing(tiers: seq<PerkTier>, balance: int, granted: seq<Perk>): Option<NextPerk> {
    if tiers == [] then None
    else if tiers[0].key !in granted then
      var missing := tiers[0].threshold - balance;
      Some(NextPerk(tiers[0].key, tiers[0].threshold, if missing > 0 then missing else 0))
    else FirstMissing(tiers[1..], balance, granted)
  }

  function NextPerkFor(balance: int, granted: seq<Perk>): Option<NextPerk> {
    FirstMissing(PERK_TIERS, balance, granted)
  }

  /** nextPerkFor names exactly the tier after the granted prefix, and nothing once all are granted. */
  lemma NextPerkFollowsPrefix(balance: int, granted: seq<Perk>, n: nat)
    requires n <= 3 && (set p | p in granted) == FirstTiers(n)
    ensures n == 3 <==> NextPerkFor(balance, granted).None?
    ensures n < 3 ==> var next := NextPerkFor(balance, granted).value;
                      && next.key == PERK_TIERS[n].key && next.threshold == PERK_TIERS[n].threshold
                      && (next.pointsRemaining == 0 <==> balance >= PERK_TIERS[n].threshold)
                      && (next.pointsRemaining > 0 ==> balance + next.pointsRemaining == PERK_TIERS[n].threshold)
                      && FirstTiers(n + 1) == FirstTiers(n) + {next.key}
  {
    forall p: Perk ensures p in granted <==> p in FirstTiers(n) {
      assert p in granted <==> p in (set q | q in granted);
    }
    var t := PERK_TIERS;
    assert t[1..] == [t[1], t[2]] && t[1..][1..] == [t[2]] && t[1..][1..][1..] == [];
    if n >= 1 { assert FirstMissing(t, balance, granted) == FirstMissing(t[1..], balance, granted); }
    if n >= 2 { assert FirstMissing(t[1..], balance, granted) == FirstMissing(t[1..][1..], balance, granted); }
    if n >= 3 { assert FirstMissing(t[1..][1..], balance, granted).None?; }
  }

  // ---- Balances ----

  ghost predicate CreditsOk(ledger: seq<Row>) {
    forall i :: 0 <= i < |ledger| && ledger[i].reason != SocialDelete ==> ledger[i].points >= 0
  }

  lemma {:induction false} BalanceCoversSocial(ledger: seq<Row>, wallet: string)
    requires CreditsOk(ledger)
    ensures Sum(ledger, AllOf(wallet)) >= Sum(ledger, SocialNetOf(wallet))
  {
    if ledger != [] {
      BalanceCoversSocial(ledger[..|ledger| - 1], wallet);
    }
  }

  // ---- The invariant ----

  ghost predicate Inv(s: State) {
    && EnrollmentsOk(s.enrollments)
    && LinksPointBack(s.links, s.enrollments)
    && UniqueKeysHold(s.ledger)
    && CheckinsOk(s.enrollments, s.checkins, s.ledger)
    && SocialOk(s.claims, s.ledger)
    && ReferralsOk(s.links, s.ledger)
    && PerksOk(s.perks)
    && CreditsOk(s.ledger)
  }

  lemma RowKeepsLedger(s: State, row: Row)
    requires UniqueKeysHold(s.ledger) && CreditsOk(s.ledger)
    requires !Conflicts(s.ledger, row) && (row.points >= 0 || row.reason == SocialDelete)
    ensures UniqueKeysHold(s.ledger + [row]) && CreditsOk(s.ledger + [row])
  {
  }

  lemma EnrollKeepsInv(s: State, g: Gate, address: string, codes: (string, string), referral: Option<string>)
    requires Inv(s)
    ensures Inv(Enroll(s, g, address, codes, referral).0)
  {
    hide SocialOk, PerksOk, UniqueKeysHold, CreditsOk, ReferralsOk, CheckinsOk, EnrollRefusal, FindEnrollment,
         FindEnrollmentByCode;
    var (s', refusal) := Enroll(s, g, address, codes, referral);
    if refusal.None? {
      AcceptedEnrollment(s, g, address, codes, referral);
      NewEnrollmentKeepsBooks(s, s'.enrollments[|s.enrollments|]);
      if referral.Some? {
        var l := s'.links[|s.links|];
        NewLinkKeepsBooks(s.links, s.ledger, l);
      }
    }
  }

  /** An accepted enrolment is a new wallet with a free code, and its referrer is already enrolled. */
  lemma AcceptedEnrollment(s: State, g: Gate, address: string, codes: (string, string), referral: Option<string>)
    requires EnrollmentsOk(s.enrollments) && LinksPointBack(s.links, s.enrollments)
    requires Enroll(s, g, address, codes, referral).1.None?
    ensures var s' := Enroll(s, g, address, codes, referral).0;
            && EnrollmentsOk(s'.enrollments)
            && LinksPointBack(s'.links, s'.enrollments)
  {
    hide FindEnrollment, FindEnrollmentByCode, Lower, StatusRefusal;
    var s' := Enroll(s, g, address, codes, referral).0;
    FoundEnrollment(s.enrollments, address);
    FoundByCode(s.enrollments, codes.0);
    FoundByCode(s.enrollments, codes.1);
    var e := s'.enrollments[|s.enrollments|];
    OlderLinksPointBack(s.links, s.enrollments, e);
    if referral.Some? {
      FoundByCode(s.enrollments, referral.value);
      var r := FindEnrollmentByCode(s.enrollments, referral.value).value;
      var i :| 0 <= i < |s.enrollments| && s.enrollments[i] == r;
      assert s'.enrollments[i] == r;
      assert PointsBack(s'.links[|s.links|], s'.enrollments);
    }
  }

  lemma OlderLinksPointBack(links: seq<Link>, es: seq<Enrollment>, e: Enrollment)
    requires LinksPointBack(links, es)
    ensures LinksPointBack(links, es + [e])
  {
    forall k | 0 <= k < |links| ensures PointsBack(links[k], es + [e]) {
      assert PointsBack(links[k], es);
      var i, j :| 0 <= i < j < |es| && es[i].address == links[k].referrer && es[j].address == links[k].referee;
      assert (es + [e])[i] == es[i] && (es + [e])[j] == es[j];
    }
  }

  lemma NewEnrollmentKeepsBooks(s: State, e: Enrollment)
    requires CheckinsOk(s.enrollments, s.checkins, s.ledger)
    ensures CheckinsOk(s.enrollments + [e], s.checkins, s.ledger)
  {
    hide Sum, Count;
    forall a | Enrolled(s.enrollments, a) ensures Enrolled(s.enrollments + [e], a) {
      var i :| 0 <= i < |s.enrollments| && s.enrollments[i].address == a;
      assert (s.enrollments + [e])[i] == s.enrollments[i];
    }
  }

  lemma CheckinKeepsInv(s: State, g: Gate, address: string)
    requires Inv(s)
    ensures Inv(Checkin(s, g, address).0)
  {
    hide SocialOk, PerksOk, UniqueKeysHold, CreditsOk, ReferralsOk, CheckinsOk, EnrollmentsOk, FindEnrollment,
         Conflicts;
    var (s', refusal) := Checkin(s, g, address);
    if refusal.None? {
      FoundEnrollment(s.enrollments, address);
      var e := FindEnrollment(s.enrollments, address).value;
      var row := StreakRow(e.address, Today(s));
      assert Enrolled(s.enrollments, e.address);
      NewCheckinKeepsBooks(s.enrollments, s.checkins, s.ledger, e.address, Today(s));
      OtherRowsAreIgnored(s.claims, s.ledger, row);
      ReferralsIgnore(s.links, s.ledger, row);
      RowKeepsLedger(s, row);
    }
  }

  lemma ClaimKeepsInv(s: State, g: Gate, address: string, task: Option<SocialTask>, taskAvailable: bool,
                      handle: string, usedElsewhere: bool)
    requires Inv(s)
    ensures Inv(ClaimTask(s, g, address, task, taskAvailable, handle, usedElsewhere).0)
  {
    hide SocialOk, PerksOk, UniqueKeysHold, CreditsOk, ReferralsOk, CheckinsOk, EnrollmentsOk, FindEnrollment,
         Conflicts, ClaimRefusal, ClaimKeyTaken, LinksPointBack;
    var (s', refusal) := ClaimTask(s, g, address, task, taskAvailable, handle, usedElsewhere);
    ClaimTaskKeepsBooks(s, g, address, task, taskAvailable, handle, usedElsewhere);
    if refusal.None? {
      var row := s'.ledger[|s.ledger|];
      CheckinsIgnore(s.enrollments, s.checkins, s.ledger, row);
      ReferralsIgnore(s.links, s.ledger, row);
      RowKeepsLedger(s, row);
    }
  }

  lemma RemoveKeepsInv(s: State, proven: bool, address: string, id: nat)
    requires Inv(s)
    ensures Inv(RemoveClaim(s, proven, address, id).0)
  {
    hide SocialOk, PerksOk, UniqueKeysHold, CreditsOk, ReferralsOk, CheckinsOk, EnrollmentsOk, FindEnrollment,
         LinksPointBack, FindSocialRow;
    var (s', refusal) := RemoveClaim(s, proven, address, id);
    RemoveClaimKeepsBooks(s, proven, address, id);
    if s'.ledger != s.ledger {
      var row := s'.ledger[|s.ledger|];
      assert s'.ledger == s.ledger + [row];
      CheckinsIgnore(s.enrollments, s.checkins, s.ledger, row);
      ReferralsIgnore(s.links, s.ledger, row);
      RowKeepsLedger(s, row);
    }
  }

  /** A job row that is neither social nor a check-in keeps every book but the referrals'. */
  lemma JobRowKeepsInv(s: State, row: Row)
    requires Inv(s) && row.points >= 0 && !row.reason.Social? && row.reason != SocialDelete && row.reason != StreakDaily
    ensures var l := InsertIdempotent(s.ledger, row);
            UniqueKeysHold(l) && CheckinsOk(s.enrollments, s.checkins, l) && SocialOk(s.claims, l) && CreditsOk(l)
    ensures !IsReferral(row) ==> ReferralsOk(s.links, InsertIdempotent(s.ledger, row))
  {
    hide SocialOk, PerksOk, UniqueKeysHold, CreditsOk, ReferralsOk, CheckinsOk, EnrollmentsOk, Conflicts,
         LinksPointBack;
    if !Conflicts(s.ledger, row) {
      CheckinsIgnore(s.enrollments, s.checkins, s.ledger, row);
      OtherRowsAreIgnored(s.claims, s.ledger, row);
      RowKeepsLedger(s, row);
      if !IsReferral(row) { ReferralsIgnore(s.links, s.ledger, row); }
    }
  }

  lemma CreditKeepsInv(s: State, i: nat, txHash: string, day: Civil)
    requires Inv(s) && i < |s.links|
    ensures Inv(CreditLink(s, i, txHash, day))
  {
    CreditKeepsBooks(s, i, txHash, day);
    if s.links[i].creditedTx.None? {
      hide SocialOk, PerksOk, UniqueKeysHold, CreditsOk, ReferralsOk, CheckinsOk, EnrollmentsOk, LinksPointBack,
           Conflicts, InsertIdempotent;
      CreditKeepsLedger(s, i, txHash, day);
      CreditKeepsLinks(s.links, s.enrollments, i, txHash);
    }
  }

  lemma CreditKeepsLinks(links: seq<Link>, es: seq<Enrollment>, i: nat, txHash: string)
    requires LinksPointBack(links, es) && i < |links|
    ensures LinksPointBack(links[i := links[i].(creditedTx := Some(txHash))], es)
  {
    var marked := links[i := links[i].(creditedTx := Some(txHash))];
    forall k | 0 <= k < |marked| ensures PointsBack(marked[k], es) {
      assert PointsBack(links[k], es);
    }
  }

  lemma CreditKeepsLedger(s: State, i: nat, txHash: string, day: Civil)
    requires Inv(s) && i < |s.links| && s.links[i].creditedTx.None?
    ensures var l := CreditLink(s, i, txHash, day).ledger;
            UniqueKeysHold(l) && CheckinsOk(s.enrollments, s.checkins, l) && SocialOk(s.claims, l) && CreditsOk(l)
  {
    hide SocialOk, PerksOk, UniqueKeysHold, CreditsOk, ReferralsOk, CheckinsOk, EnrollmentsOk, LinksPointBack,
         Conflicts, CreditLink;
    var l := s.links[i];
    var r1 := ReferralRow(l.referrer, ReferralReferrer, REFERRER_POINTS, l.referee, day);
    var r2 := ReferralRow(l.referee, ReferralReferee, REFEREE_POINTS, l.referee, day);
    FirstCreditAppendsBoth(s, i, txHash, day);
    UncreditedHasNoRow(s.links, s.ledger, i, r1);
    UncreditedHasNoRow(s.links, s.ledger, i, r2);
    OtherReason(s.ledger, r1, r2);
    RowKeepsLedger(s, r1);
    RowKeepsLedger(s.(ledger := s.ledger + [r1]), r2);
    CheckinsIgnore(s.enrollments, s.checkins, s.ledger, r1);
    CheckinsIgnore(s.enrollments, s.checkins, s.ledger + [r1], r2);
    OtherRowsAreIgnored(s.claims, s.ledger, r1);
    OtherRowsAreIgnored(s.claims, s.ledger + [r1], r2);
  }

  lemma OtherReason(ledger: seq<Row>, a: Row, b: Row)
    requires !Conflicts(ledger, b) && a.reason != b.reason
    ensures !Conflicts(ledger + [a], b)
  {
  }

  /** Every transaction keeps every book. */
  lemma ApplyKeepsInv(s: State, e: Event)
    requires Inv(s)
    ensures Inv(Apply(s, e))
  {
    hide SocialOk, UniqueKeysHold, CreditsOk, ReferralsOk, CheckinsOk, EnrollmentsOk, LinksPointBack, PerksOk,
         GrantPerks, CreditLink, RemoveClaim, ClaimTask, Checkin, Enroll, InsertIdempotent;
    match e {
      case Tick(ms) =>
      case EnrollEvent(g, a, codes, r) => EnrollKeepsInv(s, g, a, codes, r);
      case CheckinEvent(g, a) => CheckinKeepsInv(s, g, a);
      case ClaimEvent(g, a, t, avail, h, used) => ClaimKeepsInv(s, g, a, t, avail, h, used);
      case RemoveEvent(proven, a, id) => RemoveKeepsInv(s, proven, a, id);
      case AwardEvent(_, _, _, _, _, _, _) => JobRowKeepsInv(s, ActionRow(e));
      case CreditEvent(i, tx, day) => if i < |s.links| { CreditKeepsInv(s, i, tx, day); }
      case PerkEvent(i, written) => if i < |s.enrollments| { GrantKeepsInv(s, s.enrollments[i], written); }
    }
  }

  lemma GrantKeepsInv(s: State, e: Enrollment, written: nat)
    requires Inv(s)
    ensures Inv(GrantPerks(s, e, written))
  {
    GrantKeepsPrefix(s, e, written);
  }

  lemma {:induction false} HistoryKeepsInv(s: State, events: seq<Event>)
    requires Inv(s)
    ensures Inv(History(s, events))
    decreases |events|
  {
    hide Inv;
    if events != [] {
      ApplyKeepsInv(s, events[0]);
      HistoryKeepsInv(Apply(s, events[0]), events[1..]);
    }
  }

  lemma EmptyInv()
    ensures Inv(EMPTY)
  {
    NoClaims();
    assert PerksOf([], "") == {};
    forall a ensures IsPrefix(PerksOf([], a)) {
      assert PerksOf([], a) == FirstTiers(0);
    }
  }

  // ---- What a reader of the tables may rely on, after any history ----

  lemma AnyHistory(events: seq<Event>)
    ensures Inv(History(EMPTY, events))
  {
    EmptyInv();
    HistoryKeepsInv(EMPTY, events);
  }

  /** A wallet's streak points are five times its check-in days, one 'streak:daily' row each. */
  lemma CheckinsMatchStreakRows(events: seq<Event>, wallet: string)
    ensures var s := History(EMPTY, events);
            && Sum(s.ledger, StreakRowsOf(wallet)) == STREAK_DAILY_POINTS * CheckinCount(s.checkins, wallet)
            && Count(s.ledger, StreakRowsOf(wallet)) == CheckinCount(s.checkins, wallet)
    ensures var s := History(EMPTY, events);
            forall i, j :: 0 <= i < j < |s.checkins| && Lower(s.checkins[i].0) == Lower(s.checkins[j].0) ==>
              s.checkins[i].1 != s.checkins[j].1
  {
    AnyHistory(events);
    var s := History(EMPTY, events);
    forall i, j | 0 <= i < j < |s.checkins| && Lower(s.checkins[i].0) == Lower(s.checkins[j].0)
      ensures s.checkins[i].1 != s.checkins[j].1
    {
      OneAddressPerWallet(s.enrollments, s.checkins[i].0, s.checkins[j].0);
    }
  }

  /** Social conservation, the gross daily cap, and exclusive claims. */
  lemma SocialPointsAreConserved(events: seq<Event>, wallet: string, day: Civil)
    ensures var s := History(EMPTY, events);
            && Sum(s.ledger, SocialNetOf(wallet)) == ActivePoints(s.claims, wallet)
            && Sum(s.ledger, SocialGrossOn(wallet, day)) <= SOCIAL_DAILY_CAP
            && ClaimsAreExclusive(s.claims)
  {
    AnyHistory(events);
  }

  /** Each referee has at most one row of each side, present exactly when its link is credited. */
  lemma ReferralsAreCreditedOnce(events: seq<Event>, k: nat)
    requires k < |History(EMPTY, events).links|
    ensures var s := History(EMPTY, events);
            var l := s.links[k];
            && (l.creditedTx.Some? <==> HasReferralRow(s.ledger, ReferralReferrer, l.referee))
            && (l.creditedTx.Some? <==> HasReferralRow(s.ledger, ReferralReferee, l.referee))
            && (forall i, j ::
                  0 <= i < j < |s.ledger| && IsReferral(s.ledger[i]) && s.ledger[i].reason == s.ledger[j].reason ==>
                    s.ledger[i].reference != s.ledger[j].reference)
            && Sum(s.ledger, ReferralRows) == (REFERRER_POINTS + REFEREE_POINTS) * CreditedCount(s.links)
  {
    AnyHistory(events);
    hide *;
    var s := History(EMPTY, events);
    ReferralBooks(s);
    LinkAndItsRows(s.links, s.ledger, k);
    ReferralRowsAreDistinct(s.links, s.ledger);
  }

  lemma ReferralBooks(s: State)
    requires Inv(s)
    ensures ReferralsOk(s.links, s.ledger) && UniqueKeysHold(s.ledger)
  {
    hide SocialOk, UniqueKeysHold, CreditsOk, ReferralsOk, CheckinsOk, EnrollmentsOk, LinksPointBack, PerksOk;
  }

  lemma LinkAndItsRows(links: seq<Link>, ledger: seq<Row>, k: nat)
    requires ReferralsOk(links, ledger) && k < |links|
    ensures links[k].creditedTx.Some? <==> HasReferralRow(ledger, ReferralReferrer, links[k].referee)
    ensures links[k].creditedTx.Some? <==> HasReferralRow(ledger, ReferralReferee, links[k].referee)
    ensures Sum(ledger, ReferralRows) == (REFERRER_POINTS + REFEREE_POINTS) * CreditedCount(links)
  {
    hide Sum, CreditedCount;
    forall reason |
      (reason == ReferralReferrer || reason == ReferralReferee) && HasReferralRow(ledger, reason, links[k].referee)
      ensures links[k].creditedTx.Some?
    {
      var i :| 0 <= i < |ledger| && ledger[i].reason == reason && ledger[i].reference == Referee(links[k].referee);
      assert IsReferral(ledger[i]);
      var m :| 0 <= m < |links| && links[m].referee == links[k].referee && links[m].creditedTx.Some?;
      assert m == k;
    }
  }

  lemma ReferralRowsAreDistinct(links: seq<Link>, ledger: seq<Row>)
    requires ReferralsOk(links, ledger) && UniqueKeysHold(ledger)
    ensures forall i, j ::
              0 <= i < j < |ledger| && IsReferral(ledger[i]) && ledger[i].reason == ledger[j].reason ==>
                ledger[i].reference != ledger[j].reference
  {
    hide Sum, CreditedCount, CreditedLink, HasReferralRow, Lower;
    forall i, j | 0 <= i < j < |ledger| && IsReferral(ledger[i]) && ledger[i].reason == ledger[j].reason
      ensures ledger[i].reference != ledger[j].reference
    {
      assert !SameUniqueKey(ledger[i], ledger[j]);
    }
  }

  lemma ReferralsFormAForest(events: seq<Event>, path: seq<string>)
    requires IsReferralPath(path, History(EMPTY, events).links) && |path| > 1
    ensures path[0] != path[|path| - 1]
  {
    AnyHistory(events);
    var s := History(EMPTY, events);
    ReferralsNeverCycle(path, s.links, s.enrollments);
  }

  lemma StepKeepsPerks(s: State, e: Event, address: string)
    requires Inv(s)
    ensures PerksOf(s.perks, address) <= PerksOf(Apply(s, e).perks, address)
  {
    hide SocialOk, UniqueKeysHold, CreditsOk, ReferralsOk, CheckinsOk, EnrollmentsOk, LinksPointBack, PerksOk,
         GrantPerks, InsertIdempotent, EnrollRefusal, ClaimRefusal, FindEnrollment, FindEnrollmentByCode, Sum,
         Conflicts, FindSocialRow, ClaimKeyTaken;
    if e.PerkEvent? && e.wallet < |s.enrollments| {
      GrantKeepsPrefix(s, s.enrollments[e.wallet], e.written);
    } else {
      assert Apply(s, e).perks == s.perks;
    }
  }

  lemma {:induction false} PerksGrow(s: State, events: seq<Event>, address: string)
    requires Inv(s)
    ensures PerksOf(s.perks, address) <= PerksOf(History(s, events).perks, address)
    decreases |events|
  {
    hide Inv, Apply;
    if events != [] {
      var e := events[0];
      ApplyKeepsInv(s, e);
      StepKeepsPerks(s, e, address);
      PerksGrow(Apply(s, e), events[1..], address);
    }
  }

  /** Perks never shrink and always form a prefix of the tiers, whatever the balance did. */
  lemma PerksOnlyGrow(events: seq<Event>, more: seq<Event>, address: string)
    ensures var s := History(EMPTY, events);
            IsPrefix(PerksOf(s.perks, address)) && PerksOf(s.perks, address) <= PerksOf(History(s, more).perks, address)
  {
    AnyHistory(events);
    PerksGrow(History(EMPTY, events), more, address);
  }

  /** No balance is ever negative: deletes only take back what the claim brought. */
  lemma BalancesAreNeverNegative(events: seq<Event>, address: string)
    ensures Balance(History(EMPTY, events), address) >= 0
  {
    AnyHistory(events);
    BalanceCoversSocial(History(EMPTY, events).ledger, Lower(address));
  }

  /** No witness is ever awarded twice, whatever runs overlap. */
  lemma WitnessesAreAwardedOnce(events: seq<Event>, i: nat, j: nat)
    requires i < j < |History(EMPTY, events).ledger|
    ensures var l := History(EMPTY, events).ledger;
            l[i].reason.Action? && l[i].reason == l[j].reason && l[i].reference.WitnessTx? ==>
              l[i].reference != l[j].reference
  {
    AnyHistory(events);
  }
}

/**
 The campaign's tables as the service and the award job update them, in place. Each request method
 is one transaction, proved to do exactly the atomic step of `Campaign`; the job is a sequence of
 such steps.
 */
module CampaignDb {
  import opened Wrappers
  import opened Calendar
  import opened CampaignRules
  import opened PointsLedger
  import opened Campaign
  import opened CampaignHistory
  import opened AwardPlanner
  import opened AwardSchedule
  import opened AwardTerms

  /** A stored witness of an on-chain action; the table's order is (closed at, hash). */
  datatype Witness = Witness(txHash: string, wallet: string, kind: ActionKind, meetsMinNotional: bool, closedAtMs: int)

  datatype Summary = Summary(dark: bool, candidates: nat, awardedActions: nat, skipped: SkipCounts,
                             referralsCredited: nat, referralsPending: nat, perksGranted: nat)

  /** The witnesses of enrolled wallets, under their enrolled address. */
  function Joined(ws: seq<Witness>, es: seq<Enrollment>): seq<Candidate> {
    if ws == [] then []
    else
      var e := FindEnrollment(es, ws[0].wallet);
      (if e.None? then []
       else [Candidate(ws[0].txHash, e.value.address, ws[0].kind, ws[0].meetsMinNotional, ws[0].closedAtMs)])
      + Joined(ws[1..], es)
  }

  lemma {:induction false} JoinedComeFrom(ws: seq<Witness>, es: seq<Enrollment>, i: nat)
    requires i < |Joined(ws, es)|
    ensures exists j :: 0 <= j < |ws| && ws[j].txHash == Joined(ws, es)[i].txHash
  {
    var e := FindEnrollment(es, ws[0].wallet);
    if e.None? {
      JoinedComeFrom(ws[1..], es, i);
      var j :| 0 <= j < |ws[1..]| && ws[1..][j].txHash == Joined(ws[1..], es)[i].txHash;
      assert ws[j + 1].txHash == Joined(ws, es)[i].txHash;
    } else if i > 0 {
      JoinedComeFrom(ws[1..], es, i - 1);
      var j :| 0 <= j < |ws[1..]| && ws[1..][j].txHash == Joined(ws[1..], es)[i - 1].txHash;
      assert ws[j + 1].txHash == Joined(ws, es)[i].txHash;
    }
  }

  lemma {:induction false} JoinedKeepsDistinctTx(ws: seq<Witness>, es: seq<Enrollment>)
    requires forall i, j :: 0 <= i < j < |ws| ==> ws[i].txHash != ws[j].txHash
    ensures DistinctTx(Joined(ws, es))
  {
    if ws != [] {
      var rest := Joined(ws[1..], es);
      JoinedKeepsDistinctTx(ws[1..], es);
      forall j | 0 <= j < |rest| ensures rest[j].txHash != ws[0].txHash {
        JoinedComeFrom(ws[1..], es, j);
      }
    }
  }

  /** findRefereeFirstQualifyingWitness */
  function FirstQualifying(ws: seq<Witness>, referee: string, linkedAtMs: int): Option<Witness> {
    if ws == [] then None
    else if Lower(ws[0].wallet) == Lower(referee) && ws[0].kind != BlendWithdraw && ws[0].meetsMinNotional
            && ws[0].closedAtMs >= linkedAtMs then Some(ws[0])
    else FirstQualifying(ws[1..], referee, linkedAtMs)
  }

  predicate LinkEarns(ws: seq<Witness>, l: Link, window: Window) {
    var w := FirstQualifying(ws, l.referee, l.linkedAtMs);
    EarnsReferral(l.linkedAtMs, if w.Some? then Some(w.value.closedAtMs) else None, window)
  }

  function AwardEventOf(a: PlannedAward): Event {
    AwardEvent(a.address, a.kind, a.basePoints, a.multiplier, a.points, a.txHash, a.countedDay)
  }

  /** The perks a run grants one address: every tier its balance reaches, if one of the first `n` wallets is it. */
  ghost function Reached(s: State, n: nat, address: string): set<Perk>
    requires n <= |s.enrollments|
  {
    if exists i :: 0 <= i < n && s.enrollments[i].address == address then
      set p | p in PerksFor(Balance(s, address))
    else {}
  }

  /** The first `n` wallets have been given exactly the tiers their balances reach, and no one anything else. */
  ghost predicate PerksGranted(before: seq<(string, Perk)>, s: State, n: nat)
    requires n <= |s.enrollments|
  {
    && PerksOk(s.perks)
    && forall a :: PerksOf(s.perks, a) == PerksOf(before, a) + Reached(s, n, a)
  }

  /** What a run makes of a link: credited with its first qualifying witness, when it has earned that. */
  function LinkAfterRun(l: Link, ws: seq<Witness>, window: Window): Link {
    if l.creditedTx.None? && LinkEarns(ws, l, window) then
      l.(creditedTx := Some(FirstQualifying(ws, l.referee, l.linkedAtMs).value.txHash))
    else l
  }

  /** The first `n` links are as a run leaves them, the others as it found them. */
  ghost predicate CreditedWhenEarned(before: seq<Link>, after: seq<Link>, n: nat, witnesses: seq<Witness>,
                                     window: Window) {
    && |before| == |after|
    && (forall k :: 0 <= k < n && k < |after| ==> after[k] == LinkAfterRun(before[k], witnesses, window))
    && (forall k :: n <= k < |after| ==> after[k] == before[k])
  }

  /** The tables after the referrals step has seen the first `n` links. */
  function AfterReferrals(s: State, n: nat, ws: seq<Witness>, window: Window): (t: State)
    requires n <= |s.links|
    ensures |t.links| == |s.links| && forall k :: n <= k < |s.links| ==> t.links[k] == s.links[k]
  {
    if n == 0 then s
    else
      var t, l := AfterReferrals(s, n - 1, ws, window), s.links[n - 1];
      var w := FirstQualifying(ws, l.referee, l.linkedAtMs);
      if l.creditedTx.None? && LinkEarns(ws, l, window) && w.Some? then
        CreditLink(t, n - 1, w.value.txHash, UtcDay(w.value.closedAtMs))
      else t
  }

  /** The rows it writes: two for each link it credits, referrer first, in the links' order. */
  function CreditRows(links: seq<Link>, ws: seq<Witness>, window: Window): seq<Row> {
    if links == [] then []
    else
      var l := links[|links| - 1];
      var w := FirstQualifying(ws, l.referee, l.linkedAtMs);
      CreditRows(links[..|links| - 1], ws, window) +
      if l.creditedTx.None? && LinkEarns(ws, l, window) && w.Some? then
        [ReferralRow(l.referrer, ReferralReferrer, REFERRER_POINTS, l.referee, UtcDay(w.value.closedAtMs)),
         ReferralRow(l.referee, ReferralReferee, REFEREE_POINTS, l.referee, UtcDay(w.value.closedAtMs))]
      else []
  }

  /** On tables in order the step appends exactly those rows. */
  lemma {:induction false} ReferralsAppendExactly(s: State, n: nat, ws: seq<Witness>, window: Window)
    requires ReferralsOk(s.links, s.ledger) && n <= |s.links|
    ensures var t := AfterReferrals(s, n, ws, window);
            ReferralsOk(t.links, t.ledger) && t.ledger == s.ledger + CreditRows(s.links[..n], ws, window)
    decreases n
  {
    hide ReferralsOk, CreditLink, LinkEarns, FirstQualifying, UtcDay, ReferralRow;
    if n == 0 {
      assert s.ledger + [] == s.ledger;
    } else {
      ReferralsAppendExactly(s, n - 1, ws, window);
      var t, l := AfterReferrals(s, n - 1, ws, window), s.links[n - 1];
      assert s.links[..n][..n - 1] == s.links[..n - 1];
      var w := FirstQualifying(ws, l.referee, l.linkedAtMs);
      if l.creditedTx.None? && LinkEarns(ws, l, window) && w.Some? {
        var day := UtcDay(w.value.closedAtMs);
        FirstCreditAppendsBoth(t, n - 1, w.value.txHash, day);
        CreditKeepsBooks(t, n - 1, w.value.txHash, day);
        TwoRows(s.ledger, CreditRows(s.links[..n - 1], ws, window),
                ReferralRow(l.referrer, ReferralReferrer, REFERRER_POINTS, l.referee, day),
                ReferralRow(l.referee, ReferralReferee, REFEREE_POINTS, l.referee, day));
      }
    }
  }

  lemma TwoRows(ledger: seq<Row>, rows: seq<Row>, a: Row, b: Row)
    ensures ledger + rows + [a] + [b] == ledger + (rows + [a, b])
  {
  }

  /** The referrals step after `i` links: the tables, which links are credited, and how many. */
  ghost predicate ReferralProgress(before: State, now: State, i: nat, credited: nat, pending: nat, ws: seq<Witness>,
                                   window: Window) {
    && i <= |now.links| == |before.links|
    && now == AfterReferrals(before, i, ws, window)
    && CreditedWhenEarned(before.links, now.links, i, ws, window)
    && credited == CreditedCount(now.links) - CreditedCount(before.links)
    && pending + CreditedCount(now.links[..i]) == i
  }

  lemma OneMoreLink(links: seq<Link>, i: nat)
    requires i < |links|
    ensures CreditedCount(links[..i + 1]) == CreditedCount(links[..i]) + if links[i].creditedTx.Some? then 1 else 0
  {
    assert links[..i + 1][..i] == links[..i];
  }

  lemma NoProgressYet(s: State, ws: seq<Witness>, window: Window)
    ensures ReferralProgress(s, s, 0, 0, 0, ws, window)
  {
  }

  lemma LeavesLink(before: State, now: State, i: nat, credited: nat, pending: nat, ws: seq<Witness>, window: Window)
    requires ReferralProgress(before, now, i, credited, pending, ws, window) && i < |now.links|
    requires now.links[i].creditedTx.Some? || !LinkEarns(ws, now.links[i], window)
    ensures var left := if now.links[i].creditedTx.Some? then pending else pending + 1;
            ReferralProgress(before, now, i + 1, credited, left, ws, window)
  {
    hide LinkEarns;
    OneMoreLink(now.links, i);
  }

  lemma CreditsLink(before: State, now: State, i: nat, credited: nat, pending: nat, ws: seq<Witness>, window: Window)
    requires ReferralProgress(before, now, i, credited, pending, ws, window) && i < |now.links|
    requires now.links[i].creditedTx.None? && LinkEarns(ws, now.links[i], window)
    ensures FirstQualifying(ws, now.links[i].referee, now.links[i].linkedAtMs).Some?
    ensures var w := FirstQualifying(ws, now.links[i].referee, now.links[i].linkedAtMs).value;
            var next := CreditLink(now, i, w.txHash, UtcDay(w.closedAtMs));
            ReferralProgress(before, next, i + 1, credited + 1, pending, ws, window)
  {
    EarningLinkHasWitness(ws, now.links[i], window);
    var w := FirstQualifying(ws, now.links[i].referee, now.links[i].linkedAtMs).value;
    var day := UtcDay(w.closedAtMs);
    hide LinkEarns, Conflicts, FirstQualifying, UtcDay, InsertIdempotent;
    var next := CreditLink(now, i, w.txHash, day);
    assert next.links == now.links[i := now.links[i].(creditedTx := Some(w.txHash))];
    assert next.links[..i] == now.links[..i];
    hide CreditLink;
    MarkingCounts(now.links, i, w.txHash);
    OneMoreLink(next.links, i);
  }

  lemma CreditIsAnEvent(s: State, events: seq<Event>, i: nat, txHash: string, day: Civil)
    requires i < |History(s, events).links|
    ensures History(s, events + [CreditEvent(i, txHash, day)]) == CreditLink(History(s, events), i, txHash, day)
  {
    hide History, CreditLink;
    HistoryStep(s, events, CreditEvent(i, txHash, day));
  }

  lemma PerkIsAnEvent(s: State, events: seq<Event>, i: nat)
    requires i < |History(s, events).enrollments|
    ensures History(s, events + [PerkEvent(i, 3)]) ==
            GrantPerks(History(s, events), History(s, events).enrollments[i], 3)
  {
    hide History, GrantPerks;
    HistoryStep(s, events, PerkEvent(i, 3));
  }

  lemma CreditKeepsLinkCount(s: State, i: nat, txHash: string, day: Civil)
    requires i < |s.links|
    ensures |CreditLink(s, i, txHash, day).links| == |s.links|
  {
  }

  lemma ProgressDone(before: State, now: State, credited: nat, pending: nat, ws: seq<Witness>, window: Window)
    requires ReferralProgress(before, now, |now.links|, credited, pending, ws, window)
    ensures CreditedWhenEarned(before.links, now.links, |now.links|, ws, window)
    ensures credited == CreditedCount(now.links) - CreditedCount(before.links)
    ensures pending == |now.links| - CreditedCount(now.links)
    ensures now == AfterReferrals(before, |before.links|, ws, window)
  {
    assert now.links[..|now.links|] == now.links;
  }

  lemma EarningLinkHasWitness(ws: seq<Witness>, l: Link, window: Window)
    requires LinkEarns(ws, l, window)
    ensures FirstQualifying(ws, l.referee, l.linkedAtMs).Some?
  {
  }

  // ---- What a run pays, in terms of the witnesses ----

  /** It can earn the referral: the referee's own, a swap or deposit above the minimum, not before the link. */
  predicate Qualifies(w: Witness, l: Link) {
    && Lower(w.wallet) == Lower(l.referee)
    && (w.kind == SdexSwap || w.kind == BlendDeposit) && w.meetsMinNotional
    && l.linkedAtMs <= w.closedAtMs
  }

  /** The earliest of them, in the table's order. */
  ghost predicate IsEarliest(ws: seq<Witness>, l: Link, i: int) {
    0 <= i < |ws| && Qualifies(ws[i], l) && forall j :: 0 <= j < |ws| && Qualifies(ws[j], l) ==> i <= j
  }

  ghost predicate EarnsBy(ws: seq<Witness>, l: Link, window: Window, i: int) {
    IsEarliest(ws, l, i) && Inside(window, ws[i].closedAtMs)
  }

  lemma {:induction false} FoundEarliest(ws: seq<Witness>, l: Link)
    ensures var found := FirstQualifying(ws, l.referee, l.linkedAtMs);
            && (forall i :: IsEarliest(ws, l, i) ==> found == Some(ws[i]))
            && (found.Some? ==> exists i :: IsEarliest(ws, l, i))
  {
    if ws != [] {
      FirstOrLater(ws, l);
      if Qualifies(ws[0], l) {
        assert IsEarliest(ws, l, 0);
      } else {
        FoundEarliest(ws[1..], l);
        hide Qualifies, FirstQualifying, IsEarliest;
        forall i ensures IsEarliest(ws, l, i) <==> IsEarliest(ws[1..], l, i - 1) {
          LaterEarliest(ws, l, i);
        }
        if i :| IsEarliest(ws[1..], l, i) {
          assert IsEarliest(ws, l, i + 1) <==> IsEarliest(ws[1..], l, i + 1 - 1);
        }
        forall i | IsEarliest(ws, l, i) ensures 0 < i < |ws| && ws[1..][i - 1] == ws[i] {
          EarliestIsIn(ws[1..], l, i - 1);
        }
      }
    }
  }

  lemma EarliestIsIn(ws: seq<Witness>, l: Link, i: int)
    requires IsEarliest(ws, l, i)
    ensures 0 <= i < |ws|
  {
  }

  lemma FirstOrLater(ws: seq<Witness>, l: Link)
    requires ws != []
    ensures FirstQualifying(ws, l.referee, l.linkedAtMs) ==
            if Qualifies(ws[0], l) then Some(ws[0]) else FirstQualifying(ws[1..], l.referee, l.linkedAtMs)
  {
    hide Lower;
  }

  lemma LaterEarliest(ws: seq<Witness>, l: Link, i: int)
    requires ws != [] && !Qualifies(ws[0], l)
    ensures IsEarliest(ws, l, i) <==> IsEarliest(ws[1..], l, i - 1)
  {
    hide Qualifies;
    if IsEarliest(ws[1..], l, i - 1) {
      forall j | 0 <= j < |ws| && Qualifies(ws[j], l) ensures i <= j {
        assert j > 0 && ws[1..][j - 1] == ws[j];
      }
    }
    if IsEarliest(ws, l, i) {
      forall j | 0 <= j < |ws[1..]| && Qualifies(ws[1..][j], l) ensures i - 1 <= j {
        assert ws[j + 1] == ws[1..][j];
      }
    }
  }

  /** In the order the table is read, no other of them closed before. */
  lemma EarliestClosesFirst(ws: seq<Witness>, l: Link, i: int, j: int)
    requires IsEarliest(ws, l, i) && 0 <= j < |ws| && Qualifies(ws[j], l)
    requires forall m, n :: 0 <= m < n < |ws| ==> ws[m].closedAtMs <= ws[n].closedAtMs
    ensures ws[i].closedAtMs <= ws[j].closedAtMs
  {
  }

  lemma EarnsExactly(ws: seq<Witness>, l: Link, window: Window)
    ensures LinkEarns(ws, l, window) <==> exists i :: EarnsBy(ws, l, window, i)
    ensures forall i :: EarnsBy(ws, l, window, i) ==>
              0 <= i < |ws| && FirstQualifying(ws, l.referee, l.linkedAtMs) == Some(ws[i])
  {
    hide FirstQualifying, WithinWindow, Inside;
    FoundEarliest(ws, l);
    forall i | IsEarliest(ws, l, i)
      ensures WithinWindow(window, ws[i].closedAtMs) <==> Inside(window, ws[i].closedAtMs)
    {
      WindowsAgree(window, ws[i].closedAtMs);
    }
    if LinkEarns(ws, l, window) {
      var i :| IsEarliest(ws, l, i);
      assert EarnsBy(ws, l, window, i);
    }
  }

  /** Credited if and only if the earliest qualifying witness closed in the window, and then with its hash. */
  ghost predicate LinkPaidExactly(before: Link, after: Link, ws: seq<Witness>, window: Window) {
    if before.creditedTx.Some? then after == before
    else
      && (after.creditedTx.Some? <==> exists i :: EarnsBy(ws, before, window, i))
      && (after.creditedTx.None? ==> after == before)
      && forall i :: EarnsBy(ws, before, window, i) ==>
           0 <= i < |ws| && after == before.(creditedTx := Some(ws[i].txHash))
  }

  ghost predicate LinksPaidExactly(before: seq<Link>, after: seq<Link>, ws: seq<Witness>, window: Window) {
    |after| == |before| && forall k :: 0 <= k < |before| ==> LinkPaidExactly(before[k], after[k], ws, window)
  }

  lemma LinkIsPaid(l: Link, ws: seq<Witness>, window: Window)
    ensures LinkPaidExactly(l, LinkAfterRun(l, ws, window), ws, window)
  {
    hide LinkEarns, FirstQualifying, EarnsBy;
    EarnsExactly(ws, l, window);
  }

  lemma CreditedIsPaid(before: seq<Link>, after: seq<Link>, ws: seq<Witness>, window: Window)
    requires CreditedWhenEarned(before, after, |after|, ws, window)
    ensures LinksPaidExactly(before, after, ws, window)
  {
    hide LinkAfterRun, LinkPaidExactly;
    forall k | 0 <= k < |before| ensures LinkPaidExactly(before[k], after[k], ws, window) {
      LinkIsPaid(before[k], ws, window);
    }
  }

  /** 100 points to the referrer and 50 to the referee, on the day of the witness. */
  predicate IsReferralPay(r: Row, l: Link, w: Witness) {
    || r == Row(l.referrer, ReferralReferrer, 100, 100, 100, Referee(l.referee), Some(UtcDay(w.closedAtMs)))
    || r == Row(l.referee, ReferralReferee, 50, 100, 50, Referee(l.referee), Some(UtcDay(w.closedAtMs)))
  }

  /** `r` is one of the two rows of a link that the run credits. */
  ghost predicate PaysLink(r: Row, l: Link, ws: seq<Witness>, window: Window) {
    l.creditedTx.None? &&
    exists i :: EarnsBy(ws, l, window, i) && 0 <= i < |ws| && IsReferralPay(r, l, ws[i])
  }

  ghost predicate PaysSomeLink(r: Row, links: seq<Link>, ws: seq<Witness>, window: Window) {
    exists k :: 0 <= k < |links| && PaysLink(r, links[k], ws, window)
  }

  /** The rows of one link. */
  function PayOf(l: Link, ws: seq<Witness>, window: Window): seq<Row> {
    var w := FirstQualifying(ws, l.referee, l.linkedAtMs);
    if l.creditedTx.None? && LinkEarns(ws, l, window) && w.Some? then
      [ReferralRow(l.referrer, ReferralReferrer, REFERRER_POINTS, l.referee, UtcDay(w.value.closedAtMs)),
       ReferralRow(l.referee, ReferralReferee, REFEREE_POINTS, l.referee, UtcDay(w.value.closedAtMs))]
    else []
  }

  lemma PayExactly(l: Link, ws: seq<Witness>, window: Window, r: Row)
    ensures r in PayOf(l, ws, window) <==> PaysLink(r, l, ws, window)
  {
    hide LinkEarns, FirstQualifying, EarnsBy, UtcDay;
    EarnsExactly(ws, l, window);
  }

  lemma OneMoreLinkPays(links: seq<Link>, ws: seq<Witness>, window: Window, r: Row)
    requires links != []
    ensures var n := |links| - 1;
            r in CreditRows(links, ws, window) <==>
            r in CreditRows(links[..n], ws, window) || r in PayOf(links[n], ws, window)
  {
    hide LinkEarns, FirstQualifying, UtcDay, ReferralRow;
  }

  /** The referral rows of a run: two for each link that earns, and no others. */
  lemma {:induction false} CreditRowsExactly(links: seq<Link>, ws: seq<Witness>, window: Window, r: Row)
    ensures r in CreditRows(links, ws, window) <==> PaysSomeLink(r, links, ws, window)
  {
    hide *;
    if links == [] {
      NoLinksNoPay(ws, window, r);
    } else {
      var n := |links| - 1;
      CreditRowsExactly(links[..n], ws, window, r);
      OneMoreLinkPays(links, ws, window, r);
      PayExactly(links[n], ws, window, r);
      OneMoreLinkToPay(links, ws, window, r);
    }
  }

  lemma NoLinksNoPay(ws: seq<Witness>, window: Window, r: Row)
    ensures CreditRows([], ws, window) == [] && !PaysSomeLink(r, [], ws, window)
  {
  }

  lemma OneMoreLinkToPay(links: seq<Link>, ws: seq<Witness>, window: Window, r: Row)
    requires links != []
    ensures var n := |links| - 1;
            PaysSomeLink(r, links, ws, window) <==>
            PaysSomeLink(r, links[..n], ws, window) || PaysLink(r, links[n], ws, window)
  {
    hide PaysLink;
    var n := |links| - 1;
    if k :| 0 <= k < n && PaysLink(r, links[..n][k], ws, window) {
      assert PaysLink(r, links[k], ws, window);
    }
    if k :| 0 <= k < n && PaysLink(r, links[k], ws, window) {
      assert PaysLink(r, links[..n][k], ws, window);
    }
  }

  lemma {:induction false} JoinedExactly(ws: seq<Witness>, es: seq<Enrollment>, c: Candidate)
    ensures c in Joined(ws, es) ==> exists w, e :: w in ws && e in es && IsJoin(c, w, e)
    ensures EnrollmentsOk(es) ==> forall w, e :: w in ws && e in es && IsJoin(c, w, e) ==> c in Joined(ws, es)
  {
    hide FindEnrollment, Lower, EnrollmentsOk, IsJoin;
    if ws != [] {
      JoinedExactly(ws[1..], es, c);
      OneJoin(ws, es, c);
      if e :| e in es && IsJoin(c, ws[0], e) {
        assert ws[0] in ws;
      }
      if EnrollmentsOk(es) {
        forall w, e | w in ws && e in es && IsJoin(c, w, e) ensures c in Joined(ws, es) {
          assert w == ws[0] || w in ws[1..];
        }
      }
    }
  }

  lemma OneJoin(ws: seq<Witness>, es: seq<Enrollment>, c: Candidate)
    requires ws != []
    ensures c in Joined(ws, es) ==> c in Joined(ws[1..], es) || exists e :: e in es && IsJoin(c, ws[0], e)
    ensures c in Joined(ws[1..], es) ==> c in Joined(ws, es)
    ensures EnrollmentsOk(es) && (exists e :: e in es && IsJoin(c, ws[0], e)) ==> c in Joined(ws, es)
  {
    hide FindEnrollment, Lower;
    FoundEnrollment(es, ws[0].wallet);
    var found := FindEnrollment(es, ws[0].wallet);
    if found.Some? {
      assert IsJoin(Candidate(ws[0].txHash, found.value.address, ws[0].kind, ws[0].meetsMinNotional, ws[0].closedAtMs),
                    ws[0], found.value);
    }
  }

  /** The witness of an enrolled wallet, under its enrolled address. */
  predicate IsJoin(c: Candidate, w: Witness, e: Enrollment) {
    Lower(e.address) == Lower(w.wallet) && c == Candidate(w.txHash, e.address, w.kind, w.meetsMinNotional, w.closedAtMs)
  }

  predicate IsPayable(c: Candidate, window: Window) {
    (c.kind == SdexSwap || c.kind == BlendDeposit) && c.meetsMinNotional && Inside(window, c.closedAtMs)
  }

  /** The row of an enrolled wallet's swap or deposit inside the window, at the streak of the days before. */
  ghost predicate PaysAction(r: Row, es: seq<Enrollment>, ws: seq<Witness>, world: World, c: Candidate) {
    && (exists w, e :: w in ws && e in es && IsJoin(c, w, e))
    && IsPayable(c, world.window) && IsPayFor(r, c, StreakAt(c, world))
  }

  /**
   A whole run in terms of the witnesses: what becomes of every link, that every new row pays an action or
   a credited link, that the credited links' rows are all there, that no payable witness of an enrolled
   wallet is left out below the cap of its day, and who holds which perk at the end.
   */
  ghost predicate PaysExactly(before: State, after: State, ws: seq<Witness>, window: Window, world: World) {
    && LinksPaidExactly(before.links, after.links, ws, window)
    && before.ledger <= after.ledger
    && (forall n :: |before.ledger| <= n < |after.ledger| ==>
          PaysSomeLink(after.ledger[n], before.links, ws, window)
          || exists c :: PaysAction(after.ledger[n], before.enrollments, ws, world, c))
    && (forall r :: PaysSomeLink(r, before.links, ws, window) ==> r in after.ledger)
    && (forall c, w, e :: w in ws && e in before.enrollments && IsJoin(c, w, e) && IsPayable(c, window) ==>
          HasRow(after.ledger, c) || Count(after.ledger, KeyOf(c)) >= CapOf(c.kind))
    && forall a, p :: PerkPaid(before, after, a, p)
  }

  /** A perk is held if and only if it was, or the wallet is enrolled and its balance reaches the tier. */
  ghost predicate PerkPaid(before: State, after: State, a: string, p: Perk) {
    p in PerksOf(after.perks, a) <==>
    p in PerksOf(before.perks, a)
    || ((exists e :: e in before.enrollments && e.address == a) && Balance(after, a) >= TierOf(p))
  }

  lemma ActionRowsPay(es: seq<Enrollment>, ws: seq<Witness>, ledger: seq<Row>, world: World, n: nat)
    requires forall i, j :: 0 <= i < j < |ws| ==> ws[i].txHash != ws[j].txHash
    requires n < |PlanFor(Joined(ws, es), ledger, world)|
    ensures exists c :: PaysAction(RowOfAward(PlanFor(Joined(ws, es), ledger, world)[n]), es, ws, world, c)
  {
    hide *;
    var seen := Joined(ws, es);
    JoinedKeepsDistinctTx(ws, es);
    RunPaysOnlyInside(seen, ledger, world, n);
    var r := RowOfAward(PlanFor(seen, ledger, world)[n]);
    var c :| c in seen
             && IsPayFor(r, c, StreakAt(c, world))
             && Inside(world.window, c.closedAtMs) && (c.kind == SdexSwap || c.kind == BlendDeposit)
             && c.meetsMinNotional;
    JoinedExactly(ws, es, c);
    PaysActionIs(r, es, ws, world, c);
  }

  lemma PaysActionIs(r: Row, es: seq<Enrollment>, ws: seq<Witness>, world: World, c: Candidate)
    requires exists w, e :: w in ws && e in es && IsJoin(c, w, e)
    requires (c.kind == SdexSwap || c.kind == BlendDeposit) && c.meetsMinNotional && Inside(world.window, c.closedAtMs)
    requires IsPayFor(r, c, StreakAt(c, world))
    ensures PaysAction(r, es, ws, world, c)
  {
    hide IsPayFor, IsJoin, Inside, StreakBefore;
  }

  lemma PerksPaid(before: State, after: State, a: string, p: Perk)
    requires PerksGranted(before.perks, after, |after.enrollments|) && after.enrollments == before.enrollments
    ensures PerkPaid(before, after, a, p)
  {
    hide PerksFor, Balance, PerksOk, PerksOf;
    PerksByBalance(Balance(after, a), p);
    assert PerksOf(after.perks, a) == PerksOf(before.perks, a) + Reached(after, |after.enrollments|, a);
  }

  lemma CompletePaysExactly(before: State, after: State, ws: seq<Witness>, window: Window, summary: Summary,
                            world: World)
    requires forall i, j :: 0 <= i < j < |ws| ==> ws[i].txHash != ws[j].txHash
    requires RunIsComplete(before, after, ws, window, summary, world) && EnrollmentsOk(before.enrollments)
    ensures PaysExactly(before, after, ws, window, world)
  {
    hide LinksPaidExactly, PaysSomeLink, PaysAction, PerkPaid, IsPayable, HasRow, Count, KeyOf, EnrollmentsOk, IsJoin,
         Joined, PlanFor, CreditRows,
         ActionsCounted, CreditedWhenEarned, PerksGranted, RowOfAward, CreditedCount, LedgerAfterRun, RowsOf;
    CreditedIsPaid(before.links, after.links, ws, window);
    LedgerPaysExactly(before, after.ledger, ws, window, world);
    forall c, w, e | w in ws && e in before.enrollments && IsJoin(c, w, e) && IsPayable(c, window)
      ensures HasRow(after.ledger, c) || Count(after.ledger, KeyOf(c)) >= CapOf(c.kind)
    {
      NoneLeftOut(before, after.ledger, ws, window, world, c, w, e);
    }
    forall a, p
      ensures PerkPaid(before, after, a, p)
    {
      PerksPaid(before, after, a, p);
    }
  }

  lemma LedgerPaysExactly(before: State, ledger: seq<Row>, ws: seq<Witness>, window: Window, world: World)
    requires forall i, j :: 0 <= i < j < |ws| ==> ws[i].txHash != ws[j].txHash
    requires LedgerAfterRun(before, ledger, ws, window, world)
    ensures before.ledger <= ledger
    ensures forall n :: |before.ledger| <= n < |ledger| ==>
              PaysSomeLink(ledger[n], before.links, ws, window)
              || exists c :: PaysAction(ledger[n], before.enrollments, ws, world, c)
    ensures forall r :: PaysSomeLink(r, before.links, ws, window) ==> r in ledger
  {
    hide *;
    var plan, credits := PlanFor(Joined(ws, before.enrollments), before.ledger, world),
                         CreditRows(before.links, ws, window);
    LedgerInThreeParts(before, ledger, ws, window, world);
    forall n | |before.ledger| <= n < |ledger|
      ensures PaysSomeLink(ledger[n], before.links, ws, window)
              || exists c :: PaysAction(ledger[n], before.enrollments, ws, world, c)
    {
      var m := n - |before.ledger|;
      if m < |plan| {
        ActionRowsPay(before.enrollments, ws, before.ledger, world, m);
        assert ledger[n] == RowOfAward(plan[m]);
      } else {
        CreditRowsExactly(before.links, ws, window, credits[m - |plan|]);
      }
    }
    forall r | PaysSomeLink(r, before.links, ws, window) ensures r in ledger {
      CreditRowsExactly(before.links, ws, window, r);
    }
  }

  lemma NoneLeftOut(before: State, ledger: seq<Row>, ws: seq<Witness>, window: Window, world: World, c: Candidate,
                    w: Witness, e: Enrollment)
    requires forall i, j :: 0 <= i < j < |ws| ==> ws[i].txHash != ws[j].txHash
    requires LedgerAfterRun(before, ledger, ws, window, world) && EnrollmentsOk(before.enrollments)
    requires w in ws && e in before.enrollments && IsJoin(c, w, e) && IsPayable(c, window) && world.window == window
    ensures HasRow(ledger, c) || Count(ledger, KeyOf(c)) >= CapOf(c.kind)
  {
    hide CreditRows, HasRow, Count, KeyOf, Joined, AfterRun, EnrollmentsOk, IsJoin, Inside, Eligible, CapOf;
    var seen := Joined(ws, before.enrollments);
    JoinedExactly(ws, before.enrollments, c);
    JoinedKeepsDistinctTx(ws, before.enrollments);
    var run := Run(seen, |seen|);
    CompleteRunExhausts(before.ledger, run, c, world);
    EligibleExactly(c, world);
    StaysExhausted(AfterRun(before.ledger, run, world), CreditRows(before.links, ws, window), c, world);
  }

  lemma LedgerInThreeParts(before: State, ledger: seq<Row>, ws: seq<Witness>, window: Window, world: World)
    requires LedgerAfterRun(before, ledger, ws, window, world)
    ensures var plan, credits := PlanFor(Joined(ws, before.enrollments), before.ledger, world),
                                 CreditRows(before.links, ws, window);
            && ledger == before.ledger + RowsOf(plan) + credits
            && |RowsOf(plan)| == |plan| && forall i :: 0 <= i < |plan| ==> RowsOf(plan)[i] == RowOfAward(plan[i])
  {
    hide PlanFor, Joined, CreditRows, RowOfAward;
    var seen := Joined(ws, before.enrollments);
    var plan := PlanFor(seen, before.ledger, world);
    PlanIsShort(seen, before.ledger, world);
    assert plan[..|plan|] == plan;
  }

  class Tables {
    var nowMs: int
    var enrollments: seq<Enrollment>
    var links: seq<Link>
    var checkins: seq<(string, Civil)>
    var claims: seq<Claim>
    var ledger: seq<Row>
    var perks: seq<(string, Perk)>

    ghost function Snapshot(): State
      reads this
    {
      State(nowMs, enrollments, links, checkins, claims, ledger, perks)
    }

    constructor ()
      ensures Snapshot() == EMPTY
    {
      nowMs, enrollments, links, checkins, claims, ledger, perks := 0, [], [], [], [], [], [];
    }

    /** enroll, with one retry on a referral-code collision. */
    method EnrollWallet(g: Gate, address: string, codes: (string, string), referral: Option<string>)
      returns (refusal: Option<Refusal>)
      modifies this
      ensures (Snapshot(), refusal) == Enroll(old(Snapshot()), g, address, codes, referral)
    {
      var existing := FindEnrollment(enrollments, address);
      var referrer := if referral.Some? then FindEnrollmentByCode(enrollments, referral.value) else None;
      refusal := StatusRefusal(g, nowMs);
      if refusal.Some? { return; }
      if !g.proven { return Some(OwnershipProofRequired); }
      if existing.Some? { return Some(AlreadyEnrolled); }
      if referral.Some? {
        if referrer.None? { return Some(InvalidReferralCode); }
        if Lower(referrer.value.address) == Lower(address) { return Some(SelfReferral); }
      }
      var code, attempt := codes.0, 0;
      while FindEnrollmentByCode(enrollments, code).Some?
        invariant attempt <= 1 && code == if attempt == 0 then codes.0 else codes.1
        invariant attempt == 1 ==> FindEnrollmentByCode(enrollments, codes.0).Some?
        decreases 1 - attempt
      {
        if attempt == 1 { return Some(UniqueViolation); }
        attempt, code := 1, codes.1;
      }
      if referrer.Some? {
        if exists i :: 0 <= i < |links| && links[i].referee == address { return Some(UniqueViolation); }
        links := links + [Link(address, referrer.value.address, referrer.value.code, nowMs, None)];
      }
      enrollments := enrollments + [Enrollment(address, code)];
      refusal := None;
    }

    /** checkinToday: lock, read the day, count, insert twice. */
    method CheckinToday(g: Gate, address: string) returns (refusal: Option<Refusal>)
      modifies this
      ensures (Snapshot(), refusal) == Checkin(old(Snapshot()), g, address)
    {
      refusal := StatusRefusal(g, nowMs);
      if refusal.Some? { return; }
      if !g.proven { return Some(OwnershipProofRequired); }
      var enrollment := FindEnrollment(enrollments, address);
      if enrollment.None? { return Some(NotEnrolled); }
      var a, day := enrollment.value.address, UtcDay(nowMs);
      if (a, day) in checkins { return Some(AlreadyCheckedIn); }
      if Conflicts(ledger, StreakRow(a, day)) { return Some(UniqueViolation); }
      checkins := checkins + [(a, day)];
      ledger := ledger + [StreakRow(a, day)];
      refusal := None;
    }

    /** CampaignSocialService.claim */
    method ClaimSocialTask(g: Gate, address: string, task: Option<SocialTask>, taskAvailable: bool, handle: string,
                           usedElsewhere: bool) returns (refusal: Option<Refusal>)
      modifies this
      ensures (Snapshot(), refusal) ==
              ClaimTask(old(Snapshot()), g, address, task, taskAvailable, handle, usedElsewhere)
    {
      refusal := ClaimRefusal(g, nowMs, task, taskAvailable, handle, [], false, 0);
      if refusal.Some? { return; }
      var enrollment := FindEnrollment(enrollments, address);
      if enrollment.None? { return Some(NotEnrolled); }
      var a, day := enrollment.value.address, UtcDay(nowMs);
      var existing := ActiveClaimsOf(claims, Lower(a));
      var awardedToday := Sum(ledger, SocialGrossOn(Lower(a), day));
      refusal := ClaimRefusal(g, nowMs, task, taskAvailable, handle, existing, usedElsewhere, awardedToday);
      if refusal.Some? { return; }
      var claim := Claim(a, task.value, handle, false);
      if ClaimKeyTaken(claims, claim) {
        return Some(if TaskClaimedBy(claims, claim) then AlreadyClaimed else HandleAlreadyUsed);
      }
      var row := SocialRow(a, task.value, |claims|, day);
      if Conflicts(ledger, row) { return Some(UniqueViolation); }
      claims := claims + [claim];
      ledger := ledger + [row];
    }

    /** CampaignSocialService.remove */
    method RemoveSocialClaim(proven: bool, address: string, id: nat) returns (refusal: Option<Refusal>)
      modifies this
      ensures (Snapshot(), refusal) == RemoveClaim(old(Snapshot()), proven, address, id)
    {
      if !proven { return Some(OwnershipProofRequired); }
      var enrollment := FindEnrollment(enrollments, address);
      if enrollment.None? { return Some(NotFound); }
      if id >= |claims| || !IsActiveClaimOf(claims[id], Lower(enrollment.value.address)) { return Some(NotFound); }
      var credited := FindSocialRow(ledger, id);
      if credited.Some? && credited.value < |ledger| && ledger[credited.value].points != 0 {
        ledger := ledger + [ReversalRow(enrollment.value.address, ledger[credited.value].points, credited.value)];
      }
      claims := claims[id := claims[id].(deleted := true, handle := DELETED_HANDLE)];
      refusal := None;
    }

    /** insertActionAward: 1 when the row is new, 0 when its witness already has one. */
    method InsertActionAward(a: PlannedAward) returns (n: nat)
      modifies this`ledger
      ensures Snapshot() == Apply(old(Snapshot()), AwardEventOf(a))
      ensures ledger == InsertIdempotent(old(ledger), RowOfAward(a))
      ensures n == if Conflicts(old(ledger), RowOfAward(a)) then 0 else 1
    {
      n := if Conflicts(ledger, RowOfAward(a)) then 0 else 1;
      if n == 1 { ledger := ledger + [RowOfAward(a)]; }
    }

    /** creditReferral: two idempotent inserts and the mark, in one transaction. */
    method CreditReferral(i: nat, txHash: string, day: Civil)
      requires i < |links|
      modifies this`ledger, this`links
      ensures Snapshot() == CreditLink(old(Snapshot()), i, txHash, day)
    {
      var link := links[i];
      ledger := InsertIdempotent(ledger,
                                 ReferralRow(link.referrer, ReferralReferrer, REFERRER_POINTS, link.referee, day));
      ledger := InsertIdempotent(ledger, ReferralRow(link.referee, ReferralReferee, REFEREE_POINTS, link.referee, day));
      if link.creditedTx.None? {
        links := links[i := link.(creditedTx := Some(txHash))];
      }
    }

    /** The insert loop over a plan made from this ledger: every planned award goes in. */
    method InsertAwards(awards: seq<PlannedAward>, ghost all: set<Candidate>, ghost world: World)
      returns (awarded: nat, ghost events: seq<Event>)
      requires AppendsAwards(all, ledger, RowsOf(awards), world)
      modifies this`ledger
      ensures ledger == old(ledger) + RowsOf(awards) && awarded == |awards|
      ensures Snapshot() == History(old(Snapshot()), events)
    {
      ghost var rows := RowsOf(awards);
      assert |rows| == |awards| && forall i :: 0 <= i < |rows| ==> rows[i] == RowOfAward(awards[i]);
      hide *;
      events := [];
      awarded := 0;
      NoHistory(Snapshot());
      assert rows[..0] == [];
      for i := 0 to |awards|
        invariant ledger == old(ledger) + rows[..i] && awarded == i
        invariant Snapshot() == History(old(Snapshot()), events)
      {
        var a := awards[i];
        PlannedRowsAreNew(all, old(ledger), rows, i, world);
        HistoryStep(old(Snapshot()), events, AwardEventOf(a));
        var n := InsertActionAward(a);
        awarded := awarded + n;
        events := events + [AwardEventOf(a)];
        InsertedNewRow(old(ledger), rows, i);
      }
      assert rows[..|awards|] == rows;
    }

    /** The actions step: plan over the witnesses without a row, then insert every planned award. */
    method AwardActions(witnesses: seq<Witness>, window: Window)
      returns (candidates: nat, awarded: nat, skipped: SkipCounts, world: World, ghost events: seq<Event>)
      requires forall i, j :: 0 <= i < j < |witnesses| ==> witnesses[i].txHash != witnesses[j].txHash
      modifies this`ledger
      ensures world.window == window
      ensures forall w, d :: d in DaysOf(world, w) <==>
                exists i :: 0 <= i < |checkins| && Lower(checkins[i].0) == w && checkins[i].1 == d
      ensures var seen := Joined(witnesses, enrollments);
              ledger == AfterRun(old(ledger), Run(seen, |seen|), world)
              && candidates == |CandidatesOf(seen, old(ledger), world)|
              && awarded == |PlanFor(seen, old(ledger), world)|
              && skipped == Skips(CandidatesOf(seen, old(ledger), world), CountsOf(old(ledger)), world)
      ensures awarded + skipped.Total() == candidates
      ensures Snapshot() == History(old(Snapshot()), events)
    {
      var sets := CheckinSetsFromRows(checkins);
      world := World(sets, window);
      var seen := Joined(witnesses, enrollments);
      hide Conflicts, AppendsAwards, Joined, CandidatesOf, PlanFor, RowOfAward, History, Skips, CountsOf;
      candidates := |CandidatesOf(seen, ledger, world)|;
      var awards, skips := PlanRun(seen, ledger, world);
      skipped := skips;
      JoinedKeepsDistinctTx(witnesses, enrollments);
      ghost var all := set c | c in seen;
      RunAppends(all, ledger, Run(seen, |seen|), world);
      PlanIsShort(seen, ledger, world);
      assert AfterRun(ledger, Run(seen, |seen|), world) == ledger + RowsOf(awards) by {
        assert awards[..|awards|] == awards;
      }
      awarded, events := InsertAwards(awards, all, world);
    }

    /** One link that has earned its credit. */
    method CreditEarned(i: nat, witnesses: seq<Witness>, window: Window, ghost before: State, ghost credited: nat,
                        ghost pending: nat, ghost events: seq<Event>) returns (ghost more: seq<Event>)
      requires i < |links| && links[i].creditedTx.None? && LinkEarns(witnesses, links[i], window)
      requires ReferralProgress(before, Snapshot(), i, credited, pending, witnesses, window)
      requires Snapshot() == History(before, events)
      modifies this`ledger, this`links
      ensures |links| == |old(links)|
      ensures ReferralProgress(before, Snapshot(), i + 1, credited + 1, pending, witnesses, window)
      ensures Snapshot() == History(before, more)
    {
      assert Snapshot().links == links;
      hide *;
      CreditsLink(before, Snapshot(), i, credited, pending, witnesses, window);
      var w := FirstQualifying(witnesses, links[i].referee, links[i].linkedAtMs).value;
      CreditIsAnEvent(before, events, i, w.txHash, UtcDay(w.closedAtMs));
      CreditKeepsLinkCount(Snapshot(), i, w.txHash, UtcDay(w.closedAtMs));
      more := events + [CreditEvent(i, w.txHash, UtcDay(w.closedAtMs))];
      CreditReferral(i, w.txHash, UtcDay(w.closedAtMs));
    }

    /** The referrals step over the links that are not credited yet. */
    method CreditReferrals(witnesses: seq<Witness>, window: Window)
      returns (credited: nat, pending: nat, ghost events: seq<Event>)
      modifies this`ledger, this`links
      ensures CreditedWhenEarned(old(links), links, |links|, witnesses, window)
      ensures LinksPaidExactly(old(links), links, witnesses, window)
      ensures credited == CreditedCount(links) - CreditedCount(old(links)) && pending == |links| - CreditedCount(links)
      ensures Snapshot() == AfterReferrals(old(Snapshot()), |old(links)|, witnesses, window)
      ensures Snapshot() == History(old(Snapshot()), events)
    {
      credited, pending := 0, 0;
      events := [];
      ghost var s0 := Snapshot();
      NoHistory(s0);
      NoProgressYet(s0, witnesses, window);
      hide *;
      var i := 0;
      while i < |links|
        invariant i <= |links| == |s0.links|
        invariant ReferralProgress(s0, Snapshot(), i, credited, pending, witnesses, window)
        invariant Snapshot() == History(s0, events)
      {
        if links[i].creditedTx.None? && LinkEarns(witnesses, links[i], window) {
          ghost var more;
          more := CreditEarned(i, witnesses, window, s0, credited, pending, events);
          events := more;
          credited := credited + 1;
        } else {
          LeavesLink(s0, Snapshot(), i, credited, pending, witnesses, window);
          if links[i].creditedTx.None? { pending := pending + 1; }
        }
        i := i + 1;
      }
      ProgressDone(s0, Snapshot(), credited, pending, witnesses, window);
      CreditedIsPaid(s0.links, links, witnesses, window);
    }

    /** The perks of one wallet: insert on conflict do nothing, one tier after another. */
    method InsertPerksOf(e: Enrollment) returns (granted: nat)
      modifies this`perks
      ensures Snapshot() == GrantPerks(old(Snapshot()), e, 3)
      ensures granted == |perks| - |old(perks)|
    {
      var keys := PerksFor(Sum(ledger, AllOf(Lower(e.address))));
      ghost var before := Snapshot();
      granted := 0;
      for k := 0 to |keys|
        invariant granted == |perks| - |before.perks|
        invariant InsertPerks(perks, e.address, keys[k..]) == InsertPerks(before.perks, e.address, keys)
      {
        assert keys[k..][1..] == keys[k + 1..];
        if (e.address, keys[k]) !in perks {
          perks := perks + [(e.address, keys[k])];
          granted := granted + 1;
        }
      }
      PerksForIsPrefix(Balance(before, e.address));
      assert keys[..|keys|] == keys;
    }

    /** The perks step: every enrolled wallet gets every tier its live balance reaches, and nothing else is granted. */
    method GrantAllPerks() returns (granted: nat, ghost events: seq<Event>)
      requires PerksOk(perks)
      modifies this`perks
      ensures granted == |perks| - |old(perks)|
      ensures PerksGranted(old(perks), Snapshot(), |enrollments|)
      ensures Snapshot() == History(old(Snapshot()), events)
    {
      granted := 0;
      events := [];
      ghost var s0 := Snapshot();
      NoHistory(s0);
      NothingGranted(s0);
      hide *;
      for i := 0 to |enrollments|
        invariant granted == |perks| - |old(perks)|
        invariant PerksGranted(old(perks), Snapshot(), i)
        invariant Snapshot() == History(s0, events)
      {
        PerkIsAnEvent(s0, events, i);
        OneMoreGranted(old(perks), Snapshot(), i);
        var n := InsertPerksOf(enrollments[i]);
        granted := granted + n;
        events := events + [PerkEvent(i, 3)];
      }
    }
  }

  lemma NothingGranted(s: State)
    requires PerksOk(s.perks)
    ensures PerksGranted(s.perks, s, 0)
  {
  }

  lemma OneMoreGranted(before: seq<(string, Perk)>, s: State, i: nat)
    requires i < |s.enrollments| && PerksGranted(before, s, i)
    ensures var t := GrantPerks(s, s.enrollments[i], 3);
            t == s.(perks := t.perks) && PerksGranted(before, t, i + 1)
  {
    var e := s.enrollments[i];
    GrantKeepsPrefix(s, e, 3);
    GrantIsPerksOnly(s, e);
    var t := GrantPerks(s, e, 3);
    hide PerksOk, GrantPerks;
    forall a ensures PerksOf(t.perks, a) == PerksOf(before, a) + Reached(t, i + 1, a) {
      GrantAdds(s, e, a);
      ReachedGrows(s, t, i, a);
    }
  }

  lemma ReachedGrows(s: State, t: State, i: nat, a: string)
    requires i < |s.enrollments| && t == s.(perks := t.perks)
    ensures Reached(t, i + 1, a) ==
            Reached(s, i, a) + (if a == s.enrollments[i].address then set p | p in PerksFor(Balance(s, a)) else {})
  {
    assert Balance(t, a) == Balance(s, a);
    hide PerksFor, Balance;
  }

  lemma GrantIsPerksOnly(s: State, e: Enrollment)
    ensures GrantPerks(s, e, 3) == s.(perks := GrantPerks(s, e, 3).perks)
  {
  }

  lemma GrantAdds(s: State, e: Enrollment, a: string)
    ensures PerksOf(GrantPerks(s, e, 3).perks, a) ==
            PerksOf(s.perks, a) + (if a == e.address then set p | p in PerksFor(Balance(s, a)) else {})
  {
    var keys := PerksFor(Balance(s, e.address));
    PerksForIsPrefix(Balance(s, e.address));
    assert keys[..|keys|] == keys;
    InsertedPerks(s.perks, e.address, keys, a);
  }

  /**
   runCampaignAward: dark without a start date, otherwise actions, referrals, perks. Whatever it
   does is a history of atomic steps, so every book stays in order.
   */
  method RunCampaignAward(db: Tables, enabled: bool, window: Window, witnesses: seq<Witness>)
    returns (summary: Summary, ghost world: World)
    requires forall i, j :: 0 <= i < j < |witnesses| ==> witnesses[i].txHash != witnesses[j].txHash
    requires Inv(db.Snapshot())
    modifies db`ledger, db`links, db`perks
    ensures Inv(db.Snapshot())
    ensures summary.dark <==> !enabled || window.startsAtMs.None?
    ensures summary.dark ==> db.Snapshot() == old(db.Snapshot())
    ensures !summary.dark ==> RunIsComplete(old(db.Snapshot()), db.Snapshot(), witnesses, window, summary, world)
    ensures !summary.dark ==> PaysExactly(old(db.Snapshot()), db.Snapshot(), witnesses, window, world)
  {
    hide *;
    BooksAreOk(db.Snapshot());
    if !enabled || window.startsAtMs.None? {
      summary := Summary(true, 0, 0, NO_SKIPS, 0, 0, 0);
      world := World(map[], window);
    } else {
      summary, world := RunInWindow(db, window, witnesses);
      CompletePaysExactly(old(db.Snapshot()), db.Snapshot(), witnesses, window, summary, world);
    }
  }

  /** The world a run read its check-ins from. */
  ghost predicate IsWorldOf(world: World, s: State, window: Window) {
    && world.window == window
    && forall w, d :: d in DaysOf(world, w) <==>
      exists i :: 0 <= i < |s.checkins| && Lower(s.checkins[i].0) == w && s.checkins[i].1 == d
  }

  /**
   All three steps are done and nothing else is: the ledger is the old one, every planned award in
   order, then both rows of every newly credited link; the perks are the old ones and every tier a
   live balance reaches; and the summary counts just that.
   */
  ghost predicate RunIsComplete(before: State, after: State, witnesses: seq<Witness>, window: Window,
                                summary: Summary, world: World) {
    && IsWorldOf(world, before, window)
    && after == before.(ledger := after.ledger, links := after.links, perks := after.perks)
    && LedgerAfterRun(before, after.ledger, witnesses, window, world)
    && ActionsCounted(before, witnesses, world, summary.candidates, summary.awardedActions, summary.skipped)
    && CreditedWhenEarned(before.links, after.links, |after.links|, witnesses, window)
    && summary.referralsCredited == CreditedCount(after.links) - CreditedCount(before.links)
    && summary.referralsPending == |after.links| - CreditedCount(after.links)
    && PerksGranted(before.perks, after, |after.enrollments|)
    && summary.perksGranted == |after.perks| - |before.perks|
  }

  ghost predicate LedgerAfterRun(before: State, ledger: seq<Row>, witnesses: seq<Witness>, window: Window,
                                 world: World) {
    var seen := Joined(witnesses, before.enrollments);
    ledger == AfterRun(before.ledger, Run(seen, |seen|), world) + CreditRows(before.links, witnesses, window)
  }

  ghost predicate ActionsCounted(before: State, witnesses: seq<Witness>, world: World, candidates: nat, awarded: nat,
                                 skipped: SkipCounts) {
    var cs := CandidatesOf(Joined(witnesses, before.enrollments), before.ledger, world);
    && candidates == |cs| == awarded + skipped.Total()
    && awarded == |Awards(cs, CountsOf(before.ledger), world)|
    && skipped == Skips(cs, CountsOf(before.ledger), world)
  }

  method RunInWindow(db: Tables, window: Window, witnesses: seq<Witness>) returns (summary: Summary, ghost world: World)
    requires forall i, j :: 0 <= i < j < |witnesses| ==> witnesses[i].txHash != witnesses[j].txHash
    requires Inv(db.Snapshot())
    modifies db`ledger, db`links, db`perks
    ensures Inv(db.Snapshot()) && !summary.dark
    ensures RunIsComplete(old(db.Snapshot()), db.Snapshot(), witnesses, window, summary, world)
  {
    hide Inv, CreditedWhenEarned, PerksGranted, IsWorldOf, AfterRun, CandidatesOf, Joined, CreditedCount, CreditRows,
         ActionsCounted;
    var candidates, awarded, skipped;
    candidates, awarded, skipped, world := RunActions(db, window, witnesses);
    var credited, pending := RunReferrals(db, window, witnesses);
    var granted := RunPerks(db);
    summary := Summary(false, candidates, awarded, skipped, credited, pending, granted);
  }

  method RunReferrals(db: Tables, window: Window, witnesses: seq<Witness>) returns (credited: nat, pending: nat)
    requires Inv(db.Snapshot())
    modifies db`ledger, db`links
    ensures Inv(db.Snapshot()) && CreditedWhenEarned(old(db.links), db.links, |db.links|, witnesses, window)
    ensures credited == CreditedCount(db.links) - CreditedCount(old(db.links))
    ensures pending == |db.links| - CreditedCount(db.links)
    ensures db.ledger == old(db.ledger) + CreditRows(old(db.links), witnesses, window)
  {
    ghost var s0 := db.Snapshot();
    BooksAreOk(s0);
    hide *;
    ghost var events;
    credited, pending, events := db.CreditReferrals(witnesses, window);
    HistoryKeepsInv(s0, events);
    ReferralsAppendExactly(s0, |s0.links|, witnesses, window);
    assert s0.links[..|s0.links|] == s0.links;
  }

  method RunPerks(db: Tables) returns (granted: nat)
    requires Inv(db.Snapshot())
    modifies db`perks
    ensures Inv(db.Snapshot()) && PerksGranted(old(db.perks), db.Snapshot(), |db.enrollments|)
    ensures granted == |db.perks| - |old(db.perks)|
  {
    ghost var s0 := db.Snapshot();
    BooksAreOk(s0);
    hide *;
    ghost var events;
    granted, events := db.GrantAllPerks();
    HistoryKeepsInv(s0, events);
  }

  method RunActions(db: Tables, window: Window, witnesses: seq<Witness>)
    returns (candidates: nat, awarded: nat, skipped: SkipCounts, ghost world: World)
    requires forall i, j :: 0 <= i < j < |witnesses| ==> witnesses[i].txHash != witnesses[j].txHash
    requires Inv(db.Snapshot())
    modifies db`ledger
    ensures Inv(db.Snapshot())
    ensures IsWorldOf(world, old(db.Snapshot()), window)
    ensures var seen := Joined(witnesses, db.enrollments);
            db.ledger == AfterRun(old(db.ledger), Run(seen, |seen|), world)
    ensures ActionsCounted(old(db.Snapshot()), witnesses, world, candidates, awarded, skipped)
  {
    hide Inv, Apply, History, AfterRun, CandidatesOf, Joined, DaysOf, Skips, CountsOf, Awards;
    ghost var s0 := db.Snapshot();
    var read;
    ghost var events;
    candidates, awarded, skipped, read, events := db.AwardActions(witnesses, window);
    world := read;
    HistoryKeepsInv(s0, events);
  }

  lemma BooksAreOk(s: State)
    requires Inv(s)
    ensures PerksOk(s.perks) && ReferralsOk(s.links, s.ledger) && EnrollmentsOk(s.enrollments)
  {
  }
}
